/** What every interleaving of writers keeps true of the target file. */
module OutputSafety {
  import opened Bytes
  import opened OutputStore

  // ----- the invariant

  /** The temporary name is the only link to an inode holding these bytes. */
  ghost predicate Owned(fs: Fs, id: nat, ino: nat, bytes: Text) {
    && Temp(id) in fs.names && fs.names[Temp(id)] == ino
    && ino in fs.nodes && fs.nodes[ino] == Regular(bytes)
    && SoleLink(fs, id, ino)
  }

  ghost predicate SoleLink(fs: Fs, id: nat, ino: nat) {
    forall n :: n in fs.names && fs.names[n] == ino ==> n == Temp(id)
  }

  /** Between the hard link and the removal of the temporary name the inode has two names. */
  ghost predicate Shared(fs: Fs, id: nat, ino: nat, bytes: Text) {
    && Temp(id) in fs.names && fs.names[Temp(id)] == ino
    && ino in fs.nodes && fs.nodes[ino] == Regular(bytes)
    && forall n :: n in fs.names && fs.names[n] == ino ==> n == Temp(id) || n == Target
  }

  /** A writer whose temporary name was taken at the start gets no further than finding that out. */
  ghost predicate NameOk(start: Fs, fs: Fs, id: nat, phase: Phase) {
    Temp(id) in start.names ==>
      if phase.Checking? || phase.Creating? then Temp(id) in fs.names
      else phase.DroppingTemp? || phase.Crashed? || (phase.Finished? && phase.outcome.Refused?)
  }

  ghost predicate WriterOk(start: Fs, fs: Fs, id: nat, w: Writer) {
    && NameOk(start, fs, id, w.phase)
    && match w.phase
    case Writing(ino, n) => n <= |w.bytes| && Owned(fs, id, ino, w.bytes[..n])
    case Staged(ino) => Owned(fs, id, ino, w.bytes)
    case ParentCheck(ino) => Owned(fs, id, ino, w.bytes)
    case Rechecking(ino) => w.force && Owned(fs, id, ino, w.bytes)
    case Renaming(ino) => w.force && Owned(fs, id, ino, w.bytes)
    case Linking(ino) => !w.force && Owned(fs, id, ino, w.bytes)
    case RemovingTemp(ino) => !w.force && Target !in start.names && Shared(fs, id, ino, w.bytes)
    case Validating(_) => (w.force || Target !in start.names) && Temp(id) !in fs.names
    case GuardCheck(_, _) => !w.force && Target !in start.names
    case GuardRemove(_) => !w.force && Target !in start.names
    case ParentRecheck => (w.force || Target !in start.names) && Temp(id) !in fs.names
    case Syncing => (w.force || Target !in start.names) && Temp(id) !in fs.names
    case Finished(Written) => (w.force || Target !in start.names) && Temp(id) !in fs.names
    case _ => true
  }

  /** Absent only if it was absent at the start; otherwise the original file or one writer's complete bytes. */
  ghost predicate TargetOk(start: Fs, w: World) {
    if Target in w.fs.names then
      || (Target in start.names && NodeAt(w.fs, Target) == NodeAt(start, Target))
      || (exists id :: id in w.writers && NodeAt(w.fs, Target) == Some(Regular(w.writers[id].bytes)))
    else Target !in start.names
  }

  /** A name that belongs to nobody in this run. */
  predicate IsBystander(writers: map<nat, Writer>, n: Name) {
    n.Other? || (n.Temp? && n.writer !in writers)
  }

  ghost predicate BystandersOk(start: Fs, w: World) {
    forall n :: IsBystander(w.writers, n) ==>
      && (n in w.fs.names <==> n in start.names)
      && NodeAt(w.fs, n) == NodeAt(start, n)
  }

  ghost predicate Inv(start: Fs, w: World) {
    && Sound(w.fs) && TargetOk(start, w) && BystandersOk(start, w)
    && (forall id :: id in w.writers ==> WriterOk(start, w.fs, id, w.writers[id]))
  }

  // ----- what one step can touch

  /** Only the writer's own temporary name and the target move, and no linked inode of anyone else is rewritten. */
  ghost predicate Local(a: Fs, b: Fs, id: nat) {
    && (forall n :: n != Target && n != Temp(id) ==> (n in a.names <==> n in b.names))
    && (forall n :: n != Target && n != Temp(id) && n in a.names ==> b.names[n] == a.names[n])
    && (forall ino :: ino in a.nodes ==> ino in b.nodes)
    && (forall ino :: ino in a.nodes && b.nodes[ino] != a.nodes[ino] ==> SoleLink(a, id, ino))
    && TempMoves(a, b, id) && TargetMoves(a, b, id)
  }

  ghost predicate TempMoves(a: Fs, b: Fs, id: nat) {
    Temp(id) in b.names ==>
      if Temp(id) in a.names then b.names[Temp(id)] == a.names[Temp(id)]
      else !InUse(a, b.names[Temp(id)]) && b.names[Temp(id)] in b.nodes
  }

  ghost predicate TargetMoves(a: Fs, b: Fs, id: nat) {
    Target in b.names ==>
      || (Target in a.names && b.names[Target] == a.names[Target])
      || (Temp(id) in a.names && b.names[Target] == a.names[Temp(id)] && SoleLink(a, id, a.names[Temp(id)])
          && b.nodes == a.nodes)
  }

  lemma StagingIsLocal(start: Fs, fs: Fs, id: nat, w: Writer, choice: Choice)
    requires Sound(fs) && WriterOk(start, fs, id, w) && InStaging(w.phase)
    ensures Local(fs, StagingStep(fs, id, w, choice).fs, id)
  {
    hide CheckTarget, LinkedNames;
  }

  lemma RenameIsLocal(start: Fs, fs: Fs, id: nat, w: Writer, choice: Choice)
    requires Sound(fs) && WriterOk(start, fs, id, w) && w.phase.Renaming?
    ensures Local(fs, CommitStep(fs, id, w, choice).fs, id)
  {
    hide CheckTarget, ValidateTarget, LinkedNames;
  }

  lemma LinkIsLocal(start: Fs, fs: Fs, id: nat, w: Writer, choice: Choice)
    requires Sound(fs) && WriterOk(start, fs, id, w) && w.phase.Linking?
    ensures Local(fs, CommitStep(fs, id, w, choice).fs, id)
  {
    hide CheckTarget, ValidateTarget, LinkedNames;
  }

  lemma CommitIsLocal(start: Fs, fs: Fs, id: nat, w: Writer, choice: Choice)
    requires Sound(fs) && WriterOk(start, fs, id, w) && InCommit(w.phase)
    ensures Local(fs, CommitStep(fs, id, w, choice).fs, id)
  {
    hide CheckTarget, ValidateTarget, LinkedNames, WriterOk;
    if w.phase.Renaming? {
      RenameIsLocal(start, fs, id, w, choice);
    } else if w.phase.Linking? {
      LinkIsLocal(start, fs, id, w, choice);
    }
  }

  lemma ClosingIsLocal(start: Fs, fs: Fs, id: nat, w: Writer, choice: Choice)
    requires Sound(fs) && WriterOk(start, fs, id, w) && InClosing(w.phase)
    ensures Local(fs, ClosingStep(fs, id, w, choice).fs, id)
  {
    hide LinkedNames;
  }

  lemma NothingIsLocal(fs: Fs, id: nat)
    requires Sound(fs)
    ensures Local(fs, fs, id)
  {
  }

  lemma StepIsLocal(start: Fs, fs: Fs, id: nat, w: Writer, choice: Choice)
    requires Sound(fs) && WriterOk(start, fs, id, w)
    ensures Local(fs, StepOf(fs, id, w, choice).fs, id)
  {
    hide StagingStep, CommitStep, ClosingStep, Local, Sound, WriterOk;
    NothingIsLocal(fs, id);
    if InStaging(w.phase) {
      StagingIsLocal(start, fs, id, w, choice);
    } else if InCommit(w.phase) {
      CommitIsLocal(start, fs, id, w, choice);
    } else if InClosing(w.phase) {
      ClosingIsLocal(start, fs, id, w, choice);
    }
  }

  lemma LocalKeepsSound(a: Fs, b: Fs, id: nat)
    requires Sound(a) && Local(a, b, id)
    ensures Sound(b)
  {
  }

  /** The file behind a name outside the step's reach keeps its identity and content. */
  lemma LocalKeepsNode(a: Fs, b: Fs, id: nat, n: Name)
    requires Sound(a) && Local(a, b, id) && n != Temp(id) && n in a.names && n in b.names && b.names[n] == a.names[n]
    ensures NodeAt(b, n) == NodeAt(a, n)
  {
    assert a.nodes[a.names[n]] == b.nodes[a.names[n]];
  }

  lemma OtherWriterKept(start: Fs, a: Fs, b: Fs, id: nat, other: nat, v: Writer)
    requires Sound(a) && Local(a, b, id) && WriterOk(start, a, other, v) && id != other
    ensures WriterOk(start, b, other, v)
  {
    hide Sound;
    if Temp(other) in a.names {
      LinksKept(a, b, id, other);
    }
  }

  lemma LinksKept(a: Fs, b: Fs, id: nat, other: nat)
    requires Local(a, b, id) && id != other && Temp(other) in a.names
    ensures Temp(other) in b.names && b.names[Temp(other)] == a.names[Temp(other)]
    ensures var ino := a.names[Temp(other)];
            && (ino in a.nodes ==> ino in b.nodes && b.nodes[ino] == a.nodes[ino])
            && (SoleLink(a, other, ino) ==> SoleLink(b, other, ino))
            && ((forall n :: n in a.names && a.names[n] == ino ==> n == Temp(other) || n == Target)
                ==> (forall n :: n in b.names && b.names[n] == ino ==> n == Temp(other) || n == Target))
  {
    var ino := a.names[Temp(other)];
    assert InUse(a, ino);
    assert !SoleLink(a, id, ino);
    assert Temp(id) in b.names && Temp(id) !in a.names ==> b.names[Temp(id)] != ino;
  }

  // ----- one step keeps the invariant

  lemma StagingKeeps(start: Fs, fs: Fs, id: nat, w: Writer, choice: Choice)
    requires Sound(fs) && WriterOk(start, fs, id, w) && InStaging(w.phase)
    ensures var e := StagingStep(fs, id, w, choice);
            WriterOk(start, e.fs, id, w.(phase := e.phase))
  {
    hide CheckTarget, LinkedNames;
    assert w.bytes[..|w.bytes|] == w.bytes;
    assert w.bytes[..0] == [];
  }

  lemma CommitKeeps(start: Fs, fs: Fs, id: nat, w: Writer, choice: Choice)
    requires Sound(fs) && WriterOk(start, fs, id, w) && InCommit(w.phase)
    requires Target !in fs.names ==> Target !in start.names
    ensures var e := CommitStep(fs, id, w, choice);
            WriterOk(start, e.fs, id, w.(phase := e.phase))
  {
    hide CheckTarget, ValidateTarget, LinkedNames;
  }

  lemma ClosingKeeps(start: Fs, fs: Fs, id: nat, w: Writer, choice: Choice)
    requires WriterOk(start, fs, id, w) && InClosing(w.phase)
    ensures var e := ClosingStep(fs, id, w, choice);
            WriterOk(start, e.fs, id, w.(phase := e.phase))
  {
  }

  lemma DeadKeeps(start: Fs, fs: Fs, id: nat, w: Writer)
    requires WriterOk(start, fs, id, w)
    ensures WriterOk(start, fs, id, w.(phase := Crashed))
  {
  }

  lemma OwnStepKeeps(start: Fs, fs: Fs, id: nat, w: Writer, choice: Choice)
    requires Sound(fs) && WriterOk(start, fs, id, w)
    requires Target !in fs.names ==> Target !in start.names
    ensures var e := StepOf(fs, id, w, choice);
            WriterOk(start, e.fs, id, w.(phase := e.phase))
  {
    hide StagingStep, CommitStep, ClosingStep, Sound, WriterOk;
    DeadKeeps(start, fs, id, w);
    if InStaging(w.phase) {
      StagingKeeps(start, fs, id, w, choice);
    } else if InCommit(w.phase) {
      CommitKeeps(start, fs, id, w, choice);
    } else if InClosing(w.phase) {
      ClosingKeeps(start, fs, id, w, choice);
    }
  }

  /** A target is taken away only by the identity guard of a writer that found none at first. */
  lemma RemovalNeedsGuard(start: Fs, fs: Fs, id: nat, w: Writer, choice: Choice)
    requires Sound(fs) && WriterOk(start, fs, id, w) && Target in fs.names
    ensures Target !in StepOf(fs, id, w, choice).fs.names <==>
            w.phase.GuardRemove? && !choice.Fail? && !choice.Crash?
  {
  }

  lemma NewTargetIsComplete(start: Fs, fs: Fs, id: nat, w: Writer, choice: Choice)
    requires Sound(fs) && WriterOk(start, fs, id, w)
    ensures var b := StepOf(fs, id, w, choice).fs;
            Target in b.names && !(Target in fs.names && b.names[Target] == fs.names[Target]) ==>
              NodeAt(b, Target) == Some(Regular(w.bytes)) && (w.phase.Renaming? || w.phase.Linking?)
  {
  }

  lemma StepKeepsTarget(start: Fs, w: World, id: nat, choice: Choice)
    requires Inv(start, w) && id in w.writers
    ensures TargetOk(start, Perform(w, Step(id, choice)))
  {
    var x := w.writers[id];
    var v := Perform(w, Step(id, choice));
    StepIsLocal(start, w.fs, id, x, choice);
    RemovedOnlyIfNew(start, w.fs, id, x, choice);
    NewTargetIsComplete(start, w.fs, id, x, choice);
    hide StepOf, Local, Sound, BystandersOk;
    if Target in v.fs.names {
      if Target in w.fs.names && v.fs.names[Target] == w.fs.names[Target] {
        LocalKeepsNode(w.fs, v.fs, id, Target);
        if i :| i in w.writers && NodeAt(w.fs, Target) == Some(Regular(w.writers[i].bytes)) {
          assert i in v.writers && v.writers[i].bytes == w.writers[i].bytes;
        }
      } else {
        assert id in v.writers && v.writers[id].bytes == x.bytes;
      }
    }
  }

  lemma RemovedOnlyIfNew(start: Fs, fs: Fs, id: nat, w: Writer, choice: Choice)
    requires Sound(fs) && WriterOk(start, fs, id, w)
    ensures Target in fs.names && Target !in StepOf(fs, id, w, choice).fs.names ==> Target !in start.names
  {
    if Target in fs.names {
      RemovalNeedsGuard(start, fs, id, w, choice);
    }
  }

  lemma StepKeepsBystanders(start: Fs, w: World, id: nat, choice: Choice)
    requires Inv(start, w) && id in w.writers
    ensures BystandersOk(start, Perform(w, Step(id, choice)))
  {
    var v := Perform(w, Step(id, choice));
    StepIsLocal(start, w.fs, id, w.writers[id], choice);
    hide StepOf, TargetOk, WriterOk;
    forall n | IsBystander(v.writers, n)
      ensures (n in v.fs.names <==> n in start.names) && NodeAt(v.fs, n) == NodeAt(start, n)
    {
      assert IsBystander(w.writers, n);
      if n in w.fs.names {
        LocalKeepsNode(w.fs, v.fs, id, n);
      }
    }
  }

  lemma StepKeepsWriters(start: Fs, w: World, id: nat, choice: Choice)
    requires Inv(start, w) && id in w.writers
    ensures var v := Perform(w, Step(id, choice));
            Sound(v.fs) && forall i :: i in v.writers ==> WriterOk(start, v.fs, i, v.writers[i])
  {
    var v := Perform(w, Step(id, choice));
    StepIsLocal(start, w.fs, id, w.writers[id], choice);
    OwnStepKeeps(start, w.fs, id, w.writers[id], choice);
    hide StepOf, WriterOk, BystandersOk, Local;
    LocalKeepsSound(w.fs, v.fs, id);
    forall i | i in v.writers && i != id
      ensures WriterOk(start, v.fs, i, v.writers[i])
    {
      OtherWriterKept(start, w.fs, v.fs, id, i, w.writers[i]);
    }
  }

  /** Every action of any writer keeps the invariant. */
  lemma PerformKeeps(start: Fs, w: World, a: Action)
    requires Inv(start, w) && Allowed(w, a)
    ensures Inv(start, Perform(w, a))
  {
    match a
    case Begin(id, bytes, force) =>
      var v := Perform(w, a);
      hide WriterOk, BystandersOk, Sound;
      BeginKeepsBystanders(start, w, id, bytes, force);
      NewWriterIsOk(start, w, id, bytes, force);
      if i :| i in w.writers && NodeAt(w.fs, Target) == Some(Regular(w.writers[i].bytes)) {
        assert v.writers[i] == w.writers[i];
      }
    case Step(id, choice) =>
      StepKeepsTarget(start, w, id, choice);
      StepKeepsBystanders(start, w, id, choice);
      StepKeepsWriters(start, w, id, choice);
  }

  lemma NewWriterIsOk(start: Fs, w: World, id: nat, bytes: Text, force: bool)
    requires BystandersOk(start, w) && id !in w.writers
    ensures WriterOk(start, w.fs, id, Writer(bytes, force, Checking))
  {
    assert IsBystander(w.writers, Temp(id));
  }

  lemma BeginKeepsBystanders(start: Fs, w: World, id: nat, bytes: Text, force: bool)
    requires BystandersOk(start, w)
    ensures BystandersOk(start, Perform(w, Begin(id, bytes, force)))
  {
    forall n | IsBystander(Perform(w, Begin(id, bytes, force)).writers, n)
      ensures IsBystander(w.writers, n)
    {
    }
  }

  lemma {:induction false} ReachableInv(start: Fs, history: seq<Action>)
    requires IsHistory(start, history)
    ensures Inv(start, After(start, history))
  {
    if history != [] {
      ReachableInv(start, history[..|history| - 1]);
      hide Inv, Perform;
      PerformKeeps(start, After(start, history[..|history| - 1]), history[|history| - 1]);
    }
  }

  // ----- main results

  /** In every reachable state the target is whole, and present whenever it was present at the start. */
  lemma TargetIsWhole(start: Fs, history: seq<Action>)
    requires IsHistory(start, history)
    ensures var w := After(start, history);
            && (Target in start.names ==> Target in w.fs.names)
            && (Target in w.fs.names ==>
                  || (Target in start.names && NodeAt(w.fs, Target) == NodeAt(start, Target))
                  || exists id :: id in w.writers && NodeAt(w.fs, Target) == Some(Regular(w.writers[id].bytes)))
  {
    hide After, WriterOk, BystandersOk, NodeAt;
    ReachableInv(start, history);
  }

  /** Files that are neither the target nor a running writer's temporary file are never touched. */
  lemma BystandersAreKept(start: Fs, history: seq<Action>, n: Name)
    requires IsHistory(start, history) && IsBystander(After(start, history).writers, n)
    ensures NodeAt(After(start, history).fs, n) == NodeAt(start, n)
  {
    hide After, WriterOk, TargetOk, NodeAt;
    ReachableInv(start, history);
  }

  /** Without force an existing target stays the file it is; only the writer's own link can go again. */
  lemma NoClobberNeverReplaces(start: Fs, history: seq<Action>, id: nat, choice: Choice)
    requires IsHistory(start, history) && id in After(start, history).writers
    requires !After(start, history).writers[id].force
    requires Target in After(start, history).fs.names
    ensures var w := After(start, history);
            var v := Perform(w, Step(id, choice));
            if w.writers[id].phase.GuardRemove? && !choice.Fail? && !choice.Crash? then Target !in v.fs.names
            else Target in v.fs.names && v.fs.names[Target] == w.fs.names[Target]
                 && NodeAt(v.fs, Target) == NodeAt(w.fs, Target)
  {
    ReachableInv(start, history);
    var w := After(start, history);
    var v := Perform(w, Step(id, choice));
    hide After, BystandersOk;
    assert WriterOk(start, w.fs, id, w.writers[id]);
    StepIsLocal(start, w.fs, id, w.writers[id], choice);
    RemovalNeedsGuard(start, w.fs, id, w.writers[id], choice);
    NewTargetIsComplete(start, w.fs, id, w.writers[id], choice);
    if w.writers[id].phase.Linking? {
      LinkNeedsAbsence(w.fs, id, w.writers[id], choice);
    }
    hide StepOf, WriterOk, Local, TargetOk, Sound;
    if Target in v.fs.names {
      LocalKeepsNode(w.fs, v.fs, id, Target);
    }
  }

  lemma LinkNeedsAbsence(fs: Fs, id: nat, w: Writer, choice: Choice)
    requires w.phase.Linking? && Target in fs.names
    ensures StepOf(fs, id, w, choice).fs == fs
  {
  }

  /** A writer without force never succeeds over a target that was there from the start. */
  lemma NoClobberRefusesExisting(start: Fs, history: seq<Action>, id: nat)
    requires IsHistory(start, history) && id in After(start, history).writers && Target in start.names
    requires After(start, history).writers[id].phase == Finished(Written)
    ensures After(start, history).writers[id].force
  {
    hide After, BystandersOk, TargetOk;
    ReachableInv(start, history);
    assert WriterOk(start, After(start, history).fs, id, After(start, history).writers[id]);
  }

  /** A directory whose target is a symbolic link or a directory stays exactly as it is, and no writer gets anywhere. */
  ghost predicate Untouched(start: Fs, w: World)
    requires Sound(start) && Target in start.names
  {
    && w.fs == start
    && forall id :: id in w.writers ==>
         var phase := w.writers[id].phase;
         || phase == Checking || phase == Crashed || phase == Finished(Refused(Io))
         || phase == Finished(Refused(if start.nodes[start.names[Target]].Symlink? then TargetSymbolicLink
                                      else TargetNotRegular))
  }

  /** An irregular target is never written through, replaced or removed; each finished call says what it is. */
  lemma {:induction false} IrregularTargetIsRefused(start: Fs, history: seq<Action>)
    requires IsHistory(start, history) && Sound(start)
    requires Target in start.names && !start.nodes[start.names[Target]].Regular?
    ensures Untouched(start, After(start, history))
  {
    if history != [] {
      IrregularTargetIsRefused(start, history[..|history| - 1]);
    }
  }

  /** Success needs the temporary name to have been free at the start, and leaves it free. */
  lemma WrittenLeavesNoTemp(start: Fs, history: seq<Action>, id: nat)
    requires IsHistory(start, history) && id in After(start, history).writers
    requires After(start, history).writers[id].phase == Finished(Written)
    ensures Temp(id) !in start.names && Temp(id) !in After(start, history).fs.names
  {
    hide After, BystandersOk, TargetOk;
    ReachableInv(start, history);
    assert WriterOk(start, After(start, history).fs, id, After(start, history).writers[id]);
  }

  lemma OnlyNewLink(fs: Fs, id: nat, ino: nat, fs': Fs)
    requires Temp(id) !in fs.names && !InUse(fs, ino) && fs'.names == fs.names[Temp(id) := ino]
    ensures LinkedNames(fs', ino) == {Temp(id)}
  {
    forall n
      ensures n in LinkedNames(fs', ino) <==> n in {Temp(id)}
    {
    }
  }

  // ----- every success was visible

  /** The writer has renamed or linked its file over the target. */
  predicate Committed(w: Writer) {
    w.phase.RemovingTemp? || w.phase.Validating? || w.phase.ParentRecheck? || w.phase.Syncing?
    || w.phase == Finished(Written)
  }

  lemma CommitShowsBytes(start: Fs, fs: Fs, id: nat, w: Writer, choice: Choice)
    requires Sound(fs) && WriterOk(start, fs, id, w) && !Committed(w)
    ensures var e := StepOf(fs, id, w, choice);
            Committed(w.(phase := e.phase)) ==> NodeAt(e.fs, Target) == Some(Regular(w.bytes))
  {
  }

  /** A writer that reports success had its complete bytes at the target at some moment of the run. */
  lemma {:induction false} CommittedWasVisible(start: Fs, history: seq<Action>, id: nat)
    requires IsHistory(start, history) && id in After(start, history).writers
    requires Committed(After(start, history).writers[id])
    ensures exists n :: 0 <= n <= |history|
              && NodeAt(After(start, history[..n]).fs, Target) == Some(Regular(After(start, history).writers[id].bytes))
  {
    var before, a := history[..|history| - 1], history[|history| - 1];
    var w := After(start, before);
    ReachableInv(start, before);
    hide NodeAt, Inv;
    if id in w.writers && Committed(w.writers[id]) {
      CommittedWasVisible(start, before, id);
      var n :| 0 <= n <= |before|
               && NodeAt(After(start, before[..n]).fs, Target) == Some(Regular(w.writers[id].bytes));
      assert before[..n] == history[..n];
      StepKeepsRequest(w, a, id);
    } else {
      assert a == Step(id, a.choice) by {
        NewlyCommitted(w, a, id);
      }
      InvGivesWriter(start, w, id);
      CommitShowsBytes(start, w.fs, id, w.writers[id], a.choice);
      assert history[..|history|] == history;
    }
  }

  lemma InvGivesWriter(start: Fs, w: World, id: nat)
    requires Inv(start, w) && id in w.writers
    ensures Sound(w.fs) && WriterOk(start, w.fs, id, w.writers[id])
  {
  }

  lemma StepKeepsRequest(w: World, a: Action, id: nat)
    requires id in w.writers && Allowed(w, a)
    ensures id in Perform(w, a).writers
    ensures Perform(w, a).writers[id].bytes == w.writers[id].bytes
    ensures Perform(w, a).writers[id].force == w.writers[id].force
  {
  }

  lemma NewlyCommitted(w: World, a: Action, id: nat)
    requires Allowed(w, a) && id in Perform(w, a).writers && Committed(Perform(w, a).writers[id])
    requires !(id in w.writers && Committed(w.writers[id]))
    ensures a.Step? && a.writer == id
  {
  }

  // ----- among writers without force

  /** No writer forces, of those whose temporary name was free at the start. */
  ghost predicate NoForce(start: Fs, w: World) {
    forall id :: id in w.writers && Temp(id) !in start.names ==> !w.writers[id].force
  }

  /** From the hard link on, the target is this writer's. */
  predicate Holding(w: Writer) {
    Committed(w) || w.phase.GuardCheck? || w.phase.GuardRemove?
  }

  ghost predicate HolderOk(fs: Fs, w: Writer) {
    Holding(w) ==>
      && NodeAt(fs, Target) == Some(Regular(w.bytes))
      && (w.phase.RemovingTemp? || w.phase.Validating? || w.phase.GuardCheck? ==> fs.names[Target] == w.phase.ino)
  }

  ghost predicate SoleHolder(w: World) {
    && (forall id :: id in w.writers ==> HolderOk(w.fs, w.writers[id]))
    && (forall p, q :: p in w.writers && q in w.writers && Holding(w.writers[p]) && Holding(w.writers[q]) ==> p == q)
  }

  /** The writer's hold on the target survives its step, and is only ever gained where there was no target. */
  ghost predicate HoldKept(fs: Fs, w: Writer, e: Effect) {
    && HolderOk(e.fs, w.(phase := e.phase))
    && (Holding(w.(phase := e.phase)) && !Holding(w) ==> Target !in fs.names)
  }

  lemma CommitKeepsHold(start: Fs, fs: Fs, id: nat, w: Writer, choice: Choice)
    requires Sound(fs) && WriterOk(start, fs, id, w) && HolderOk(fs, w) && InCommit(w.phase)
    requires w.force ==> Temp(id) in start.names
    ensures HoldKept(fs, w, CommitStep(fs, id, w, choice))
  {
    hide CheckTarget, LinkedNames;
  }

  lemma ClosingKeepsHold(start: Fs, fs: Fs, id: nat, w: Writer, choice: Choice)
    requires Sound(fs) && WriterOk(start, fs, id, w) && HolderOk(fs, w) && InClosing(w.phase)
    requires w.force ==> Temp(id) in start.names
    ensures HoldKept(fs, w, ClosingStep(fs, id, w, choice))
  {
  }

  lemma OtherwiseKeepsHold(fs: Fs, id: nat, w: Writer, choice: Choice)
    requires HolderOk(fs, w)
    ensures HoldKept(fs, w, Effect(fs, Crashed)) && HoldKept(fs, w, Effect(fs, w.phase))
    ensures InStaging(w.phase) ==> HoldKept(fs, w, StagingStep(fs, id, w, choice))
  {
    hide CheckTarget, LinkedNames;
  }

  lemma OwnStepKeepsHold(start: Fs, fs: Fs, id: nat, w: Writer, choice: Choice)
    requires Sound(fs) && WriterOk(start, fs, id, w) && HolderOk(fs, w)
    requires w.force ==> Temp(id) in start.names
    ensures HoldKept(fs, w, StepOf(fs, id, w, choice))
  {
    hide StagingStep, CommitStep, ClosingStep, Sound, WriterOk, HolderOk, HoldKept;
    OtherwiseKeepsHold(fs, id, w, choice);
    if InCommit(w.phase) {
      CommitKeepsHold(start, fs, id, w, choice);
    } else if InClosing(w.phase) {
      ClosingKeepsHold(start, fs, id, w, choice);
    }
  }

  lemma StepKeepsSoleHolder(start: Fs, w: World, id: nat, choice: Choice)
    requires Inv(start, w) && SoleHolder(w) && NoForce(start, w) && id in w.writers
    ensures SoleHolder(Perform(w, Step(id, choice)))
  {
    var x := w.writers[id];
    var v := Perform(w, Step(id, choice));
    InvGivesWriter(start, w, id);
    StepIsLocal(start, w.fs, id, x, choice);
    OwnStepKeepsHold(start, w.fs, id, x, choice);
    forall q | q in w.writers && q != id && Holding(w.writers[q])
      ensures HolderOk(v.fs, w.writers[q]) && !Holding(v.writers[id])
    {
      assert HolderOk(w.fs, w.writers[q]);
      RemovalNeedsGuard(start, w.fs, id, x, choice);
      NewTargetIsComplete(start, w.fs, id, x, choice);
      CannotTakeTarget(start, w.fs, id, x, choice);
      hide StepOf, Local, WriterOk, TargetOk, BystandersOk;
      LocalKeepsNode(w.fs, v.fs, id, Target);
    }
    hide StepOf, Local, WriterOk, TargetOk, BystandersOk;
  }

  lemma CannotTakeTarget(start: Fs, fs: Fs, id: nat, w: Writer, choice: Choice)
    requires WriterOk(start, fs, id, w) && Target in fs.names && !Holding(w)
    requires w.force ==> Temp(id) in start.names
    ensures var e := StepOf(fs, id, w, choice);
            Target in e.fs.names && e.fs.names[Target] == fs.names[Target] && !Holding(w.(phase := e.phase))
  {
  }

  lemma {:induction false} ReachableSoleHolder(start: Fs, history: seq<Action>)
    requires IsHistory(start, history) && NoForce(start, After(start, history))
    ensures SoleHolder(After(start, history))
  {
    if history != [] {
      var before, a := history[..|history| - 1], history[|history| - 1];
      var w := After(start, before);
      forall id | id in w.writers && Temp(id) !in start.names
        ensures !w.writers[id].force
      {
        StepKeepsRequest(w, a, id);
      }
      ReachableSoleHolder(start, before);
      ReachableInv(start, before);
      hide Inv, After, IsHistory, NoForce, SoleHolder;
      match a
      case Begin(id, bytes, force) => BeginKeepsSoleHolder(w, id, bytes, force);
      case Step(id, choice) => StepKeepsSoleHolder(start, w, id, choice);
    }
  }

  lemma BeginKeepsSoleHolder(w: World, id: nat, bytes: Text, force: bool)
    requires SoleHolder(w) && id !in w.writers
    ensures SoleHolder(Perform(w, Begin(id, bytes, force)))
  {
    hide NodeAt;
  }

  /** Among writers without force at most one succeeds, and from then on its bytes are the target's. */
  lemma OneWriterWins(start: Fs, history: seq<Action>, p: nat, q: nat)
    requires IsHistory(start, history) && NoForce(start, After(start, history))
    requires p in After(start, history).writers && After(start, history).writers[p].phase == Finished(Written)
    requires q in After(start, history).writers && After(start, history).writers[q].phase == Finished(Written)
    ensures p == q
    ensures NodeAt(After(start, history).fs, Target) == Some(Regular(After(start, history).writers[p].bytes))
    ensures Target !in start.names
  {
    hide After, NodeAt;
    ReachableSoleHolder(start, history);
    ReachableInv(start, history);
    InvGivesWriter(start, After(start, history), p);
  }
}
