/** Exactly when a reported success is there to stay. */
module OutputDurability {
  import opened Bytes
  import opened OutputStore
  import opened OutputSafety

  /** What a writer is asked to write, and how. */
  datatype Job = Job(bytes: Text, force: bool)

  /** Every writer of the run does one of these jobs. */
  ghost predicate Doing(jobs: map<nat, Job>, w: World) {
    forall id :: id in w.writers ==> id in jobs && jobs[id] == Job(w.writers[id].bytes, w.writers[id].force)
  }

  predicate Succeeded(w: World, id: nat) {
    id in w.writers && w.writers[id].phase == Finished(Written)
  }

  /** After any run of any of these jobs, in any interleaving, a success implies a target. */
  ghost predicate SuccessesStay(start: Fs, jobs: map<nat, Job>) {
    forall history, id ::
      (IsHistory(start, history) && Doing(jobs, After(start, history)) && Succeeded(After(start, history), id))
      ==> Target in After(start, history).fs.names
  }

  /** A job with this flag whose temporary name is free. */
  predicate CanStart(start: Fs, jobs: map<nat, Job>, id: nat, force: bool) {
    id in jobs && jobs[id].force == force && Temp(id) !in start.names
  }

  /** One job with force and one without, both with a free temporary name. */
  predicate Mixed(start: Fs, jobs: map<nat, Job>) {
    && (exists p :: p in jobs && CanStart(start, jobs, p, false))
    && (exists q :: q in jobs && CanStart(start, jobs, q, true))
  }

  // ----- when successes stay

  /** Every writer forces, of those whose temporary name was free at the start. */
  ghost predicate OnlyForce(start: Fs, w: World) {
    forall id :: id in w.writers && Temp(id) !in start.names ==> w.writers[id].force
  }

  lemma {:induction false} OnlyForceKeepsTarget(start: Fs, history: seq<Action>, n: nat)
    requires IsHistory(start, history) && OnlyForce(start, After(start, history)) && n <= |history|
    requires Target in After(start, history[..n]).fs.names
    ensures Target in After(start, history).fs.names
    decreases |history|
  {
    if n == |history| {
      assert history[..n] == history;
    } else {
      var before, a := history[..|history| - 1], history[|history| - 1];
      var w := After(start, before);
      forall id | id in w.writers && Temp(id) !in start.names
        ensures w.writers[id].force
      {
        StepKeepsRequest(w, a, id);
      }
      assert before[..n] == history[..n];
      OnlyForceKeepsTarget(start, before, n);
      ReachableInv(start, before);
      hide Inv;
      if a.Step? {
        InvGivesWriter(start, w, a.writer);
        RemovalNeedsGuard(start, w.fs, a.writer, w.writers[a.writer], a.choice);
      }
    }
  }

  lemma ForcedSuccessStays(start: Fs, history: seq<Action>, id: nat)
    requires IsHistory(start, history) && OnlyForce(start, After(start, history))
    requires Succeeded(After(start, history), id)
    ensures Target in After(start, history).fs.names
  {
    hide After, IsHistory, OnlyForce;
    CommittedWasVisible(start, history, id);
    var n :| 0 <= n <= |history|
             && NodeAt(After(start, history[..n]).fs, Target)
                 == Some(Regular(After(start, history).writers[id].bytes));
    OnlyForceKeepsTarget(start, history, n);
  }

  /** A target that was there at the start stays, and so does a success of writers that agree on force. */
  lemma SuccessStaysPresent(start: Fs, jobs: map<nat, Job>, history: seq<Action>, id: nat)
    requires IsHistory(start, history) && Doing(jobs, After(start, history)) && Succeeded(After(start, history), id)
    requires Target in start.names || !Mixed(start, jobs)
    ensures Target in After(start, history).fs.names
  {
    hide After, IsHistory;
    if Target in start.names {
      TargetIsWhole(start, history);
    } else if q :| CanStart(start, jobs, q, true) {
      assert forall p :: !CanStart(start, jobs, p, false);
      WithoutUnforced(start, jobs, After(start, history));
      ForcedSuccessStays(start, history, id);
    } else {
      WithoutForced(start, jobs, After(start, history));
      OneWriterWins(start, history, id, id);
    }
  }

  lemma WithoutUnforced(start: Fs, jobs: map<nat, Job>, w: World)
    requires Doing(jobs, w) && forall p :: !CanStart(start, jobs, p, false)
    ensures OnlyForce(start, w)
  {
    forall id | id in w.writers && Temp(id) !in start.names
      ensures w.writers[id].force
    {
      assert !CanStart(start, jobs, id, false);
    }
  }

  lemma WithoutForced(start: Fs, jobs: map<nat, Job>, w: World)
    requires Doing(jobs, w) && forall q :: !CanStart(start, jobs, q, true)
    ensures NoForce(start, w)
  {
    forall id | id in w.writers && Temp(id) !in start.names
      ensures !w.writers[id].force
    {
      assert !CanStart(start, jobs, id, true);
    }
  }

  // ----- when one can be undone

  ghost predicate Reaches(start: Fs, w: World) {
    exists history :: IsHistory(start, history) && After(start, history) == w
  }

  lemma Act(start: Fs, w: World, a: Action)
    requires Reaches(start, w) && Allowed(w, a)
    ensures Reaches(start, Perform(w, a))
  {
    hide Perform;
    var history :| IsHistory(start, history) && After(start, history) == w;
    var longer := history + [a];
    assert longer[..|longer| - 1] == history;
    assert IsHistory(start, longer) && After(start, longer) == Perform(w, a);
  }

  /** Writers `p` and `q` are as `x` and `y` say. */
  function Two(fs: Fs, p: nat, x: Writer, q: nat, y: Writer): World {
    World(fs, map[p := x, q := y])
  }

  /** The first of the two writers takes one step. */
  lemma Move(start: Fs, fs: Fs, p: nat, x: Writer, q: nat, y: Writer, choice: Choice, fs': Fs, phase: Phase)
    requires p != q && Reaches(start, Two(fs, p, x, q, y)) && StepOf(fs, p, x, choice) == Effect(fs', phase)
    ensures Reaches(start, Two(fs', p, x.(phase := phase), q, y))
  {
    hide StepOf, Reaches;
    Act(start, Two(fs, p, x, q, y), Step(p, choice));
    assert map[p := x, q := y][p := x.(phase := phase)] == map[p := x.(phase := phase), q := y];
  }

  lemma Swap(start: Fs, fs: Fs, p: nat, x: Writer, q: nat, y: Writer)
    requires p != q && Reaches(start, Two(fs, p, x, q, y))
    ensures Reaches(start, Two(fs, q, y, p, x))
  {
    assert map[p := x, q := y] == map[q := y, p := x];
  }

  lemma BothBegin(start: Fs, p: nat, x: Writer, q: nat, y: Writer)
    requires Sound(start) && p != q && x.phase == Checking && y.phase == Checking
    ensures Reaches(start, Two(start, p, x, q, y))
  {
    assert IsHistory(start, []) && After(start, []) == World(start, map[]);
    hide Reaches;
    Act(start, World(start, map[]), Begin(p, x.bytes, x.force));
    Act(start, World(start, map[p := x]), Begin(q, y.bytes, y.force));
    assert map[p := x][q := y] == map[p := x, q := y];
  }

  /** The directory with a new file under a name. */
  function With(fs: Fs, n: Name, ino: nat, bytes: Text): Fs {
    Fs(fs.names[n := ino], fs.nodes[ino := Regular(bytes)])
  }

  /** Undisturbed, writer `p` stages its file. */
  lemma Stage(start: Fs, fs: Fs, p: nat, x: Writer, q: nat, y: Writer, ino: nat)
    requires p != q && Reaches(start, Two(fs, p, x, q, y)) && x.phase == Checking
    requires CheckTarget(fs, x.force).None? && Temp(p) !in fs.names && !InUse(fs, ino)
    ensures Reaches(start, Two(With(fs, Temp(p), ino, x.bytes), p, x.(phase := ParentCheck(ino)), q, y))
  {
    var staged := With(fs, Temp(p), ino, x.bytes);
    hide Reaches, Two, CommitStep, ClosingStep, CheckTarget, InUse;
    OnlyNewLink(fs, p, ino, staged);
    hide LinkedNames;
    Move(start, fs, p, x, q, y, Proceed, fs, Creating);
    Fill(start, fs, p, x.(phase := Creating), q, y, ino);
    Move(start, staged, p, x.(phase := Writing(ino, |x.bytes|)), q, y, Proceed, staged, Staged(ino));
    Move(start, staged, p, x.(phase := Staged(ino)), q, y, Proceed, staged, ParentCheck(ino));
  }

  lemma Fill(start: Fs, fs: Fs, p: nat, x: Writer, q: nat, y: Writer, ino: nat)
    requires p != q && Reaches(start, Two(fs, p, x, q, y)) && x.phase == Creating
    requires Temp(p) !in fs.names && !InUse(fs, ino)
    ensures Reaches(start, Two(With(fs, Temp(p), ino, x.bytes), p, x.(phase := Writing(ino, |x.bytes|)), q, y))
  {
    hide Reaches, Two, CommitStep, ClosingStep, InUse;
    var empty := With(fs, Temp(p), ino, []);
    Move(start, fs, p, x, q, y, Take(ino), empty, Writing(ino, 0));
    if x.bytes != [] {
      assert x.bytes[..|x.bytes|] == x.bytes;
      assert Store(empty, ino, x.bytes) == With(fs, Temp(p), ino, x.bytes);
      Move(start, empty, p, x.(phase := Writing(ino, 0)), q, y, Chunk(|x.bytes|),
           With(fs, Temp(p), ino, x.bytes), Writing(ino, |x.bytes|));
    }
  }

  lemma LinkOver(start: Fs, fs: Fs, p: nat, x: Writer, q: nat, y: Writer, ino: nat)
    requires p != q && Target !in fs.names && !x.force && x.phase == ParentCheck(ino)
    requires Reaches(start, Two(With(fs, Temp(p), ino, x.bytes), p, x, q, y))
    ensures var staged := With(fs, Temp(p), ino, x.bytes);
            Reaches(start, Two(staged.(names := staged.names[Target := ino]), p, x.(phase := RemovingTemp(ino)), q, y))
  {
    hide Reaches, Two, ClosingStep, ValidateTarget, LinkedNames;
    var staged := With(fs, Temp(p), ino, x.bytes);
    var linked := staged.(names := staged.names[Target := ino]);
    Move(start, staged, p, x, q, y, Proceed, staged, Linking(ino));
    Move(start, staged, p, x.(phase := Linking(ino)), q, y, Proceed, linked, RemovingTemp(ino));
  }

  lemma Stall(start: Fs, linked: Fs, p: nat, x: Writer, q: nat, y: Writer, ino: nat)
    requires p != q && !x.force && x.phase == RemovingTemp(ino) && Temp(p) in linked.names
    requires Target in linked.names && linked.names[Target] == ino
    requires Reaches(start, Two(linked, p, x, q, y))
    ensures Reaches(start, Two(Unlink(linked, Temp(p)), p, x.(phase := GuardRemove(Io)), q, y))
  {
    hide Reaches, Two, StagingStep, ValidateTarget, LinkedNames;
    var done := Unlink(linked, Temp(p));
    Move(start, linked, p, x, q, y, Proceed, done, Validating(ino));
    Move(start, done, p, x.(phase := Validating(ino)), q, y, Fail, done, GuardCheck(ino, Io));
    Move(start, done, p, x.(phase := GuardCheck(ino, Io)), q, y, Proceed, done, GuardRemove(Io));
  }

  /** Without force: the link is made, the check of it fails, and the guard is about to remove the target. */
  lemma LinkThenStall(start: Fs, fs: Fs, p: nat, x: Writer, q: nat, y: Writer, ino: nat)
    requires p != q && Target !in fs.names && Temp(p) !in fs.names && !x.force && x.phase == ParentCheck(ino)
    requires Reaches(start, Two(With(fs, Temp(p), ino, x.bytes), p, x, q, y))
    ensures Reaches(start, Two(With(fs, Target, ino, x.bytes), p, x.(phase := GuardRemove(Io)), q, y))
  {
    hide Reaches, Two, StepOf;
    var staged := With(fs, Temp(p), ino, x.bytes);
    var linked := staged.(names := staged.names[Target := ino]);
    LinkOver(start, fs, p, x, q, y, ino);
    Stall(start, linked, p, x.(phase := RemovingTemp(ino)), q, y, ino);
    assert Unlink(linked, Temp(p)) == With(fs, Target, ino, x.bytes);
  }

  lemma Replace(start: Fs, staged: Fs, done: Fs, p: nat, x: Writer, q: nat, y: Writer, ino: nat)
    requires p != q && x.force && x.phase == ParentCheck(ino) && Reaches(start, Two(staged, p, x, q, y))
    requires CheckTarget(staged, true).None? && Rename(staged, Temp(p), Target) == Some(done)
    ensures Reaches(start, Two(done, p, x.(phase := Validating(ino)), q, y))
  {
    hide Reaches, Two, ClosingStep, CheckTarget, Rename, ValidateTarget, LinkedNames;
    Move(start, staged, p, x, q, y, Proceed, staged, Rechecking(ino));
    Move(start, staged, p, x.(phase := Rechecking(ino)), q, y, Proceed, staged, Renaming(ino));
    Move(start, staged, p, x.(phase := Renaming(ino)), q, y, Proceed, done, Validating(ino));
  }

  lemma Finish(start: Fs, done: Fs, p: nat, x: Writer, q: nat, y: Writer, ino: nat)
    requires p != q && x.phase == Validating(ino) && Reaches(start, Two(done, p, x, q, y))
    requires ValidateTarget(done, ino).None?
    ensures Reaches(start, Two(done, p, x.(phase := Finished(Written)), q, y))
  {
    hide Reaches, Two, StagingStep, CheckTarget, Rename, ValidateTarget, LinkedNames;
    Move(start, done, p, x, q, y, Proceed, done, ParentRecheck);
    Move(start, done, p, x.(phase := ParentRecheck), q, y, Proceed, done, Syncing);
    Move(start, done, p, x.(phase := Syncing), q, y, Proceed, done, Finished(Written));
  }

  /** With force: undisturbed from its staged file, writer `p` replaces the target and succeeds. */
  lemma ReplaceAndFinish(start: Fs, fs: Fs, p: nat, x: Writer, q: nat, y: Writer, ino: nat)
    requires p != q && Temp(p) !in fs.names && !InUse(fs, ino) && x.force && x.phase == ParentCheck(ino)
    requires CheckTarget(fs, true).None?
    requires Reaches(start, Two(With(fs, Temp(p), ino, x.bytes), p, x, q, y))
    ensures Reaches(start, Two(With(fs, Target, ino, x.bytes), p, x.(phase := Finished(Written)), q, y))
  {
    hide Reaches, Two, StepOf, CheckTarget, Rename, ValidateTarget, InUse, With;
    var staged, done := With(fs, Temp(p), ino, x.bytes), With(fs, Target, ino, x.bytes);
    StagedIsReplaceable(fs, p, ino, x.bytes);
    ReplacedIsValid(fs, ino, x.bytes);
    Replace(start, staged, done, p, x, q, y, ino);
    Finish(start, done, p, x.(phase := Validating(ino)), q, y, ino);
  }

  lemma StagedIsReplaceable(fs: Fs, p: nat, ino: nat, bytes: Text)
    requires Temp(p) !in fs.names && !InUse(fs, ino) && CheckTarget(fs, true).None?
    ensures CheckTarget(With(fs, Temp(p), ino, bytes), true).None?
    ensures Rename(With(fs, Temp(p), ino, bytes), Temp(p), Target) == Some(With(fs, Target, ino, bytes))
  {
    assert fs.names[Temp(p) := ino][Target := ino] - {Temp(p)} == fs.names[Target := ino];
  }

  lemma ReplacedIsValid(fs: Fs, ino: nat, bytes: Text)
    requires !InUse(fs, ino)
    ensures ValidateTarget(With(fs, Target, ino, bytes), ino).None?
  {
    assert LinkedNames(With(fs, Target, ino, bytes), ino) == {Target};
  }

  /** There is an inode number from which on none is in use. */
  lemma {:induction false} UnusedInodes(fs: Fs) returns (free: nat)
    ensures forall ino: nat :: free <= ino ==> !InUse(fs, ino)
    decreases |fs.names|
  {
    if fs.names == map[] {
      free := 0;
    } else {
      var n :| n in fs.names;
      var rest := Unlink(fs, n);
      free := UnusedInodes(rest);
      forall ino: nat | free <= ino && fs.names[n] < ino
        ensures !InUse(fs, ino)
      {
        assert !InUse(rest, ino);
        assert forall m :: m in fs.names && m != n ==> rest.names[m] == fs.names[m];
      }
      free := free + fs.names[n] + 1;
    }
  }

  /** While writer `p` is about to remove the target, writer `q` replaces it and succeeds. */
  lemma ForceOver(start: Fs, fs: Fs, p: nat, x: Writer, q: nat, y: Writer, ino: nat)
    requires p != q && Reaches(start, Two(fs, p, x, q, y)) && y.force && y.phase == Checking
    requires CheckTarget(fs, true).None? && Temp(q) !in fs.names && !InUse(fs, ino)
    ensures Reaches(start, Two(With(fs, Target, ino, y.bytes), p, x, q, y.(phase := Finished(Written))))
  {
    hide Reaches, CheckTarget, InUse, Two, With;
    Swap(start, fs, p, x, q, y);
    Stage(start, fs, q, y, p, x, ino);
    ReplaceAndFinish(start, fs, q, y.(phase := ParentCheck(ino)), p, x, ino);
    Swap(start, With(fs, Target, ino, y.bytes), q, y.(phase := Finished(Written)), p, x);
  }

  /** The guard removes whatever is the target by now. */
  lemma RemoveAndRefuse(start: Fs, fs: Fs, p: nat, x: Writer, q: nat, y: Writer)
    requires p != q && Reaches(start, Two(fs, p, x, q, y)) && x.phase == GuardRemove(Io)
    ensures Reaches(start, Two(Unlink(Unlink(fs, Target), Temp(p)), p, x.(phase := Finished(Refused(Io))), q, y))
  {
    hide Reaches, Two;
    var gone := Unlink(fs, Target);
    Move(start, fs, p, x, q, y, Proceed, gone, DroppingTemp(Io));
    Move(start, gone, p, x.(phase := DroppingTemp(Io)), q, y, Proceed, Unlink(gone, Temp(p)), Finished(Refused(Io)));
  }

  lemma LinkedFacts(fs: Fs, q: nat, ino: nat, bytes: Text, other: nat)
    requires Temp(q) !in fs.names && !InUse(fs, other) && ino != other
    ensures var linked := With(fs, Target, ino, bytes);
            CheckTarget(linked, true).None? && Temp(q) !in linked.names && !InUse(linked, other)
  {
  }

  /** The directory once the file linked by one writer and replaced by the other is gone. */
  function Undone(start: Fs, p: nat, i: nat, b0: Text, j: nat, b1: Text): Fs {
    Unlink(Unlink(With(With(start, Target, i, b0), Target, j, b1), Target), Temp(p))
  }

  lemma UndoneNames(start: Fs, p: nat, i: nat, b0: Text, j: nat, b1: Text)
    requires Target !in start.names && Temp(p) !in start.names
    ensures Undone(start, p, i, b0, j, b1).names == start.names
  {
  }

  lemma UndoneIsReached(start: Fs, p: nat, x: Writer, q: nat, y: Writer, i: nat, j: nat)
    requires Sound(start) && p != q && x.phase == Checking && y.phase == Checking && !x.force && y.force
    requires Target !in start.names && Temp(p) !in start.names && Temp(q) !in start.names
    requires !InUse(start, i) && !InUse(start, j) && i != j
    ensures Reaches(start, Two(Undone(start, p, i, x.bytes, j, y.bytes), p, x.(phase := Finished(Refused(Io))),
                               q, y.(phase := Finished(Written))))
  {
    var linked := With(start, Target, i, x.bytes);
    LinkedFacts(start, q, i, x.bytes, j);
    assert CheckTarget(start, false).None?;
    hide StepOf, InUse, CheckTarget, Reaches, Two, With, Unlink, Sound;
    BothBegin(start, p, x, q, y);
    Stage(start, start, p, x, q, y, i);
    LinkThenStall(start, start, p, x.(phase := ParentCheck(i)), q, y, i);
    ForceOver(start, linked, p, x.(phase := GuardRemove(Io)), q, y, j);
    RemoveAndRefuse(start, With(linked, Target, j, y.bytes), p, x.(phase := GuardRemove(Io)), q,
                    y.(phase := Finished(Written)));
  }

  /**
   The identity guard looks first and removes afterwards, and a forced rename
   fits in between: from any directory without a target, whatever the two
   writers write, the forced one succeeds and the target is gone.
   */
  lemma ForcedSuccessCanBeUndone(start: Fs, p: nat, b0: Text, q: nat, b1: Text) returns (history: seq<Action>)
    requires Sound(start) && p != q
    requires Target !in start.names && Temp(p) !in start.names && Temp(q) !in start.names
    ensures IsHistory(start, history)
    ensures After(start, history).writers
         == map[p := Writer(b0, false, Finished(Refused(Io))), q := Writer(b1, true, Finished(Written))]
    ensures After(start, history).fs.names == start.names
  {
    hide InUse, Reaches, Undone, Sound, IsHistory, After;
    var x, y := Writer(b0, false, Checking), Writer(b1, true, Checking);
    var i := UnusedInodes(start);
    UndoneIsReached(start, p, x, q, y, i, i + 1);
    history := Witness(start, Two(Undone(start, p, i, b0, i + 1, b1), p, x.(phase := Finished(Refused(Io))),
                                  q, y.(phase := Finished(Written))));
    UndoneNames(start, p, i, b0, i + 1, b1);
  }

  lemma Witness(start: Fs, w: World) returns (history: seq<Action>)
    requires Reaches(start, w)
    ensures IsHistory(start, history) && After(start, history) == w
  {
    history :| IsHistory(start, history) && After(start, history) == w;
  }

  const BARE := Fs(map[], map[])

  /** The smallest such run starts with an empty directory and writes nothing. */
  lemma UndoneFromNothing() returns (history: seq<Action>)
    ensures IsHistory(BARE, history) && After(BARE, history).fs.names == map[]
    ensures After(BARE, history).writers
         == map[0 := Writer([], false, Finished(Refused(Io))), 1 := Writer([], true, Finished(Written))]
  {
    history := ForcedSuccessCanBeUndone(BARE, 0, [], 1, []);
  }

  // ----- the exact condition

  lemma MixedCanBeUndone(start: Fs, jobs: map<nat, Job>, p: nat, q: nat)
    requires Sound(start) && Target !in start.names
    requires CanStart(start, jobs, p, false) && CanStart(start, jobs, q, true)
    ensures !SuccessesStay(start, jobs)
  {
    hide IsHistory, After;
    var history := ForcedSuccessCanBeUndone(start, p, jobs[p].bytes, q, jobs[q].bytes);
    assert Doing(jobs, After(start, history)) && Succeeded(After(start, history), q);
  }

  /**
   "A reported success leaves a target in place" holds of a set of jobs exactly if
   the target is there before any of them starts, or those that can start agree on force.
   */
  lemma SuccessesStayExactly(start: Fs, jobs: map<nat, Job>)
    requires Sound(start)
    ensures SuccessesStay(start, jobs) <==> Target in start.names || !Mixed(start, jobs)
  {
    hide IsHistory, After, SuccessesStay;
    if Target in start.names || !Mixed(start, jobs) {
      AgreementKeepsSuccesses(start, jobs);
    } else {
      var p :| p in jobs && CanStart(start, jobs, p, false);
      var q :| q in jobs && CanStart(start, jobs, q, true);
      MixedCanBeUndone(start, jobs, p, q);
    }
  }

  lemma AgreementKeepsSuccesses(start: Fs, jobs: map<nat, Job>)
    requires Target in start.names || !Mixed(start, jobs)
    ensures SuccessesStay(start, jobs)
  {
    hide IsHistory, After, Mixed, Doing, Succeeded;
    forall history, id
      | IsHistory(start, history) && Doing(jobs, After(start, history)) && Succeeded(After(start, history), id)
      ensures Target in After(start, history).fs.names
    {
      SuccessStaysPresent(start, jobs, history, id);
    }
  }
}
