/** One writer running on its own: the imperative protocol, step for step, and what it achieves undisturbed. */
module OutputWriter {
  import opened Bytes
  import opened OutputStore
  import opened OutputSafety

  /** What the directory and the writer look like after `k` of the writer's steps and nobody else's. */
  function Alone(fs: Fs, id: nat, w: Writer, env: nat -> Choice, k: nat): Effect {
    if k == 0 then Effect(fs, w.phase)
    else
      var e := Alone(fs, id, w, env, k - 1);
      StepOf(e.fs, id, w.(phase := e.phase), env(k - 1))
  }

  class OutputDirectory {
    var names: map<Name, nat>
    var nodes: map<nat, Node>

    function State(): Fs
      reads this
    {
      Fs(names, nodes)
    }
  }

  /** The state of one `write_platform` call. */
  class WriteCall {
    const directory: OutputDirectory
    const id: nat
    const bytes: Text
    const force: bool
    const env: nat -> Choice
    ghost const start: Fs
    var steps: nat

    constructor (directory: OutputDirectory, id: nat, bytes: Text, force: bool, env: nat -> Choice)
      requires forall i :: !env(i).Crash?
      ensures this.directory == directory && this.id == id && this.bytes == bytes && this.force == force
      ensures this.env == env && start == directory.State() && At(Checking)
    {
      this.directory, this.id, this.bytes, this.force, this.env := directory, id, bytes, force, env;
      start := directory.State();
      steps := 0;
    }

    /** The call has reached this phase by the protocol's own steps. */
    ghost predicate At(phase: Phase)
      reads this, directory
    {
      && (forall i :: !env(i).Crash?)
      && Alone(start, id, Writer(bytes, force, Checking), env, steps) == Effect(directory.State(), phase)
    }

    /** Whether the next operation fails; each operation asks once. */
    method Fails(ghost phase: Phase) returns (failed: bool)
      requires At(phase)
      modifies this
      ensures steps == old(steps) + 1 && failed == env(old(steps)).Fail?
      ensures Alone(start, id, Writer(bytes, force, Checking), env, steps)
              == StepOf(old(directory.State()), id, Writer(bytes, force, phase), env(old(steps)))
    {
      failed := env(steps).Fail?;
      steps := steps + 1;
    }

    method CheckTarget(phase: Phase) returns (problem: Option<OutputError>)
      requires At(phase) && (phase == Checking || phase.Rechecking?)
      requires phase.Rechecking? ==> force
      modifies this
      ensures phase == Checking ==>
                At(if problem.None? then Creating else Finished(Refused(problem.value)))
      ensures phase.Rechecking? ==>
                At(if problem.None? then Renaming(phase.ino) else DroppingTemp(problem.value))
    {
      hide Alone, ClosingStep;
      var failed := Fails(phase);
      if failed {
        return Some(Io);
      }
      if Target !in directory.names || directory.names[Target] !in directory.nodes {
        return None;
      }
      var found := directory.nodes[directory.names[Target]];
      if found.Symlink? {
        return Some(TargetSymbolicLink);
      }
      if !found.Regular? {
        return Some(TargetNotRegular);
      }
      return if force then None else Some(TargetExists);
    }

    method WriteAll(ino: nat) returns (failed: bool)
      requires At(Writing(ino, 0))
      modifies this, directory
      ensures At(if failed then DroppingTemp(Io) else Staged(ino))
    {
      hide Alone, CommitStep, ClosingStep, LinkedNames, InUse, OutputStore.CheckTarget;
      var written := 0;
      while written < |bytes|
        invariant 0 <= written <= |bytes|
        invariant At(Writing(ino, written))
      {
        var choice := env(steps);
        failed := Fails(Writing(ino, written));
        if failed {
          return;
        }
        written := written + 1 + (if choice.Chunk? then choice.size else 0);
        if written > |bytes| {
          written := |bytes|;
        }
        directory.nodes := directory.nodes[ino := Regular(bytes[..written])];
      }
      failed := Fails(Writing(ino, |bytes|));
    }

    method StageFile() returns (staged: Option<nat>)
      requires At(Creating)
      modifies this, directory
      ensures At(if staged.Some? then ParentCheck(staged.value) else DroppingTemp(Io))
    {
      hide Alone, CommitStep, ClosingStep, LinkedNames, InUse, OutputStore.CheckTarget;
      var choice := env(steps);
      var failed := Fails(Creating);
      if !choice.Take? || Temp(id) in directory.names || InUse(directory.State(), choice.ino) {
        return None;
      }
      var ino := choice.ino;
      directory.nodes := directory.nodes[ino := Regular([])];
      directory.names := directory.names[Temp(id) := ino];
      failed := WriteAll(ino);
      if failed {
        return None;
      }
      failed := Fails(Staged(ino));
      if failed || |LinkedNames(directory.State(), ino)| != 1 {
        return None;
      }
      return Some(ino);
    }

    method ValidateTarget(ino: nat) returns (problem: Option<OutputError>)
      requires At(Validating(ino))
      modifies this
      ensures At(if problem.None? then ParentRecheck
                 else if force then DroppingTemp(problem.value) else GuardCheck(ino, problem.value))
    {
      hide Alone, StagingStep, ClosingStep;
      var failed := Fails(Validating(ino));
      if failed || Target !in directory.names || directory.names[Target] !in directory.nodes {
        return Some(Io);
      }
      var found := directory.nodes[directory.names[Target]];
      if found.Symlink? {
        return Some(TargetSymbolicLink);
      }
      if !found.Regular? || directory.names[Target] != ino {
        return Some(TargetNotRegular);
      }
      return if |LinkedNames(directory.State(), ino)| != 1 then Some(Io) else None;
    }

    method CommitReplace(ino: nat) returns (problem: Option<OutputError>)
      requires force && At(Rechecking(ino))
      modifies this, directory
      ensures At(if problem.None? then ParentRecheck else DroppingTemp(problem.value))
    {
      hide Alone, StagingStep, ClosingStep;
      problem := CheckTarget(Rechecking(ino));
      if problem.Some? {
        return;
      }
      var failed := Fails(Renaming(ino));
      if failed || Temp(id) !in directory.names || NodeAt(directory.State(), Target) == Some(Directory) {
        return Some(Io);
      }
      if Target !in directory.names || directory.names[Target] != directory.names[Temp(id)] {
        directory.names := directory.names[Target := directory.names[Temp(id)]] - {Temp(id)};
      }
      problem := ValidateTarget(ino);
    }

    method CommitNoClobber(ino: nat) returns (problem: Option<OutputError>)
      requires !force && At(Linking(ino))
      modifies this, directory
      ensures At(if problem.None? then ParentRecheck else DroppingTemp(problem.value))
    {
      hide Alone, StagingStep, ClosingStep;
      var failed := Fails(Linking(ino));
      if failed || Temp(id) !in directory.names {
        return Some(Io);
      }
      if Target in directory.names {
        return Some(TargetExists);
      }
      directory.names := directory.names[Target := directory.names[Temp(id)]];
      var committedGuard := new FileGuard.IfIdentity(Target, ino);
      failed := Fails(RemovingTemp(ino));
      if failed || Temp(id) !in directory.names {
        problem := Some(Io);
      } else {
        directory.names := directory.names - {Temp(id)};
        problem := ValidateTarget(ino);
      }
      if problem.None? {
        committedGuard.Disarm();
      }
      committedGuard.Drop(this, if problem.Some? then problem.value else Io);
    }

    method Commit(ino: nat) returns (problem: Option<OutputError>)
      requires At(ParentCheck(ino))
      modifies this, directory
      ensures At(if problem.None? then ParentRecheck else DroppingTemp(problem.value))
    {
      hide Alone, CommitStep, ClosingStep, LinkedNames, InUse;
      var failed := Fails(ParentCheck(ino));
      if failed {
        return Some(ParentChanged);
      }
      if force {
        problem := CommitReplace(ino);
      } else {
        problem := CommitNoClobber(ino);
      }
    }

    method Settle() returns (outcome: Outcome)
      requires At(ParentRecheck)
      modifies this
      ensures At(Finished(outcome))
    {
      hide Alone, CommitStep, StagingStep;
      var failed := Fails(ParentRecheck);
      if failed {
        return Refused(ParentChanged);
      }
      failed := Fails(Syncing);
      return if failed then Refused(Io) else Written;
    }

    /** `write_platform`: every run of it is a run of the step system. */
    method WritePlatform() returns (outcome: Outcome)
      requires At(Checking)
      modifies this, directory
      ensures At(Finished(outcome))
    {
      hide Alone, StepOf;
      var problem := CheckTarget(Checking);
      if problem.Some? {
        return Refused(problem.value);
      }
      var temporaryGuard := new FileGuard(Temp(id));
      var staged := StageFile();
      problem := Some(Io);
      if staged.Some? {
        problem := Commit(staged.value);
      }
      if problem.Some? {
        temporaryGuard.Drop(this, problem.value);
        return Refused(problem.value);
      }
      temporaryGuard.Disarm();
      outcome := Settle();
    }
  }

  /** Removes a name when dropped, unless disarmed; with an identity, only if the name still is that file. */
  class FileGuard {
    var path: Option<Name>
    var identity: Option<nat>

    constructor (path: Name)
      ensures this.path == Some(path) && identity == None
    {
      this.path, identity := Some(path), None;
    }

    constructor IfIdentity(path: Name, ino: nat)
      ensures this.path == Some(path) && identity == Some(ino)
    {
      this.path, identity := Some(path), Some(ino);
    }

    method Disarm()
      modifies this
      ensures path == None && identity == old(identity)
    {
      path := None;
    }

    /** Dropping after `error`; the two guards of a call differ in what they look at first. */
    method Drop(call: WriteCall, error: OutputError)
      requires path.Some? && identity.None? ==> path == Some(Temp(call.id)) && call.At(DroppingTemp(error))
      requires path.Some? && identity.Some? ==> path == Some(Target) && call.At(GuardCheck(identity.value, error))
      modifies this, call, call.directory
      ensures path == None
      ensures old(path).None? ==> call.directory.State() == old(call.directory.State()) && call.steps == old(call.steps)
      ensures old(path).Some? && old(identity).None? ==> call.At(Finished(Refused(error)))
      ensures old(path).Some? && old(identity).Some? ==> call.At(DroppingTemp(error))
    {
      hide Alone, StagingStep, CommitStep;
      if path.None? {
        return;
      }
      var name := path.value;
      path := None;
      if identity.Some? {
        var unreadable := call.Fails(GuardCheck(identity.value, error));
        if unreadable || name !in call.directory.names || call.directory.names[name] != identity.value {
          return;
        }
      }
      var failed := call.Fails(if identity.Some? then GuardRemove(error) else DroppingTemp(error));
      if !failed {
        call.directory.names := call.directory.names - {name};
      }
    }
  }

  // ----- what an undisturbed call achieves

  /** Nothing fails, writes transfer any amounts, and the new file gets an inode number nothing else links to. */
  ghost predicate Smooth(fs: Fs, id: nat, env: nat -> Choice) {
    && Sound(fs) && Temp(id) !in fs.names
    && env(1).Take? && !InUse(fs, env(1).ino)
    && forall i :: i != 1 ==> env(i).Proceed? || env(i).Chunk?
  }

  lemma Next(fs: Fs, id: nat, w: Writer, env: nat -> Choice, k: nat, now: Fs, phase: Phase)
    requires Alone(fs, id, w, env, k) == Effect(now, phase)
    ensures Alone(fs, id, w, env, k + 1) == StepOf(now, id, w.(phase := phase), env(k))
  {
  }

  function StagedFs(fs: Fs, id: nat, ino: nat, bytes: Text): Fs {
    Store(fs, ino, bytes).(names := fs.names[Temp(id) := ino])
  }

  function DoneFs(fs: Fs, ino: nat, bytes: Text): Fs {
    Fs(fs.names[Target := ino], fs.nodes[ino := Regular(bytes)])
  }

  lemma SmoothlyCreated(fs: Fs, id: nat, w: Writer, env: nat -> Choice)
    requires Smooth(fs, id, env) && w.phase == Checking && CheckTarget(fs, w.force).None?
    ensures Alone(fs, id, w, env, 2) == Effect(StagedFs(fs, id, env(1).ino, w.bytes[..0]), Writing(env(1).ino, 0))
  {
    assert Alone(fs, id, w, env, 0) == Effect(fs, Checking);
    hide Alone, CheckTarget, InUse;
    assert w.bytes[..0] == [];
    Next(fs, id, w, env, 0, fs, Checking);
    Next(fs, id, w, env, 1, fs, Creating);
  }

  /** Whatever the single writes transfer, they end with everything written. */
  lemma {:induction false} SmoothlyWritten(fs: Fs, id: nat, w: Writer, env: nat -> Choice, k: nat, n: nat)
    returns (end: nat)
    requires Smooth(fs, id, env) && 2 <= k && n <= |w.bytes|
    requires Alone(fs, id, w, env, k) == Effect(StagedFs(fs, id, env(1).ino, w.bytes[..n]), Writing(env(1).ino, n))
    ensures k <= end <= k + |w.bytes| - n
    ensures Alone(fs, id, w, env, end)
            == Effect(StagedFs(fs, id, env(1).ino, w.bytes), Writing(env(1).ino, |w.bytes|))
    decreases |w.bytes| - n
  {
    hide Alone, CommitStep, ClosingStep, InUse;
    if n == |w.bytes| {
      assert w.bytes[..n] == w.bytes;
      end := k;
    } else {
      var ino := env(1).ino;
      var now := StagedFs(fs, id, ino, w.bytes[..n]);
      Next(fs, id, w, env, k, now, Writing(ino, n));
      var m := Min(n + 1 + (if env(k).Chunk? then env(k).size else 0), |w.bytes|);
      assert Store(now, ino, w.bytes[..m]) == StagedFs(fs, id, ino, w.bytes[..m]);
      end := SmoothlyWritten(fs, id, w, env, k + 1, m);
    }
  }

  lemma SmoothlyStaged(fs: Fs, id: nat, w: Writer, env: nat -> Choice, k: nat)
    requires Smooth(fs, id, env) && 2 <= k
    requires Alone(fs, id, w, env, k)
             == Effect(StagedFs(fs, id, env(1).ino, w.bytes), Writing(env(1).ino, |w.bytes|))
    ensures Alone(fs, id, w, env, k + 3) ==
            Effect(StagedFs(fs, id, env(1).ino, w.bytes),
                   if w.force then Rechecking(env(1).ino) else Linking(env(1).ino))
  {
    hide Alone, CommitStep, ClosingStep, InUse;
    var n, ino := |w.bytes|, env(1).ino;
    var staged := StagedFs(fs, id, ino, w.bytes);
    OnlyNewLink(fs, id, ino, staged);
    hide LinkedNames;
    Next(fs, id, w, env, k, staged, Writing(ino, n));
    Next(fs, id, w, env, k + 1, staged, Staged(ino));
    Next(fs, id, w, env, k + 2, staged, ParentCheck(ino));
  }

  lemma SoleTargetLink(fs: Fs, ino: nat, names: map<Name, nat>)
    requires !InUse(fs, ino) && names == fs.names[Target := ino]
    ensures forall nodes :: LinkedNames(Fs(names, nodes), ino) == {Target}
  {
    forall nodes, n
      ensures n in LinkedNames(Fs(names, nodes), ino) <==> n in {Target}
    {
    }
  }

  lemma SmoothlyReplaced(fs: Fs, id: nat, w: Writer, env: nat -> Choice, k: nat)
    requires Smooth(fs, id, env) && CheckTarget(fs, true).None? && 2 <= k
    requires Alone(fs, id, w, env, k) == Effect(StagedFs(fs, id, env(1).ino, w.bytes), Rechecking(env(1).ino))
    ensures Alone(fs, id, w, env, k + 2) == Effect(DoneFs(fs, env(1).ino, w.bytes), Validating(env(1).ino))
  {
    hide Alone, StagingStep, ClosingStep;
    var ino := env(1).ino;
    var staged, done := StagedFs(fs, id, ino, w.bytes), DoneFs(fs, ino, w.bytes);
    assert staged.names[Target := ino] - {Temp(id)} == done.names;
    assert CheckTarget(staged, true) == CheckTarget(fs, true);
    Next(fs, id, w, env, k, staged, Rechecking(ino));
    Next(fs, id, w, env, k + 1, staged, Renaming(ino));
  }

  lemma SmoothlyLinked(fs: Fs, id: nat, w: Writer, env: nat -> Choice, k: nat)
    requires Smooth(fs, id, env) && CheckTarget(fs, false).None? && 2 <= k
    requires Alone(fs, id, w, env, k) == Effect(StagedFs(fs, id, env(1).ino, w.bytes), Linking(env(1).ino))
    ensures Alone(fs, id, w, env, k + 2) == Effect(DoneFs(fs, env(1).ino, w.bytes), Validating(env(1).ino))
  {
    hide Alone, StagingStep, ClosingStep;
    var ino := env(1).ino;
    var staged, done := StagedFs(fs, id, ino, w.bytes), DoneFs(fs, ino, w.bytes);
    assert staged.names[Target := ino] - {Temp(id)} == done.names;
    assert Target !in fs.names;
    Next(fs, id, w, env, k, staged, Linking(ino));
    Next(fs, id, w, env, k + 1, Fs(staged.names[Target := ino], staged.nodes), RemovingTemp(ino));
  }

  lemma SmoothlyClosed(fs: Fs, id: nat, w: Writer, env: nat -> Choice, k: nat)
    requires Smooth(fs, id, env) && 2 <= k
    requires Alone(fs, id, w, env, k) == Effect(DoneFs(fs, env(1).ino, w.bytes), Validating(env(1).ino))
    ensures Alone(fs, id, w, env, k + 3) == Effect(DoneFs(fs, env(1).ino, w.bytes), Finished(Written))
  {
    hide Alone, StagingStep, LinkedNames;
    var ino := env(1).ino;
    var done := DoneFs(fs, ino, w.bytes);
    SoleTargetLink(fs, ino, done.names);
    assert LinkedNames(done, ino) == {Target};
    Next(fs, id, w, env, k, done, Validating(ino));
    Next(fs, id, w, env, k + 1, done, ParentRecheck);
    Next(fs, id, w, env, k + 2, done, Syncing);
  }

  lemma {:induction false} FinishedStays(fs: Fs, id: nat, w: Writer, env: nat -> Choice, k: nat, end: nat)
    requires Alone(fs, id, w, env, k).phase.Finished? && k <= end
    ensures Alone(fs, id, w, env, end) == Alone(fs, id, w, env, k)
  {
    if k < end {
      FinishedStays(fs, id, w, env, k, end - 1);
    }
  }

  lemma SmoothlyRefused(fs: Fs, id: nat, w: Writer, env: nat -> Choice)
    requires Smooth(fs, id, env) && w.phase == Checking && CheckTarget(fs, w.force).Some?
    ensures Alone(fs, id, w, env, 1) == Effect(fs, Finished(Refused(CheckTarget(fs, w.force).value)))
  {
    assert Alone(fs, id, w, env, 0) == Effect(fs, Checking);
  }

  lemma SmoothlyAccepted(fs: Fs, id: nat, w: Writer, env: nat -> Choice) returns (k: nat)
    requires Smooth(fs, id, env) && w.phase == Checking && CheckTarget(fs, w.force).None?
    ensures k <= |w.bytes| + 10
    ensures Alone(fs, id, w, env, k) == Effect(DoneFs(fs, env(1).ino, w.bytes), Finished(Written))
  {
    hide StepOf, Alone, CheckTarget, Smooth;
    SmoothlyCreated(fs, id, w, env);
    k := SmoothlyWritten(fs, id, w, env, 2, 0);
    SmoothlyStaged(fs, id, w, env, k);
    if w.force {
      SmoothlyReplaced(fs, id, w, env, k + 3);
    } else {
      SmoothlyLinked(fs, id, w, env, k + 3);
    }
    SmoothlyClosed(fs, id, w, env, k + 5);
    k := k + 8;
  }

  /** What the target's name leads to at the start of an undisturbed call. */
  ghost predicate Leads(fs: Fs, node: Node) {
    Target in fs.names && fs.names[Target] in fs.nodes && fs.nodes[fs.names[Target]] == node
  }

  /**
   Undisturbed, however its writes are split, a call succeeds exactly when there
   is no target, or a regular one that it may replace. Then the target is a new
   file with exactly the bytes and nothing else in the directory has changed;
   otherwise nothing has, and the error says what stands in the way.
   */
  lemma UndisturbedWrite(fs: Fs, id: nat, bytes: Text, force: bool, env: nat -> Choice)
    requires Smooth(fs, id, env)
    ensures var end := Alone(fs, id, Writer(bytes, force, Checking), env, |bytes| + 10);
            && (end.phase == Finished(Written) <==> Target !in fs.names || (force && exists b :: Leads(fs, Regular(b))))
            && (end.phase == Finished(Refused(TargetSymbolicLink)) <==> Leads(fs, Symlink))
            && (end.phase == Finished(Refused(TargetNotRegular)) <==> Leads(fs, Directory))
            && (end.phase == Finished(Refused(TargetExists)) <==> !force && exists b :: Leads(fs, Regular(b)))
            && (end.fs == if end.phase == Finished(Written)
                          then Fs(fs.names[Target := env(1).ino], fs.nodes[env(1).ino := Regular(bytes)]) else fs)
  {
    hide Alone, StepOf;
    var w := Writer(bytes, force, Checking);
    if Leads(fs, Symlink) || Leads(fs, Directory) || (!force && Target in fs.names) {
      RegularOrNot(fs);
      SmoothlyRefused(fs, id, w, env);
      FinishedStays(fs, id, w, env, 1, |bytes| + 10);
    } else {
      RegularOrNot(fs);
      var k := SmoothlyAccepted(fs, id, w, env);
      FinishedStays(fs, id, w, env, k, |bytes| + 10);
    }
  }

  lemma RegularOrNot(fs: Fs)
    requires Sound(fs)
    ensures Target in fs.names && !Leads(fs, Symlink) && !Leads(fs, Directory) ==> exists b :: Leads(fs, Regular(b))
  {
    if Target in fs.names && fs.nodes[fs.names[Target]].Regular? {
      assert Leads(fs, Regular(fs.nodes[fs.names[Target]].bytes));
    }
  }
}
