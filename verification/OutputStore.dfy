/**
 Writing one output file atomically, as a transition system: any number of
 writers on one target in one directory, one filesystem operation per step, any
 operation failing, any writer dying between two operations, and inode numbers
 reused as soon as nothing links to them.
 */
module OutputStore {
  import opened Bytes

  /** Temporary names carry the process and a sequence number, so each writer has its own. */
  datatype Name = Target | Temp(writer: nat) | Other(name: Text)

  datatype Node = Regular(bytes: Text) | Symlink | Directory

  /** The directory's names, and what the inodes hold. */
  datatype Fs = Fs(names: map<Name, nat>, nodes: map<nat, Node>)

  datatype OutputError =
    | ParentChanged
    | TargetExists
    | TargetSymbolicLink
    | TargetNotRegular
    | Io

  datatype Outcome = Written | Refused(error: OutputError)

  datatype Phase =
    | Checking
    | Creating
    | Writing(ino: nat, written: nat)
    | Staged(ino: nat)
    | ParentCheck(ino: nat)
    | Rechecking(ino: nat)
    | Renaming(ino: nat)
    | Linking(ino: nat)
    | RemovingTemp(ino: nat)
    | Validating(ino: nat)
    | GuardCheck(ino: nat, error: OutputError)   // the identity guard's drop looks at the target
    | GuardRemove(error: OutputError)            // and, if it matched, removes it
    | DroppingTemp(error: OutputError)           // the temporary guard's drop
    | ParentRecheck
    | Syncing
    | Finished(outcome: Outcome)
    | Crashed

  datatype Writer = Writer(bytes: Text, force: bool, phase: Phase)

  /** The environment's part in a step. */
  datatype Choice =
    | Proceed
    | Fail               // the operation fails
    | Take(ino: nat)     // the inode number given to a new file
    | Chunk(size: nat)   // a write transfers this many more bytes than one
    | Crash

  datatype Effect = Effect(fs: Fs, phase: Phase)

  predicate InUse(fs: Fs, ino: nat) {
    exists n :: n in fs.names && fs.names[n] == ino
  }

  /** Names linked to an inode. */
  function LinkedNames(fs: Fs, ino: nat): set<Name> {
    set n | n in fs.names && fs.names[n] == ino
  }

  function NodeAt(fs: Fs, n: Name): Option<Node> {
    if n in fs.names && fs.names[n] in fs.nodes then Some(fs.nodes[fs.names[n]]) else None
  }

  function Unlink(fs: Fs, n: Name): Fs {
    fs.(names := fs.names - {n})
  }

  function Store(fs: Fs, ino: nat, bytes: Text): Fs {
    fs.(nodes := fs.nodes[ino := Regular(bytes)])
  }

  /** `check_target`. */
  function CheckTarget(fs: Fs, force: bool): Option<OutputError> {
    match NodeAt(fs, Target)
    case None => None
    case Some(Symlink) => Some(TargetSymbolicLink)
    case Some(Directory) => Some(TargetNotRegular)
    case Some(Regular(_)) => if force then None else Some(TargetExists)
  }

  /** `validate_committed_target` against the staged file's identity. */
  function ValidateTarget(fs: Fs, ino: nat): Option<OutputError> {
    match NodeAt(fs, Target)
    case None => Some(Io)
    case Some(Symlink) => Some(TargetSymbolicLink)
    case Some(Directory) => Some(TargetNotRegular)
    case Some(Regular(_)) =>
      if fs.names[Target] != ino then Some(TargetNotRegular)
      else if |LinkedNames(fs, ino)| != 1 then Some(Io)
      else None
  }

  /** Renaming replaces a name at once; two names of one inode are left alone; a directory is not replaced. */
  function Rename(fs: Fs, from: Name, to: Name): Option<Fs> {
    if from !in fs.names || NodeAt(fs, to) == Some(Directory) then None
    else if to in fs.names && fs.names[to] == fs.names[from] then Some(fs)
    else Some(fs.(names := fs.names[to := fs.names[from]] - {from}))
  }

  function Min(a: nat, b: nat): nat {
    if a < b then a else b
  }

  predicate InStaging(ph: Phase) {
    ph.Checking? || ph.Creating? || ph.Writing? || ph.Staged? || ph.ParentCheck?
  }

  predicate InCommit(ph: Phase) {
    ph.Rechecking? || ph.Renaming? || ph.Linking? || ph.RemovingTemp? || ph.Validating?
  }

  predicate InClosing(ph: Phase) {
    ph.GuardCheck? || ph.GuardRemove? || ph.DroppingTemp? || ph.ParentRecheck? || ph.Syncing?
  }

  /** Up to and including staging: nothing but the temporary name is touched. */
  function StagingStep(fs: Fs, id: nat, w: Writer, choice: Choice): Effect
    requires InStaging(w.phase)
  {
    var failed := choice.Fail?;
    match w.phase
    case Checking =>
      var problem := if failed then Some(Io) else CheckTarget(fs, w.force);
      if problem.Some? then Effect(fs, Finished(Refused(problem.value))) else Effect(fs, Creating)
    case Creating =>
      if !choice.Take? || Temp(id) in fs.names || InUse(fs, choice.ino) then Effect(fs, DroppingTemp(Io))
      else Effect(Store(fs, choice.ino, []).(names := fs.names[Temp(id) := choice.ino]), Writing(choice.ino, 0))
    case Writing(ino, n) =>
      if failed then Effect(fs, DroppingTemp(Io))
      else if n >= |w.bytes| then Effect(fs, Staged(ino))
      else
        var m := Min(n + 1 + (if choice.Chunk? then choice.size else 0), |w.bytes|);
        Effect(Store(fs, ino, w.bytes[..m]), Writing(ino, m))
    case Staged(ino) =>
      if failed || |LinkedNames(fs, ino)| != 1 then Effect(fs, DroppingTemp(Io)) else Effect(fs, ParentCheck(ino))
    case ParentCheck(ino) =>
      if failed then Effect(fs, DroppingTemp(ParentChanged))
      else Effect(fs, if w.force then Rechecking(ino) else Linking(ino))
  }

  /** `commit_replace` and `commit_no_clobber`. */
  function CommitStep(fs: Fs, id: nat, w: Writer, choice: Choice): Effect
    requires InCommit(w.phase)
  {
    var failed := choice.Fail?;
    match w.phase
    case Rechecking(ino) =>
      var problem := if failed then Some(Io) else CheckTarget(fs, true);
      if problem.Some? then Effect(fs, DroppingTemp(problem.value)) else Effect(fs, Renaming(ino))
    case Renaming(ino) =>
      var renamed := if failed then None else Rename(fs, Temp(id), Target);
      if renamed.None? then Effect(fs, DroppingTemp(Io)) else Effect(renamed.value, Validating(ino))
    case Linking(ino) =>
      if failed || Temp(id) !in fs.names then Effect(fs, DroppingTemp(Io))
      else if Target in fs.names then Effect(fs, DroppingTemp(TargetExists))
      else Effect(fs.(names := fs.names[Target := fs.names[Temp(id)]]), RemovingTemp(ino))
    case RemovingTemp(ino) =>
      if failed || Temp(id) !in fs.names then Effect(fs, GuardCheck(ino, Io))
      else Effect(Unlink(fs, Temp(id)), Validating(ino))
    case Validating(ino) =>
      var problem := if failed then Some(Io) else ValidateTarget(fs, ino);
      if problem.None? then Effect(fs, ParentRecheck)
      else if w.force then Effect(fs, DroppingTemp(problem.value))
      else Effect(fs, GuardCheck(ino, problem.value))
  }

  /** The guards' drops, and what follows the commit. */
  function ClosingStep(fs: Fs, id: nat, w: Writer, choice: Choice): Effect
    requires InClosing(w.phase)
  {
    var failed := choice.Fail?;
    match w.phase
    case GuardCheck(ino, error) =>
      if !failed && Target in fs.names && fs.names[Target] == ino then Effect(fs, GuardRemove(error))
      else Effect(fs, DroppingTemp(error))
    case GuardRemove(error) => Effect(if failed then fs else Unlink(fs, Target), DroppingTemp(error))
    case DroppingTemp(error) => Effect(if failed then fs else Unlink(fs, Temp(id)), Finished(Refused(error)))
    case ParentRecheck =>
      if failed then Effect(fs, Finished(Refused(ParentChanged))) else Effect(fs, Syncing)
    case Syncing => Effect(fs, Finished(if failed then Refused(Io) else Written))
  }

  function StepOf(fs: Fs, id: nat, w: Writer, choice: Choice): Effect {
    if w.phase.Finished? || w.phase.Crashed? then Effect(fs, w.phase)
    else if choice.Crash? then Effect(fs, Crashed)
    else if InStaging(w.phase) then StagingStep(fs, id, w, choice)
    else if InCommit(w.phase) then CommitStep(fs, id, w, choice)
    else ClosingStep(fs, id, w, choice)
  }

  // ----- runs

  datatype World = World(fs: Fs, writers: map<nat, Writer>)

  datatype Action =
    | Begin(writer: nat, bytes: Text, force: bool)
    | Step(writer: nat, choice: Choice)

  predicate Allowed(w: World, a: Action) {
    match a
    case Begin(id, _, _) => id !in w.writers
    case Step(id, _) => id in w.writers
  }

  function Perform(w: World, a: Action): World {
    match a
    case Begin(id, bytes, force) => w.(writers := w.writers[id := Writer(bytes, force, Checking)])
    case Step(id, choice) =>
      if id !in w.writers then w
      else
        var e := StepOf(w.fs, id, w.writers[id], choice);
        World(e.fs, w.writers[id := w.writers[id].(phase := e.phase)])
  }

  /** The state a history of actions leads to from a directory found as `start`, the last action last. */
  function After(start: Fs, history: seq<Action>): World {
    if history == [] then World(start, map[])
    else Perform(After(start, history[..|history| - 1]), history[|history| - 1])
  }

  /** Every name found at the start refers to an inode. */
  ghost predicate Sound(fs: Fs) {
    forall n :: n in fs.names ==> fs.names[n] in fs.nodes
  }

  ghost predicate IsHistory(start: Fs, history: seq<Action>) {
    if history == [] then Sound(start)
    else IsHistory(start, history[..|history| - 1])
         && Allowed(After(start, history[..|history| - 1]), history[|history| - 1])
  }
}
