/** What the identity check after the commit is for: success over a contested target. */
module OutputIdentity {
  import opened Bytes
  import opened OutputStore
  import opened OutputSafety

  /** No file of the run was given an inode number already in use or used before. */
  ghost predicate NewInodes(start: Fs, history: seq<Action>) {
    history == [] ||
    (NewInodes(start, history[..|history| - 1])
     && TakesNew(After(start, history[..|history| - 1]), history[|history| - 1]))
  }

  predicate TakesNew(w: World, a: Action) {
    a.Step? && a.choice.Take? && a.writer in w.writers && w.writers[a.writer].phase.Creating? ==>
      a.choice.ino !in w.fs.nodes
  }

  predicate HasInode(ph: Phase) {
    ph.Writing? || ph.Staged? || ph.ParentCheck? || ph.Rechecking? || ph.Renaming? || ph.Linking? || ph.RemovingTemp?
    || ph.Validating?
  }

  function WrittenBytes(w: Writer): Text {
    if w.phase.Writing? && w.phase.written <= |w.bytes| then w.bytes[..w.phase.written] else w.bytes
  }

  /** The writer's inode holds what it has written, whatever names lead to it. */
  ghost predicate InodeOk(fs: Fs, w: Writer) {
    HasInode(w.phase) ==> w.phase.ino in fs.nodes && fs.nodes[w.phase.ino] == Regular(WrittenBytes(w))
  }

  ghost predicate InodesApart(w: World) {
    && (forall id :: id in w.writers ==> InodeOk(w.fs, w.writers[id]))
    && (forall p, q :: p in w.writers && q in w.writers && p != q
                       && HasInode(w.writers[p].phase) && HasInode(w.writers[q].phase)
                       ==> w.writers[p].phase.ino != w.writers[q].phase.ino)
  }

  /** A step rewrites at most the writer's own inode, or a brand new one. */
  ghost predicate WritesOwn(fs: Fs, w: Writer, e: Effect) {
    && (HasInode(w.phase) && HasInode(e.phase) ==> e.phase.ino == w.phase.ino)
    && (!HasInode(w.phase) && HasInode(e.phase) ==> e.phase.ino !in fs.nodes)
    && (forall i :: i in fs.nodes ==> i in e.fs.nodes)
    && (forall i :: i in fs.nodes && e.fs.nodes[i] != fs.nodes[i] ==> HasInode(w.phase) && i == w.phase.ino)
  }

  lemma StagingWritesOwn(fs: Fs, id: nat, w: Writer, choice: Choice)
    requires InStaging(w.phase) && InodeOk(fs, w) && (w.phase.Writing? ==> w.phase.written <= |w.bytes|)
    requires w.phase.Creating? && choice.Take? ==> choice.ino !in fs.nodes
    ensures var e := StagingStep(fs, id, w, choice);
            WritesOwn(fs, w, e) && InodeOk(e.fs, w.(phase := e.phase))
  {
    hide CheckTarget, LinkedNames;
    assert w.bytes[..|w.bytes|] == w.bytes;
    assert w.bytes[..0] == [];
  }

  lemma LaterWritesOwn(fs: Fs, id: nat, w: Writer, choice: Choice)
    requires InodeOk(fs, w)
    ensures InCommit(w.phase) ==>
              var e := CommitStep(fs, id, w, choice); WritesOwn(fs, w, e) && InodeOk(e.fs, w.(phase := e.phase))
    ensures InClosing(w.phase) ==>
              var e := ClosingStep(fs, id, w, choice); WritesOwn(fs, w, e) && InodeOk(e.fs, w.(phase := e.phase))
  {
    hide CheckTarget, ValidateTarget, LinkedNames;
  }

  lemma StepWritesOwn(start: Fs, fs: Fs, id: nat, w: Writer, choice: Choice)
    requires WriterOk(start, fs, id, w) && InodeOk(fs, w)
    requires w.phase.Creating? && choice.Take? ==> choice.ino !in fs.nodes
    ensures var e := StepOf(fs, id, w, choice);
            WritesOwn(fs, w, e) && InodeOk(e.fs, w.(phase := e.phase))
  {
    WrittenWithin(start, fs, id, w);
    hide StagingStep, CommitStep, ClosingStep, WriterOk;
    if InStaging(w.phase) {
      StagingWritesOwn(fs, id, w, choice);
    } else {
      LaterWritesOwn(fs, id, w, choice);
    }
  }

  lemma WrittenWithin(start: Fs, fs: Fs, id: nat, w: Writer)
    requires WriterOk(start, fs, id, w)
    ensures w.phase.Writing? ==> w.phase.written <= |w.bytes|
  {
  }

  lemma StepKeepsApart(start: Fs, w: World, id: nat, choice: Choice)
    requires Inv(start, w) && InodesApart(w) && id in w.writers && TakesNew(w, Step(id, choice))
    ensures InodesApart(Perform(w, Step(id, choice)))
  {
    InvGivesWriter(start, w, id);
    StepWritesOwn(start, w.fs, id, w.writers[id], choice);
    hide StepOf, Inv, WriterOk, WrittenBytes;
    var v := Perform(w, Step(id, choice));
    forall q | q in w.writers && q != id
      ensures InodeOk(v.fs, w.writers[q])
    {
      assert InodeOk(w.fs, w.writers[q]);
    }
    forall q | q in w.writers && q != id && HasInode(w.writers[q].phase) && HasInode(v.writers[id].phase)
      ensures w.writers[q].phase.ino != v.writers[id].phase.ino
    {
      assert InodeOk(w.fs, w.writers[q]);
    }
  }

  lemma {:induction false} ReachableApart(start: Fs, history: seq<Action>)
    requires IsHistory(start, history) && NewInodes(start, history)
    ensures InodesApart(After(start, history))
  {
    if history != [] {
      var before, a := history[..|history| - 1], history[|history| - 1];
      ReachableApart(start, before);
      ReachableInv(start, before);
      hide Inv, After, InodeOk;
      match a
      case Begin(id, bytes, force) => BeginKeepsApart(After(start, before), id, bytes, force);
      case Step(id, choice) => StepKeepsApart(start, After(start, before), id, choice);
    }
  }

  lemma BeginKeepsApart(w: World, id: nat, bytes: Text, force: bool)
    requires InodesApart(w) && id !in w.writers
    ensures InodesApart(Perform(w, Begin(id, bytes, force)))
  {
  }

  /**
   Unless inode numbers repeat, a writer, forced or not, gets past its own
   validation only while the target is its own file: exactly its bytes, one link.
   */
  lemma SuccessIsValidated(start: Fs, history: seq<Action>, id: nat, choice: Choice)
    requires IsHistory(start, history) && NewInodes(start, history)
    requires id in After(start, history).writers && After(start, history).writers[id].phase.Validating?
    requires Perform(After(start, history), Step(id, choice)).writers[id].phase.ParentRecheck?
    ensures var w := After(start, history);
            && NodeAt(w.fs, Target) == Some(Regular(w.writers[id].bytes))
            && Target in w.fs.names && LinkedNames(w.fs, w.fs.names[Target]) == {Target}
  {
    hide After, NewInodes, IsHistory;
    ReachableApart(start, history);
    var w := After(start, history);
    var x := w.writers[id];
    assert InodeOk(w.fs, x);
    ValidatedMeans(w.fs, id, x, choice);
  }

  lemma ValidatedMeans(fs: Fs, id: nat, w: Writer, choice: Choice)
    requires w.phase.Validating? && InodeOk(fs, w) && StepOf(fs, id, w, choice).phase.ParentRecheck?
    ensures NodeAt(fs, Target) == Some(Regular(w.bytes))
    ensures Target in fs.names && LinkedNames(fs, fs.names[Target]) == {Target}
  {
    var links := LinkedNames(fs, w.phase.ino);
    assert Target in links && |links| == 1;
    SingletonIs(links, Target);
  }

  lemma SingletonIs<T>(s: set<T>, x: T)
    requires |s| == 1 && x in s
    ensures s == {x}
  {
    assert |s - {x}| == 0;
  }
}
