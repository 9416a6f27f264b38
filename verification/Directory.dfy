/** The local-directory loader over one unchanging tree of named nodes. */
module Directory {
  import opened Bytes
  import opened Sorting
  import opened Distribution
  import opened Candidate

  const MAX_DIRECTORY_DEPTH: nat := 64
  const MAX_VISIBLE_ENTRIES: nat := 16_384

  datatype Node = Dir | File(bytes: Text, links: nat) | SymbolicLink | ForeignDevice | Special

  /** Nodes by slash-joined path below the root; the root directory itself has no entry. */
  type Tree = map<Text, Node>

  /** Every entry has a name and sits in a directory of the tree. */
  ghost predicate WellFormed(t: Tree) {
    forall p :: p in t ==>
      && p != [] && p[|p| - 1] != SLASH
      && forall a :: IsAncestor(a, p) ==> a in t && t[a].Dir?
  }

  datatype LocalError =
    | TraversalLimitExceeded
    | InvalidEntryName
    | LogicalPathCollision
    | DeviceBoundary
    | LinkProhibited(path: Text)
    | HardLinkedFile(path: Text)
    | NonRegularFile(path: Text)
    | UndeclaredEntry(path: Text)
    | MissingDeclaredFile(path: Text)
    | FileTooLarge(path: Text)

  // ----- the declared tree

  datatype ExpectedTree = ExpectedTree(files: set<Text>, directories: set<Text>, allowed: Option<(Text, nat)>)

  function Join(segments: seq<Text>): Text
    requires segments != []
  {
    if |segments| == 1 then segments[0] else segments[0] + [SLASH] + Join(segments[1..])
  }

  lemma {:induction false} JoinSplit(p: Text)
    ensures Join(Split(p)) == p
  {
    if p != [] {
      JoinSplit(p[1..]);
      var rest := Split(p[1..]);
      if p[0] == SLASH {
        assert Split(p)[1..] == rest;
        assert Join(Split(p)) == [] + [SLASH] + p[1..];
      } else {
        var head := [p[0]] + rest[0];
        assert Split(p) == [head] + rest[1..];
        assert Split(p)[1..] == rest[1..];
        assert p == [p[0]] + p[1..];
      }
    }
  }

  lemma {:induction false} JoinConcat(a: seq<Text>, b: seq<Text>)
    requires a != [] && b != []
    ensures Join(a + b) == Join(a) + [SLASH] + Join(b)
  {
    assert (a + b)[1..] == a[1..] + b;
    if |a| > 1 {
      JoinConcat(a[1..], b);
      assert Join(a + b) == a[0] + [SLASH] + (Join(a[1..]) + [SLASH] + Join(b));
      assert Join(a) == a[0] + [SLASH] + Join(a[1..]);
    }
  }

  /** `a` is the first `end` components of `p`, and not all of them. */
  predicate IsComponentPrefix(p: Text, end: nat, a: Text) {
    1 <= end < |Split(p)| && a == Join(Split(p)[..end])
  }

  lemma AncestorIsComponentPrefix(p: Text, a: Text)
    requires IsAncestor(a, p)
    ensures IsComponentPrefix(p, |Split(a)|, a)
  {
    var b := p[|a| + 1..];
    assert p == a + [SLASH] + b;
    SplitAtSlash(a, b);
    JoinSplit(a);
    assert Split(p)[..|Split(a)|] == Split(a);
  }

  lemma ComponentPrefixIsAncestor(p: Text, end: nat, a: Text)
    requires IsComponentPrefix(p, end, a)
    ensures IsAncestor(a, p)
  {
    var segments := Split(p);
    JoinConcat(segments[..end], segments[end..]);
    assert segments == segments[..end] + segments[end..];
    JoinSplit(p);
    assert p == a + [SLASH] + Join(segments[end..]);
  }

  /** Joining every shorter run of components gives exactly the ancestor directories. */
  lemma ComponentPrefixesAreAncestors(p: Text, directories: set<Text>)
    requires forall a: Text :: a in directories <==> exists end :: IsComponentPrefix(p, end, a)
    ensures directories == Ancestors(p)
  {
    hide IsComponentPrefix, IsAncestor;
    forall a: Text
      ensures a in directories <==> a in Ancestors(p)
    {
      if a in directories {
        var end :| IsComponentPrefix(p, end, a);
        ComponentPrefixIsAncestor(p, end, a);
      }
      if a in Ancestors(p) {
        AncestorIsComponentPrefix(p, a);
      }
    }
  }

  /** The directories of one path, by its components. */
  function ComponentDirectories(p: Text): (s: set<Text>)
    ensures s == Ancestors(p)
  {
    var s := set end | 1 <= end < |Split(p)| :: Join(Split(p)[..end]);
    assert forall a: Text :: a in s <==> exists end :: IsComponentPrefix(p, end, a) by {
      forall a: Text
        ensures a in s <==> exists end :: IsComponentPrefix(p, end, a)
      {
        if a in s {
          var end :| 1 <= end < |Split(p)| && a == Join(Split(p)[..end]);
          assert IsComponentPrefix(p, end, a);
        }
      }
    }
    ComponentPrefixesAreAncestors(p, s);
    s
  }

  /** The directories `add_expected_path` collects for one path. */
  method ExpectedDirectories(p: Text) returns (r: Result<set<Text>, LocalError>)
    ensures r == if |Split(p)| > MAX_DIRECTORY_DEPTH + 1 then Failure(TraversalLimitExceeded) else Success(Ancestors(p))
  {
    var components := Split(p);
    if |components| > MAX_DIRECTORY_DEPTH + 1 {
      return Failure(TraversalLimitExceeded);
    }
    var directories: set<Text> := {};
    for end := 1 to |components|
      invariant forall a: Text :: a in directories <==> exists e: nat :: e < end && IsComponentPrefix(p, e, a)
    {
      directories := directories + {Join(components[..end])};
      assert IsComponentPrefix(p, end, Join(components[..end]));
    }
    ComponentPrefixesAreAncestors(p, directories);
    return Success(directories);
  }

  function DirectoriesOf(paths: set<Text>): (s: set<Text>)
    ensures s == AncestorsOfAll(paths)
  {
    var s := set p, a | p in paths && a in ComponentDirectories(p) :: a;
    assert s == AncestorsOfAll(paths) by {
      forall a | a in AncestorsOfAll(paths)
        ensures a in s
      {
        var p :| p in paths && a in Ancestors(p);
        assert a in ComponentDirectories(p);
      }
    }
    s
  }

  function AllowedPaths(allowed: Option<(Text, nat)>): set<Text> {
    match allowed case None => {} case Some(a) => {a.0}
  }

  function Expect(m: BundleManifest, allowed: Option<(Text, nat)>): Result<ExpectedTree, LocalError> {
    var files := Paths(m) + AllowedPaths(allowed);
    if |m.files| > MAX_BUNDLE_FILES || exists p :: p in files && |Split(p)| > MAX_DIRECTORY_DEPTH + 1 then
      Failure(TraversalLimitExceeded)
    else
      Success(ExpectedTree(files, DirectoriesOf(files), allowed))
  }

  /** `ExpectedTree::from_manifest`: the manifest's files one after another, then the allowed one. */
  method FromManifest(m: BundleManifest, allowed: Option<(Text, nat)>) returns (r: Result<ExpectedTree, LocalError>)
    ensures r == Expect(m, allowed)
  {
    if |m.files| > MAX_BUNDLE_FILES {
      return Failure(TraversalLimitExceeded);
    }
    var files: set<Text>, directories: set<Text> := {}, {};
    for i := 0 to |m.files|
      invariant files == FilePaths(m.files[..i]) && directories == AncestorsOfAll(files)
      invariant forall p :: p in files ==> |Split(p)| <= MAX_DIRECTORY_DEPTH + 1
    {
      AddedFile(m.files, i);
      var more := ExpectedDirectories(m.files[i].path);
      if more.Failure? {
        return Failure(more.error);
      }
      AncestorsGrow(files, m.files[i].path);
      files, directories := files + {m.files[i].path}, directories + more.value;
    }
    assert m.files[..|m.files|] == m.files;
    if allowed.Some? {
      var more := ExpectedDirectories(allowed.value.0);
      if more.Failure? {
        return Failure(more.error);
      }
      AncestorsGrow(files, allowed.value.0);
      files, directories := files + {allowed.value.0}, directories + more.value;
    }
    assert files == Paths(m) + AllowedPaths(allowed);
    return Success(ExpectedTree(files, directories, allowed));
  }

  lemma AddedFile(files: seq<BundleFile>, i: nat)
    requires i < |files|
    ensures FilePaths(files[..i + 1]) == FilePaths(files[..i]) + {files[i].path}
    ensures FilePaths(files[..i + 1]) <= FilePaths(files)
  {
  }

  function MaximumBytesFor(e: ExpectedTree, p: Text): nat {
    match e.allowed
    case None => MAX_BUNDLE_FILE_BYTES
    case Some(a) => if a.0 == p then a.1 else MAX_BUNDLE_FILE_BYTES
  }

  // ----- directory entries

  function Prefix(d: Text): Text {
    if d == [] then [] else d + [SLASH]
  }

  /** `p` lies somewhere below directory `d`. */
  predicate Under(d: Text, p: Text) {
    |Prefix(d)| < |p| && p[..|Prefix(d)|] == Prefix(d)
  }

  predicate IsChild(d: Text, p: Text) {
    Under(d, p) && SLASH !in p[|Prefix(d)|..]
  }

  /**
   The entries of directory `d`, by path: they share a prefix, so listing them by
   path is listing them by file name.
   */
  function Children(t: Tree, d: Text): set<Text> {
    set p | p in t && IsChild(d, p)
  }

  /** The child of `d` on the way down to `p`. */
  function Toward(d: Text, p: Text): (q: Text)
    requires Under(d, p)
    ensures q == p || (IsAncestor(q, p) && |Prefix(d)| <= |q|)
    ensures q[..|Prefix(d)|] == Prefix(d) && SLASH !in q[|Prefix(d)|..]
  {
    var k := NextSlash(p, |Prefix(d)|);
    assert p[..k][..|Prefix(d)|] == p[..|Prefix(d)|];
    p[..k]
  }

  function NextSlash(p: Text, i: nat): (k: nat)
    requires i <= |p|
    ensures i <= k <= |p| && (k < |p| ==> p[k] == SLASH)
    ensures SLASH !in p[i..k]
    decreases |p| - i
  {
    if i == |p| || p[i] == SLASH then i
    else
      var k := NextSlash(p, i + 1);
      assert p[i..k] == [p[i]] + p[i + 1..k];
      k
  }

  // ----- the walk, as functions over what has been observed so far

  datatype Observed = Observed(files: set<Text>, logical: map<Text, Text>, entries: nat)

  const NOTHING_OBSERVED := Observed({}, map[], 0)

  function RecordLogicalPath(o: Observed, p: Text): Result<Observed, LocalError> {
    var key := LowerCase(p);
    if key in o.logical then
      if o.logical[key] != p then Failure(LogicalPathCollision) else Success(o)
    else
      Success(o.(logical := o.logical[key := p]))
  }

  function InspectDirectory(t: Tree, e: ExpectedTree, d: Text, depth: nat, o: Observed): Result<Observed, LocalError>
    decreases if depth > MAX_DIRECTORY_DEPTH then 0 else 66 - depth, 3, 0
  {
    if depth > MAX_DIRECTORY_DEPTH then Failure(TraversalLimitExceeded)
    else
      var entries := Listing(Children(t, d));
      if entries != [] && o.entries + |entries| > MAX_VISIBLE_ENTRIES then Failure(TraversalLimitExceeded)
      else InspectEntries(t, e, entries, depth, o.(entries := o.entries + |entries|))
  }

  function InspectEntries(t: Tree, e: ExpectedTree, entries: seq<Text>, depth: nat, o: Observed)
    : Result<Observed, LocalError>
    requires depth <= MAX_DIRECTORY_DEPTH
    requires forall p :: p in entries ==> p in t
    decreases 66 - depth, 2, |entries|
  {
    if entries == [] then Success(o)
    else
      var next :- InspectEntry(t, e, entries[0], depth, o);
      InspectEntries(t, e, entries[1..], depth, next)
  }

  function InspectEntry(t: Tree, e: ExpectedTree, p: Text, depth: nat, o: Observed): Result<Observed, LocalError>
    requires depth <= MAX_DIRECTORY_DEPTH && p in t
    decreases 66 - depth, 1, 0
  {
    if !ValidPath(p) then Failure(InvalidEntryName)
    else
      var recorded :- RecordLogicalPath(o, p);
      match t[p]
      case SymbolicLink => Failure(LinkProhibited(p))
      case ForeignDevice => Failure(DeviceBoundary)
      case Dir =>
        if p !in e.directories then Failure(UndeclaredEntry(p)) else InspectDirectory(t, e, p, depth + 1, recorded)
      case Special => Failure(NonRegularFile(p))
      case File(bytes, links) =>
        if links != 1 then Failure(HardLinkedFile(p))
        else if p !in e.files then Failure(UndeclaredEntry(p))
        else if |bytes| > MaximumBytesFor(e, p) then Failure(LocalError.FileTooLarge(p))
        else Success(recorded.(files := recorded.files + {p}))
  }

  // ----- the walk, updating one observation record in place

  class ObservedTree {
    var files: set<Text>
    var logicalPaths: map<Text, Text>
    var entries: nat

    constructor ()
      ensures View() == NOTHING_OBSERVED
    {
      files, logicalPaths, entries := {}, map[], 0;
    }

    ghost function View(): Observed
      reads this
    {
      Observed(files, logicalPaths, entries)
    }

    method RecordPath(p: Text) returns (collision: bool)
      modifies this
      ensures match RecordLogicalPath(old(View()), p)
              case Success(o) => !collision && View() == o
              case Failure(_) => collision
    {
      var key := LowerCase(p);
      if key in logicalPaths {
        return logicalPaths[key] != p;
      }
      logicalPaths := logicalPaths[key := p];
      return false;
    }

    /** Counts the names `read_dir` yields, one at a time, against the traversal bound. */
    method CountEntries(listing: seq<Text>) returns (exceeded: bool)
      modifies this
      ensures exceeded == (listing != [] && old(entries) + |listing| > MAX_VISIBLE_ENTRIES)
      ensures !exceeded ==> View() == old(View()).(entries := old(entries) + |listing|)
    {
      for counted := 0 to |listing|
        invariant entries == old(entries) + counted
        invariant files == old(files) && logicalPaths == old(logicalPaths)
        invariant counted > 0 ==> entries <= MAX_VISIBLE_ENTRIES
      {
        entries := entries + 1;
        if entries > MAX_VISIBLE_ENTRIES {
          return true;
        }
      }
      return false;
    }

    method InspectOne(t: Tree, e: ExpectedTree, p: Text, depth: nat) returns (error: Option<LocalError>)
      requires depth <= MAX_DIRECTORY_DEPTH && p in t
      modifies this
      ensures match InspectEntry(t, e, p, depth, old(View()))
              case Success(o) => error.None? && View() == o
              case Failure(f) => error == Some(f)
      decreases 66 - depth, 0
    {
      if !ValidPath(p) {
        return Some(InvalidEntryName);
      }
      var collision := RecordPath(p);
      if collision {
        return Some(LogicalPathCollision);
      }
      match t[p]
      case SymbolicLink =>
        return Some(LinkProhibited(p));
      case ForeignDevice =>
        return Some(DeviceBoundary);
      case Special =>
        return Some(NonRegularFile(p));
      case Dir =>
        if p !in e.directories {
          return Some(UndeclaredEntry(p));
        }
        error := Inspect(t, e, p, depth + 1);
      case File(bytes, links) =>
        if links != 1 {
          return Some(HardLinkedFile(p));
        }
        if p !in e.files {
          return Some(UndeclaredEntry(p));
        }
        if |bytes| > MaximumBytesFor(e, p) {
          return Some(LocalError.FileTooLarge(p));
        }
        files := files + {p};
        return None;
    }

    /** `inspect_directory`: count the listing, sort it, then descend entry by entry. */
    method Inspect(t: Tree, e: ExpectedTree, d: Text, depth: nat) returns (error: Option<LocalError>)
      modifies this
      ensures match InspectDirectory(t, e, d, depth, old(View()))
              case Success(o) => error.None? && View() == o
              case Failure(f) => error == Some(f)
      decreases if depth > MAX_DIRECTORY_DEPTH then 0 else 66 - depth, 1
    {
      if depth > MAX_DIRECTORY_DEPTH {
        return Some(TraversalLimitExceeded);
      }
      var listing := Listing(Children(t, d));
      ghost var outcome := InspectDirectory(t, e, d, depth, View());
      var exceeded := CountEntries(listing);
      if exceeded {
        return Some(TraversalLimitExceeded);
      }
      var rest := listing;
      while rest != []
        invariant forall p :: p in rest ==> p in t
        invariant outcome == InspectEntries(t, e, rest, depth, View())
        decreases |rest|
      {
        error := InspectOne(t, e, rest[0], depth);
        if error.Some? {
          return;
        }
        rest := rest[1..];
      }
      return None;
    }
  }

  // ----- what an accepted walk has established

  /** The node is one the manifest tree has a place for. */
  ghost predicate Declared(t: Tree, e: ExpectedTree, p: Text)
    requires p in t
  {
    && ValidPath(p)
    && match t[p]
       case Dir => p in e.directories
       case File(bytes, links) => links == 1 && p in e.files && |bytes| <= MaximumBytesFor(e, p)
       case _ => false
  }

  ghost predicate Settled(t: Tree, e: ExpectedTree, p: Text, o: Observed)
    requires p in t
  {
    && Declared(t, e, p)
    && LowerCase(p) in o.logical && o.logical[LowerCase(p)] == p
    && (t[p].File? ==> p in o.files)
  }

  ghost predicate Grows(a: Observed, b: Observed) {
    a.files <= b.files && forall k :: k in a.logical ==> k in b.logical && b.logical[k] == a.logical[k]
  }

  /** Files recorded between `a` and `b` are files of the tree. */
  ghost predicate RecordsFiles(t: Tree, a: Observed, b: Observed) {
    forall p :: p in b.files ==> p in a.files || (p in t && t[p].File?)
  }

  lemma SettledStays(t: Tree, e: ExpectedTree, p: Text, a: Observed, b: Observed)
    requires p in t && Settled(t, e, p, a) && Grows(a, b)
    ensures Settled(t, e, p, b)
  {
  }

  ghost predicate SettledUnder(t: Tree, e: ExpectedTree, d: Text, o: Observed) {
    forall p :: p in t && Under(d, p) ==> Settled(t, e, p, o)
  }

  /** Entry `q` itself and everything below it. */
  ghost predicate ReachedThrough(q: Text, p: Text) {
    p == q || Under(q, p)
  }

  ghost predicate SettledThrough(t: Tree, e: ExpectedTree, q: Text, o: Observed) {
    forall p :: p in t && ReachedThrough(q, p) ==> Settled(t, e, p, o)
  }

  lemma SettledThroughStays(t: Tree, e: ExpectedTree, q: Text, a: Observed, b: Observed)
    requires SettledThrough(t, e, q, a) && Grows(a, b)
    ensures SettledThrough(t, e, q, b)
  {
    forall p | p in t && ReachedThrough(q, p)
      ensures Settled(t, e, p, b)
    {
      SettledStays(t, e, p, a, b);
    }
  }

  /** Every node below `d` is reached through one of its entries. */
  lemma TowardIsChild(t: Tree, d: Text, p: Text)
    requires WellFormed(t) && p in t && Under(d, p)
    ensures Toward(d, p) in Children(t, d) && ReachedThrough(Toward(d, p), p)
  {
    TowardIsNode(t, d, p);
    hide WellFormed, Toward;
    TowardIsLonger(d, Toward(d, p));
    if Toward(d, p) != p {
      AncestorIsAbove(Toward(d, p), p);
    }
  }

  lemma TowardIsNode(t: Tree, d: Text, p: Text)
    requires WellFormed(t) && p in t && Under(d, p)
    ensures var q := Toward(d, p); q in t && q != [] && q[|q| - 1] != SLASH && p[|p| - 1] != SLASH
  {
    hide Toward, Under;
  }

  lemma TowardIsLonger(d: Text, q: Text)
    requires |q| >= |Prefix(d)| && q[..|Prefix(d)|] == Prefix(d) && q != [] && q[|q| - 1] != SLASH
    ensures Under(d, q)
  {
    assert q[..|q|] == q;
  }

  lemma AncestorIsAbove(q: Text, p: Text)
    requires IsAncestor(q, p) && q != [] && p[|p| - 1] != SLASH
    ensures Under(q, p)
  {
    assert p[..|q| + 1] == p[..|q|] + [p[|q|]];
  }

  lemma ChildrenSettleDirectory(t: Tree, e: ExpectedTree, d: Text, o: Observed)
    requires WellFormed(t)
    requires forall q :: q in Children(t, d) ==> SettledThrough(t, e, q, o)
    ensures SettledUnder(t, e, d, o)
  {
    forall p | p in t && Under(d, p)
      ensures Settled(t, e, p, o)
    {
      TowardIsChild(t, d, p);
      assert SettledThrough(t, e, Toward(d, p), o);
    }
  }

  lemma EntrySettles(t: Tree, e: ExpectedTree, q: Text, o: Observed)
    requires WellFormed(t) && q in t && Settled(t, e, q, o)
    requires t[q].Dir? ==> SettledUnder(t, e, q, o)
    ensures SettledThrough(t, e, q, o)
  {
    forall p | p in t && ReachedThrough(q, p)
      ensures Settled(t, e, p, o)
    {
      if Under(q, p) {
        assert p[..|q|] == p[..|q| + 1][..|q|];
        assert IsAncestor(q, p);
      }
    }
  }

  lemma {:induction false} DirectoryCovers(t: Tree, e: ExpectedTree, d: Text, depth: nat, o: Observed)
    requires WellFormed(t) && InspectDirectory(t, e, d, depth, o).Success?
    ensures var r := InspectDirectory(t, e, d, depth, o).value;
            Grows(o, r) && RecordsFiles(t, o, r) && SettledUnder(t, e, d, r)
    decreases if depth > MAX_DIRECTORY_DEPTH then 0 else 66 - depth, 3, 0
  {
    hide WellFormed, InspectDirectory, InspectEntries, Grows, RecordsFiles, SettledThrough, SettledUnder, Children,
         Listing;
    var entries := Listing(Children(t, d));
    var counted := o.(entries := o.entries + |entries|);
    DirectoryOpens(t, e, d, depth, o);
    var r := InspectEntries(t, e, entries, depth, counted).value;
    EntriesCover(t, e, entries, depth, counted);
    CountingIsInvisible(t, o, |entries|, r);
    ChildrenSettleDirectory(t, e, d, r);
  }

  lemma DirectoryOpens(t: Tree, e: ExpectedTree, d: Text, depth: nat, o: Observed)
    requires InspectDirectory(t, e, d, depth, o).Success?
    ensures var entries := Listing(Children(t, d));
            && depth <= MAX_DIRECTORY_DEPTH && (forall p :: p in entries ==> p in t)
            && (forall p :: p in Children(t, d) <==> p in entries)
            && InspectDirectory(t, e, d, depth, o)
               == InspectEntries(t, e, entries, depth, o.(entries := o.entries + |entries|))
  {
    hide InspectEntries, IsChild;
  }

  lemma CountingIsInvisible(t: Tree, o: Observed, n: nat, r: Observed)
    requires Grows(o.(entries := o.entries + n), r) && RecordsFiles(t, o.(entries := o.entries + n), r)
    ensures Grows(o, r) && RecordsFiles(t, o, r)
  {
  }

  lemma {:induction false} EntriesCover(t: Tree, e: ExpectedTree, entries: seq<Text>, depth: nat, o: Observed)
    requires WellFormed(t) && depth <= MAX_DIRECTORY_DEPTH
    requires forall p :: p in entries ==> p in t
    requires InspectEntries(t, e, entries, depth, o).Success?
    ensures var r := InspectEntries(t, e, entries, depth, o).value;
            && Grows(o, r) && RecordsFiles(t, o, r)
            && forall q :: q in entries ==> SettledThrough(t, e, q, r)
    decreases 66 - depth, 2, |entries|
  {
    if entries != [] {
      EntryCovers(t, e, entries[0], depth, o);
      var next := InspectEntry(t, e, entries[0], depth, o).value;
      EntriesCover(t, e, entries[1..], depth, next);
      SettledThroughStays(t, e, entries[0], next, InspectEntries(t, e, entries, depth, o).value);
    }
  }

  lemma {:induction false} EntryCovers(t: Tree, e: ExpectedTree, q: Text, depth: nat, o: Observed)
    requires WellFormed(t) && depth <= MAX_DIRECTORY_DEPTH && q in t
    requires InspectEntry(t, e, q, depth, o).Success?
    ensures var r := InspectEntry(t, e, q, depth, o).value;
            Grows(o, r) && RecordsFiles(t, o, r) && SettledThrough(t, e, q, r)
    decreases 66 - depth, 1, 0
  {
    hide WellFormed, InspectEntry, InspectDirectory, Grows, RecordsFiles, SettledThrough, SettledUnder, Settled,
         RecordLogicalPath, ValidPath;
    EntryOpens(t, e, q, depth, o);
    var recorded := RecordLogicalPath(o, q).value;
    var r := InspectEntry(t, e, q, depth, o).value;
    RecordedGrows(o, q);
    if t[q].Dir? {
      DirectoryCovers(t, e, q, depth + 1, recorded);
      EntrySettled(t, e, q, o, recorded, r);
    } else {
      FileGrows(t, q, recorded);
      EntrySettled(t, e, q, o, recorded, r);
    }
    EntrySettles(t, e, q, r);
  }

  /** What has to be true of an entry the walk went past. */
  lemma EntryOpens(t: Tree, e: ExpectedTree, q: Text, depth: nat, o: Observed)
    requires depth <= MAX_DIRECTORY_DEPTH && q in t && InspectEntry(t, e, q, depth, o).Success?
    ensures Declared(t, e, q) && RecordLogicalPath(o, q).Success?
    ensures var recorded := RecordLogicalPath(o, q).value;
            InspectEntry(t, e, q, depth, o) ==
            if t[q].Dir? then InspectDirectory(t, e, q, depth + 1, recorded)
            else Success(recorded.(files := recorded.files + {q}))
  {
    hide InspectDirectory, RecordLogicalPath, ValidPath;
  }

  lemma RecordedGrows(o: Observed, p: Text)
    requires RecordLogicalPath(o, p).Success?
    ensures var recorded := RecordLogicalPath(o, p).value;
            && Grows(o, recorded) && recorded.files == o.files
            && LowerCase(p) in recorded.logical && recorded.logical[LowerCase(p)] == p
  {
  }

  lemma FileGrows(t: Tree, q: Text, o: Observed)
    requires q in t && t[q].File?
    ensures Grows(o, o.(files := o.files + {q})) && RecordsFiles(t, o, o.(files := o.files + {q}))
  {
  }

  lemma EntrySettled(t: Tree, e: ExpectedTree, q: Text, o: Observed, recorded: Observed, r: Observed)
    requires q in t && Declared(t, e, q) && Grows(o, recorded) && recorded.files == o.files
    requires LowerCase(q) in recorded.logical && recorded.logical[LowerCase(q)] == q
    requires Grows(recorded, r) && RecordsFiles(t, recorded, r) && (t[q].File? ==> q in r.files)
    ensures Grows(o, r) && RecordsFiles(t, o, r) && Settled(t, e, q, r)
  {
    hide Declared;
  }

  /** The tree is exactly the declared one: every declared file, its directories, and nothing else. */
  ghost predicate ExactTree(t: Tree, e: ExpectedTree) {
    && t.Keys == e.files + e.directories
    && (forall p :: p in e.files ==> t[p].File? && t[p].links == 1 && |t[p].bytes| <= MaximumBytesFor(e, p))
    && (forall p :: p in e.directories ==> t[p].Dir?)
    && (forall p, q :: p in t && q in t && LowerCase(p) == LowerCase(q) ==> p == q)
  }

  /** Scanning plus the presence checks accept only the exact declared tree. */
  lemma WalkAcceptsExactTree(t: Tree, m: BundleManifest, allowed: Option<(Text, nat)>)
    requires WellFormed(t) && Expect(m, allowed).Success?
    requires InspectDirectory(t, Expect(m, allowed).value, [], 0, NOTHING_OBSERVED).Success?
    requires Expect(m, allowed).value.files <=
             InspectDirectory(t, Expect(m, allowed).value, [], 0, NOTHING_OBSERVED).value.files
    ensures ExactTree(t, Expect(m, allowed).value)
  {
    hide InspectDirectory, WellFormed, Grows, Split, ValidPath, LowerCase, MaximumBytesFor;
    var e := Expect(m, allowed).value;
    var r := InspectDirectory(t, e, [], 0, NOTHING_OBSERVED).value;
    DirectoryCovers(t, e, [], 0, NOTHING_OBSERVED);
    NamesAreUnderRoot(t);
    forall p | p in t
      ensures Settled(t, e, p, r)
    {
      assert Under([], p);
    }
    SettledIsExact(t, m, allowed, r);
  }

  lemma NamesAreUnderRoot(t: Tree)
    requires WellFormed(t)
    ensures forall p :: p in t ==> Under([], p)
  {
  }

  lemma DirectoriesAreThere(t: Tree, m: BundleManifest, allowed: Option<(Text, nat)>, r: Observed)
    requires WellFormed(t) && Expect(m, allowed).Success?
    requires RecordsFiles(t, NOTHING_OBSERVED, r) && Expect(m, allowed).value.files <= r.files
    ensures forall p :: p in Expect(m, allowed).value.directories ==> p in t && t[p].Dir?
  {
    hide Split, DirectoriesOf, Ancestors;
    var e := Expect(m, allowed).value;
    forall p | p in e.directories
      ensures p in t && t[p].Dir?
    {
      var f :| f in e.files && p in Ancestors(f);
      assert f in t && IsAncestor(p, f);
    }
  }

  lemma SettledKeysDiffer(t: Tree, e: ExpectedTree, r: Observed)
    requires forall p :: p in t ==> Settled(t, e, p, r)
    ensures forall p, q :: p in t && q in t && LowerCase(p) == LowerCase(q) ==> p == q
  {
    hide ValidPath, LowerCase, MaximumBytesFor, Declared;
    forall p, q | p in t && q in t && LowerCase(p) == LowerCase(q)
      ensures p == q
    {
      assert Settled(t, e, p, r) && Settled(t, e, q, r);
    }
  }

  lemma SettledIsExact(t: Tree, m: BundleManifest, allowed: Option<(Text, nat)>, r: Observed)
    requires WellFormed(t) && Expect(m, allowed).Success?
    requires RecordsFiles(t, NOTHING_OBSERVED, r) && Expect(m, allowed).value.files <= r.files
    requires forall p :: p in t ==> Settled(t, Expect(m, allowed).value, p, r)
    ensures ExactTree(t, Expect(m, allowed).value)
  {
    hide ValidPath, LowerCase, MaximumBytesFor, Expect, WellFormed;
    var e := Expect(m, allowed).value;
    DirectoriesAreThere(t, m, allowed, r);
    SettledKeysDiffer(t, e, r);
    forall p | p in t
      ensures p in e.files + e.directories && (t[p].Dir? ==> p in e.directories) && (t[p].File? ==> p in e.files)
    {
      assert Settled(t, e, p, r);
    }
    assert t.Keys == e.files + e.directories;
  }

  // ----- loading

  /** The non-directory ancestor a path-wise reopen stops at, scanning components left to right. */
  function ComponentError(t: Tree, p: Text, i: nat): Option<LocalError>
    requires i <= |p|
    decreases |p| - i
  {
    if i == |p| then None
    else if p[i] != SLASH then ComponentError(t, p, i + 1)
    else if p[..i] !in t then Some(MissingDeclaredFile(p))
    else match t[p[..i]]
      case Dir => ComponentError(t, p, i + 1)
      case SymbolicLink => Some(LinkProhibited(p))
      case ForeignDevice => Some(DeviceBoundary)
      case _ => Some(NonRegularFile(p))
  }

  /** `read_declared_file` on an unchanging tree. */
  function ReadDeclared(t: Tree, p: Text, maximum: nat): Result<Text, LocalError> {
    if |Split(p)| > MAX_DIRECTORY_DEPTH + 1 then Failure(TraversalLimitExceeded)
    else if ComponentError(t, p, 0).Some? then Failure(ComponentError(t, p, 0).value)
    else if p !in t then Failure(MissingDeclaredFile(p))
    else match t[p]
      case File(bytes, links) =>
        if links != 1 then Failure(HardLinkedFile(p))
        else if |bytes| > maximum then Failure(LocalError.FileTooLarge(p))
        else Success(bytes)
      case ForeignDevice => Failure(DeviceBoundary)
      case _ => Failure(NonRegularFile(p))
  }

  function FirstMissing(files: seq<BundleFile>, observed: set<Text>): Option<Text> {
    if files == [] then None
    else if files[0].path !in observed then Some(files[0].path)
    else FirstMissing(files[1..], observed)
  }

  function ReadAll(t: Tree, files: seq<BundleFile>): Result<seq<CandidateFile>, LocalError> {
    if files == [] then Success([])
    else
      var bytes :- ReadDeclared(t, files[0].path, MAX_BUNDLE_FILE_BYTES);
      var rest :- ReadAll(t, files[1..]);
      Success([CandidateFile(files[0].path, bytes)] + rest)
  }

  /** Inspection up to the presence checks: everything `load_candidate` does before it reads. */
  function InspectTree(t: Tree, m: BundleManifest, allowed: Option<(Text, nat)>): Result<Observed, LocalError> {
    var expected :- Expect(m, allowed);
    var observed :- InspectDirectory(t, expected, [], 0, NOTHING_OBSERVED);
    var missing := FirstMissing(m.files, observed.files);
    if missing.Some? then Failure(MissingDeclaredFile(missing.value))
    else if allowed.Some? && allowed.value.0 !in observed.files then Failure(MissingDeclaredFile(allowed.value.0))
    else Success(observed)
  }

  function Load(t: Tree, m: BundleManifest, allowed: Option<(Text, nat)>): Result<seq<CandidateFile>, LocalError> {
    var _ :- InspectTree(t, m, allowed);
    ReadAll(t, m.files)
  }

  lemma {:induction false} FirstMissingFinds(files: seq<BundleFile>, observed: set<Text>)
    ensures FirstMissing(files, observed).None? <==> FilePaths(files) <= observed
  {
    if files != [] {
      FirstMissingFinds(files[1..], observed);
      assert files == [files[0]] + files[1..];
      forall p
        ensures p in FilePaths(files) <==> p == files[0].path || p in FilePaths(files[1..])
      {
        if p in FilePaths(files) {
          var i :| 0 <= i < |files| && files[i].path == p;
          if i > 0 {
            assert files[1..][i - 1].path == p;
          }
        }
        if p in FilePaths(files[1..]) {
          var i :| 0 <= i < |files[1..]| && files[1..][i].path == p;
          assert files[i + 1].path == p;
        }
      }
      assert files[0].path in FilePaths(files);
    }
  }

  lemma InspectedTreeIsExact(t: Tree, m: BundleManifest, allowed: Option<(Text, nat)>)
    requires WellFormed(t) && InspectTree(t, m, allowed).Success?
    ensures Expect(m, allowed).Success? && ExactTree(t, Expect(m, allowed).value)
  {
    var e := Expect(m, allowed).value;
    FirstMissingFinds(m.files, InspectDirectory(t, e, [], 0, NOTHING_OBSERVED).value.files);
    WalkAcceptsExactTree(t, m, allowed);
  }

  lemma {:induction false} NoComponentError(t: Tree, p: Text, i: nat)
    requires i <= |p|
    requires forall a :: IsAncestor(a, p) ==> a in t && t[a].Dir?
    ensures ComponentError(t, p, i).None?
    decreases |p| - i
  {
    if i < |p| {
      if p[i] == SLASH {
        assert IsAncestor(p[..i], p);
      }
      NoComponentError(t, p, i + 1);
    }
  }

  /** In an exact tree every declared file reads back as the node's own bytes. */
  lemma ExactTreeReads(t: Tree, m: BundleManifest, allowed: Option<(Text, nat)>, p: Text, maximum: nat)
    requires WellFormed(t) && Expect(m, allowed).Success? && ExactTree(t, Expect(m, allowed).value)
    requires p in Expect(m, allowed).value.files && MaximumBytesFor(Expect(m, allowed).value, p) <= maximum
    ensures ReadDeclared(t, p, maximum) == Success(t[p].bytes)
  {
    assert p in t && t[p].File?;
    NoComponentError(t, p, 0);
  }

  ghost predicate ReadsBack(t: Tree, f: BundleFile) {
    && f.path in t && t[f.path].File? && |t[f.path].bytes| <= MAX_BUNDLE_FILE_BYTES
    && ReadDeclared(t, f.path, MAX_BUNDLE_FILE_BYTES) == Success(t[f.path].bytes)
  }

  lemma {:induction false} ReadAllReads(t: Tree, files: seq<BundleFile>)
    requires forall f :: f in files ==> ReadsBack(t, f)
    ensures ReadAll(t, files).Success? && |ReadAll(t, files).value| == |files|
    ensures forall i :: 0 <= i < |files| ==>
              files[i].path in t && t[files[i].path].File?
              && ReadAll(t, files).value[i] == CandidateFile(files[i].path, t[files[i].path].bytes)
              && |t[files[i].path].bytes| <= MAX_BUNDLE_FILE_BYTES
  {
    if files != [] {
      assert ReadsBack(t, files[0]);
      ReadAllReads(t, files[1..]);
    }
  }

  /**
   What a successful load delivers: the tree was exactly the declared one, and
   the candidates are its files' bytes, once each, in manifest order.
   */
  lemma LoadDelivers(t: Tree, m: BundleManifest, allowed: Option<(Text, nat)>)
    requires WellFormed(t)
    requires allowed.None? || allowed.value.0 !in Paths(m)
    ensures Load(t, m, allowed).Success? <==> InspectTree(t, m, allowed).Success?
    ensures Load(t, m, allowed).Success? ==>
              var cs := Load(t, m, allowed).value;
              && Expect(m, allowed).Success? && ExactTree(t, Expect(m, allowed).value)
              && |cs| == |m.files|
              && forall i :: 0 <= i < |cs| ==>
                   m.files[i].path in t && t[m.files[i].path].File?
                   && cs[i] == CandidateFile(m.files[i].path, t[m.files[i].path].bytes)
                   && |cs[i].bytes| <= MAX_BUNDLE_FILE_BYTES
  {
    if InspectTree(t, m, allowed).Success? {
      InspectedTreeIsExact(t, m, allowed);
      forall f | f in m.files
        ensures ReadsBack(t, f)
      {
        MemberPath(m.files, f);
        ExactTreeReads(t, m, allowed, f.path, MAX_BUNDLE_FILE_BYTES);
      }
      ReadAllReads(t, m.files);
    }
  }

  method FindMissing(files: seq<BundleFile>, observed: set<Text>) returns (missing: Option<Text>)
    ensures missing == FirstMissing(files, observed)
  {
    var rest := files;
    while rest != []
      invariant FirstMissing(files, observed) == FirstMissing(rest, observed)
      decreases |rest|
    {
      if rest[0].path !in observed {
        return Some(rest[0].path);
      }
      rest := rest[1..];
    }
    return None;
  }

  ghost function Onto(done: seq<CandidateFile>, r: Result<seq<CandidateFile>, LocalError>)
    : Result<seq<CandidateFile>, LocalError>
  {
    match r case Success(rest) => Success(done + rest) case Failure(f) => Failure(f)
  }

  lemma OntoAppends(done: seq<CandidateFile>, c: CandidateFile, r: Result<seq<CandidateFile>, LocalError>)
    ensures Onto(done + [c], r) == Onto(done, Onto([c], r))
  {
    if r.Success? {
      assert done + [c] + r.value == done + ([c] + r.value);
    }
  }

  /** `validate_components`: every directory on the way, left to right. */
  method ValidateComponents(t: Tree, p: Text) returns (error: Option<LocalError>)
    ensures error == ComponentError(t, p, 0)
  {
    for i := 0 to |p|
      invariant ComponentError(t, p, 0) == ComponentError(t, p, i)
    {
      if p[i] == SLASH {
        if p[..i] !in t {
          return Some(MissingDeclaredFile(p));
        }
        if t[p[..i]].SymbolicLink? {
          return Some(LinkProhibited(p));
        }
        if t[p[..i]].ForeignDevice? {
          return Some(DeviceBoundary);
        }
        if !t[p[..i]].Dir? {
          return Some(NonRegularFile(p));
        }
      }
    }
    return None;
  }

  /** `read_declared_file`. */
  method ReadDeclaredFile(t: Tree, p: Text, maximum: nat) returns (r: Result<Text, LocalError>)
    ensures r == ReadDeclared(t, p, maximum)
  {
    hide ComponentError, Split;
    if |Split(p)| > 65 {
      return Failure(TraversalLimitExceeded);
    }
    var blocked := ValidateComponents(t, p);
    if blocked.Some? {
      return Failure(blocked.value);
    }
    if p !in t {
      return Failure(MissingDeclaredFile(p));
    }
    var node := t[p];
    if node.ForeignDevice? {
      return Failure(DeviceBoundary);
    }
    if !node.File? {
      return Failure(NonRegularFile(p));
    }
    if node.links != 1 {
      return Failure(HardLinkedFile(p));
    }
    return if |node.bytes| > maximum then Failure(LocalError.FileTooLarge(p)) else Success(node.bytes);
  }

  method ReadFiles(t: Tree, files: seq<BundleFile>) returns (r: Result<seq<CandidateFile>, LocalError>)
    ensures r == ReadAll(t, files)
  {
    var candidates: seq<CandidateFile> := [];
    var rest := files;
    assert ReadAll(t, files) == Onto([], ReadAll(t, files)) by {
      if ReadAll(t, files).Success? {
        assert [] + ReadAll(t, files).value == ReadAll(t, files).value;
      }
    }
    while rest != []
      invariant ReadAll(t, files) == Onto(candidates, ReadAll(t, rest))
      decreases |rest|
    {
      var bytes := ReadDeclaredFile(t, rest[0].path, MAX_BUNDLE_FILE_BYTES);
      if bytes.Failure? {
        return Failure(bytes.error);
      }
      OntoAppends(candidates, CandidateFile(rest[0].path, bytes.value), ReadAll(t, rest[1..]));
      candidates := candidates + [CandidateFile(rest[0].path, bytes.value)];
      rest := rest[1..];
    }
    assert candidates + [] == candidates;
    return Success(candidates);
  }

  /** `load_candidate`: expect, inspect, check presence, then read in manifest order. */
  method LoadCandidate(t: Tree, m: BundleManifest, allowed: Option<(Text, nat)>)
    returns (r: Result<seq<CandidateFile>, LocalError>)
    ensures r == Load(t, m, allowed)
  {
    var expected := FromManifest(m, allowed);
    if expected.Failure? {
      return Failure(expected.error);
    }
    var observed := new ObservedTree();
    var error := observed.Inspect(t, expected.value, [], 0);
    if error.Some? {
      return Failure(error.value);
    }
    var missing := FindMissing(m.files, observed.files);
    if missing.Some? {
      return Failure(MissingDeclaredFile(missing.value));
    }
    if allowed.Some? && allowed.value.0 !in observed.files {
      return Failure(MissingDeclaredFile(allowed.value.0));
    }
    r := ReadFiles(t, m.files);
  }
}
