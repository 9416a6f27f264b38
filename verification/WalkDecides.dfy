/** Exactly which trees the directory walk accepts: both directions, limits included. */
module WalkDecides {
  import opened Bytes
  import opened Sorting
  import opened Distribution
  import opened Directory

  // ----- nodes below a directory

  function Below(t: Tree, d: Text): set<Text> {
    set p | p in t && Under(d, p)
  }

  function BelowAny(t: Tree, entries: seq<Text>): set<Text> {
    set p, i | p in t && 0 <= i < |entries| && Under(entries[i], p) :: p
  }

  /** Number of components of a directory path; the root has none. */
  function Level(d: Text): nat {
    if d == [] then 0 else |Split(d)|
  }

  lemma {:induction false} SplitWithoutSlash(t: Text)
    requires SLASH !in t
    ensures Split(t) == [t]
  {
    if t != [] {
      SplitWithoutSlash(t[1..]);
      assert t == [t[0]] + t[1..];
    }
  }

  lemma ChildLevel(d: Text, q: Text)
    requires IsChild(d, q)
    ensures |Split(q)| == Level(d) + 1
  {
    if d == [] {
      assert q[0..] == q;
      SplitWithoutSlash(q);
    } else {
      var name := q[|d| + 1..];
      assert q == d + [SLASH] + name;
      SplitAtSlash(d, name);
      SplitWithoutSlash(name);
    }
  }

  lemma UnderIsAncestor(q: Text, p: Text)
    requires Under(q, p) && q != []
    ensures IsAncestor(q, p)
  {
    assert p[..|q| + 1] == q + [SLASH];
    assert p[..|q|] == p[..|q| + 1][..|q|];
    assert p[|q|] == p[..|q| + 1][|q|];
  }

  /** No entry of a directory lies above another one. */
  lemma EntryNotAbove(d: Text, q: Text, p: Text)
    requires IsChild(d, q) && IsChild(d, p)
    ensures !IsAncestor(q, p)
  {
    var n := |Prefix(d)|;
    assert |q| < |p| ==> p[n..][|q| - n] == p[|q|];
  }

  /** Two entries of one directory have nothing below them in common, and neither lies below the other. */
  lemma SiblingsAreApart(d: Text, a: Text, b: Text, p: Text)
    requires IsChild(d, a) && IsChild(d, b) && a != b && a != [] && b != []
    requires Under(a, p)
    ensures !Under(b, p) && p != b
  {
    hide IsAncestor, IsChild, Under;
    UnderIsAncestor(a, p);
    EntryNotAbove(d, a, b);
    EntryNotAbove(d, b, a);
    if Under(b, p) {
      UnderIsAncestor(b, p);
      OneLengthOneAncestor(a, b, p);
      if |a| < |b| {
        AncestorsAreChained(a, b, p);
      } else {
        AncestorsAreChained(b, a, p);
      }
    }
  }

  lemma OneLengthOneAncestor(a: Text, b: Text, p: Text)
    requires IsAncestor(a, p) && IsAncestor(b, p) && a != b
    ensures |a| != |b|
  {
  }

  lemma {:induction false} ListingSize(s: set<Text>)
    ensures |Listing(s)| == |s|
  {
    if s != {} {
      ListingSize(s - {Least(s)});
    }
  }

  // ----- the decision

  /** Every node is declared as what it is, shallow enough, and no two paths differ in case only. */
  ghost predicate Clean(t: Tree, e: ExpectedTree) {
    && WellFormed(t)
    && (forall p :: p in t ==> Declared(t, e, p))
    && (forall p, q :: p in t && q in t && LowerCase(p) == LowerCase(q) ==> p == q)
    && (forall p :: p in t && t[p].Dir? ==> |Split(p)| <= MAX_DIRECTORY_DEPTH)
  }

  /** Everything recorded so far is a node of the tree under its own key. */
  ghost predicate LogicalOk(t: Tree, o: Observed) {
    forall k :: k in o.logical ==> o.logical[k] in t && LowerCase(o.logical[k]) == k
  }

  function FileNodes(t: Tree, s: set<Text>): set<Text> {
    set p | p in s && p in t && t[p].File?
  }

  /** The walk gets past `more` further nodes. */
  predicate Affordable(o: Observed, more: nat) {
    more == 0 || o.entries + more <= MAX_VISIBLE_ENTRIES
  }

  ghost predicate Walked(t: Tree, o: Observed, r: Observed, counted: nat, reached: set<Text>) {
    && r.entries == o.entries + counted && LogicalOk(t, r)
    && r.files == o.files + FileNodes(t, reached)
  }

  /** Siblings in a listing. */
  ghost predicate Siblings(t: Tree, d: Text, entries: seq<Text>) {
    && (forall i :: 0 <= i < |entries| ==> entries[i] in t && IsChild(d, entries[i]))
    && (forall i, j :: 0 <= i < j < |entries| ==> entries[i] != entries[j])
  }

  lemma RecordSucceeds(t: Tree, e: ExpectedTree, q: Text, o: Observed)
    requires Clean(t, e) && LogicalOk(t, o) && q in t
    ensures RecordLogicalPath(o, q).Success?
    ensures var r := RecordLogicalPath(o, q).value;
            LogicalOk(t, r) && r.files == o.files && r.entries == o.entries
  {
    hide Declared, WellFormed;
  }

  lemma FileHasNothingBelow(t: Tree, q: Text)
    requires WellFormed(t) && q in t && !t[q].Dir?
    ensures Below(t, q) == {}
  {
    forall p | p in t
      ensures !Under(q, p)
    {
      if Under(q, p) {
        UnderIsAncestor(q, p);
      }
    }
  }

  lemma CleanEntry(t: Tree, e: ExpectedTree, q: Text)
    requires Clean(t, e) && q in t
    ensures WellFormed(t) && ValidPath(q) && q != [] && (t[q].Dir? || t[q].File?)
    ensures t[q].Dir? ==> q in e.directories && |Split(q)| <= MAX_DIRECTORY_DEPTH
    ensures t[q].File? ==> t[q].links == 1 && q in e.files && |t[q].bytes| <= MaximumBytesFor(e, q)
  {
    hide ValidPath;
    assert Declared(t, e, q);
  }

  lemma {:induction false} EntryDecides(t: Tree, e: ExpectedTree, q: Text, depth: nat, o: Observed)
    requires Clean(t, e) && LogicalOk(t, o) && q in t && depth <= MAX_DIRECTORY_DEPTH && |Split(q)| == depth + 1
    ensures var r := InspectEntry(t, e, q, depth, o);
            && (r.Success? <==> Affordable(o, |Below(t, q)|))
            && (r.Success? ==> Walked(t, o, r.value, |Below(t, q)|, {q} + Below(t, q)))
    decreases 66 - depth, 1, 0
  {
    hide Clean, LogicalOk, RecordLogicalPath, Split, ValidPath, WellFormed, InspectDirectory, Below;
    CleanEntry(t, e, q);
    RecordSucceeds(t, e, q, o);
    var recorded := RecordLogicalPath(o, q).value;
    if t[q].Dir? {
      DirectoryDecides(t, e, q, depth + 1, recorded);
      DirectoryIsNoFile(t, q, Below(t, q));
    } else {
      FileHasNothingBelow(t, q);
      OneFile(t, q);
      FilesKeepLogical(t, recorded, {q});
    }
  }

  lemma FilesKeepLogical(t: Tree, o: Observed, more: set<Text>)
    requires LogicalOk(t, o)
    ensures LogicalOk(t, o.(files := o.files + more))
  {
  }

  lemma DirectoryIsNoFile(t: Tree, q: Text, s: set<Text>)
    requires q in t && t[q].Dir?
    ensures FileNodes(t, {q} + s) == FileNodes(t, s)
  {
  }

  lemma OneFile(t: Tree, q: Text)
    requires q in t && t[q].File?
    ensures FileNodes(t, {q} + {}) == {q}
  {
  }

  lemma BelowAnySplits(t: Tree, d: Text, entries: seq<Text>)
    requires Siblings(t, d, entries) && entries != [] && forall i :: 0 <= i < |entries| ==> entries[i] != []
    ensures BelowAny(t, entries) == Below(t, entries[0]) + BelowAny(t, entries[1..])
    ensures |BelowAny(t, entries)| == |Below(t, entries[0])| + |BelowAny(t, entries[1..])|
    ensures Siblings(t, d, entries[1..])
  {
    hide IsChild, Under;
    assert forall i :: 0 <= i < |entries[1..]| ==> entries[1..][i] == entries[i + 1];
    BelowAnyUnion(t, entries);
    BelowAnyApart(t, d, entries);
    hide Below, BelowAny;
  }

  lemma BelowAnyUnion(t: Tree, entries: seq<Text>)
    requires entries != []
    ensures BelowAny(t, entries) == Below(t, entries[0]) + BelowAny(t, entries[1..])
  {
    hide Under;
    var rest := entries[1..];
    forall p
      ensures p in BelowAny(t, entries) <==> p in Below(t, entries[0]) || p in BelowAny(t, rest)
    {
      if p in BelowAny(t, entries) {
        var i :| 0 <= i < |entries| && Under(entries[i], p);
        if i > 0 {
          assert Under(rest[i - 1], p);
        }
      }
      if p in BelowAny(t, rest) {
        var i :| 0 <= i < |rest| && Under(rest[i], p);
        assert Under(entries[i + 1], p);
      }
    }
  }

  lemma BelowAnyApart(t: Tree, d: Text, entries: seq<Text>)
    requires Siblings(t, d, entries) && entries != [] && forall i :: 0 <= i < |entries| ==> entries[i] != []
    ensures Below(t, entries[0]) !! BelowAny(t, entries[1..])
  {
    hide IsChild, Under;
    forall p | p in Below(t, entries[0])
      ensures p !in BelowAny(t, entries[1..])
    {
      forall i | 0 <= i < |entries[1..]|
        ensures !Under(entries[1..][i], p)
      {
        SiblingsAreApart(d, entries[0], entries[i + 1], p);
      }
    }
  }

  function Members(entries: seq<Text>): set<Text> {
    set i | 0 <= i < |entries| :: entries[i]
  }

  lemma ReachedSplits(t: Tree, entries: seq<Text>, below: set<Text>, more: set<Text>)
    requires entries != []
    ensures FileNodes(t, Members(entries) + (below + more))
            == FileNodes(t, {entries[0]} + below) + FileNodes(t, Members(entries[1..]) + more)
  {
    assert Members(entries) == {entries[0]} + Members(entries[1..]) by {
      forall p
        ensures p in Members(entries) <==> p in {entries[0]} + Members(entries[1..])
      {
        if p in Members(entries) && p != entries[0] {
          var i :| 0 <= i < |entries| && entries[i] == p;
          assert entries[1..][i - 1] == p;
        }
        if p in Members(entries[1..]) {
          var i :| 0 <= i < |entries[1..]| && entries[1..][i] == p;
          assert entries[i + 1] == p;
        }
      }
    }
    hide Members;
  }

  lemma {:induction false} EntriesDecide(t: Tree, e: ExpectedTree, d: Text, entries: seq<Text>, depth: nat, o: Observed)
    requires Clean(t, e) && LogicalOk(t, o) && depth <= MAX_DIRECTORY_DEPTH && Siblings(t, d, entries)
    requires Level(d) == depth && forall p :: p in entries ==> p in t
    ensures var r := InspectEntries(t, e, entries, depth, o);
            && (r.Success? <==> Affordable(o, |BelowAny(t, entries)|))
            && (r.Success? ==> Walked(t, o, r.value, |BelowAny(t, entries)|, Members(entries) + BelowAny(t, entries)))
    decreases 66 - depth, 2, |entries|
  {
    hide Clean, LogicalOk, InspectEntry, Below, BelowAny, FileNodes, Members, IsChild, Level, Walked, Affordable,
         Siblings;
    if entries == [] {
      NothingWalked(t, entries, o);
    } else {
      NonEmptyNames(t, e, entries);
      SiblingsAreChildren(t, d, entries);
      BelowAnySplits(t, d, entries);
      ChildLevel(d, entries[0]);
      EntryDecides(t, e, entries[0], depth, o);
      var a, b := |Below(t, entries[0])|, |BelowAny(t, entries[1..])|;
      var first := InspectEntry(t, e, entries[0], depth, o);
      AffordableSplits(o, a, b);
      if first.Success? {
        WalkedFacts(t, o, first.value, a, {entries[0]} + Below(t, entries[0]));
        SiblingsInTree(t, d, entries[1..]);
        EntriesDecide(t, e, d, entries[1..], depth, first.value);
        var rest := InspectEntries(t, e, entries[1..], depth, first.value);
        AffordableLater(o, first.value, a, b);
        if rest.Success? {
          ReachedSplits(t, entries, Below(t, entries[0]), BelowAny(t, entries[1..]));
          WalkedOn(t, o, first.value, rest.value, a, b, {entries[0]} + Below(t, entries[0]),
                   Members(entries[1..]) + BelowAny(t, entries[1..]), Members(entries) + BelowAny(t, entries));
        }
      }
    }
  }

  lemma NothingWalked(t: Tree, entries: seq<Text>, o: Observed)
    requires LogicalOk(t, o) && entries == []
    ensures Affordable(o, |BelowAny(t, entries)|)
    ensures Walked(t, o, o, |BelowAny(t, entries)|, Members(entries) + BelowAny(t, entries))
  {
    assert BelowAny(t, entries) == {} && Members(entries) + BelowAny(t, entries) == {};
  }

  lemma SiblingsAreChildren(t: Tree, d: Text, entries: seq<Text>)
    requires Siblings(t, d, entries) && entries != []
    ensures entries[0] in t && IsChild(d, entries[0])
  {
  }

  lemma AffordableSplits(o: Observed, a: nat, b: nat)
    ensures Affordable(o, a + b) ==> Affordable(o, a)
  {
  }

  lemma AffordableLater(o: Observed, first: Observed, a: nat, b: nat)
    requires first.entries == o.entries + a && Affordable(o, a)
    ensures Affordable(o, a + b) <==> Affordable(first, b)
  {
  }

  lemma WalkedFacts(t: Tree, o: Observed, r: Observed, counted: nat, reached: set<Text>)
    requires Walked(t, o, r, counted, reached)
    ensures r.entries == o.entries + counted && LogicalOk(t, r)
  {
  }

  lemma WalkedOn(t: Tree, o: Observed, mid: Observed, r: Observed, a: nat, b: nat,
                 first: set<Text>, second: set<Text>, all: set<Text>)
    requires Walked(t, o, mid, a, first) && Walked(t, mid, r, b, second)
    requires FileNodes(t, all) == FileNodes(t, first) + FileNodes(t, second)
    ensures Walked(t, o, r, a + b, all)
  {
    hide FileNodes, LogicalOk;
  }

  lemma NonEmptyNames(t: Tree, e: ExpectedTree, entries: seq<Text>)
    requires Clean(t, e) && forall p :: p in entries ==> p in t
    ensures forall i :: 0 <= i < |entries| ==> entries[i] != []
  {
    hide Declared;
  }

  lemma ChildrenAreSiblings(t: Tree, d: Text)
    ensures Siblings(t, d, Listing(Children(t, d))) && Members(Listing(Children(t, d))) == Children(t, d)
    ensures |Listing(Children(t, d))| == |Children(t, d)|
  {
    var entries := Listing(Children(t, d));
    ListingSize(Children(t, d));
    forall i | 0 <= i < |entries|
      ensures entries[i] in t && IsChild(d, entries[i])
    {
      assert entries[i] in entries;
    }
    forall i, j | 0 <= i < j < |entries|
      ensures entries[i] != entries[j]
    {
      BeforeIrreflexive(entries[i]);
    }
    forall p
      ensures p in Members(entries) <==> p in Children(t, d)
    {
    }
  }

  lemma BelowSplits(t: Tree, d: Text)
    requires WellFormed(t)
    ensures var any := BelowAny(t, Listing(Children(t, d)));
            Below(t, d) == Children(t, d) + any && |Below(t, d)| == |Children(t, d)| + |any|
  {
    hide WellFormed, IsChild, Below, BelowAny, Children, Listing;
    BelowIsReached(t, d);
    ChildrenAreApart(t, d);
  }

  lemma BelowIsReached(t: Tree, d: Text)
    requires WellFormed(t)
    ensures Below(t, d) == Children(t, d) + BelowAny(t, Listing(Children(t, d)))
  {
    hide WellFormed, IsChild, Toward, Under, Listing;
    var entries := Listing(Children(t, d));
    ChildrenAreSiblings(t, d);
    hide Children;
    forall p
      ensures p in Below(t, d) <==> p in Children(t, d) || p in BelowAny(t, entries)
    {
      if p in Below(t, d) {
        ReachedThroughChild(t, d, p);
      }
      if p in Children(t, d) {
        ChildIsUnder(t, d, p);
      }
      if p in BelowAny(t, entries) {
        var i :| 0 <= i < |entries| && Under(entries[i], p);
        UnderChild(d, entries[i], p);
      }
    }
  }

  lemma ReachedThroughChild(t: Tree, d: Text, p: Text)
    requires WellFormed(t) && p in Below(t, d)
    ensures p in Children(t, d) || p in BelowAny(t, Listing(Children(t, d)))
  {
    hide WellFormed, IsChild, Toward, Listing, Prefix;
    TowardIsChild(t, d, p);
    var entries := Listing(Children(t, d));
    assert Toward(d, p) in entries;
    var i :| 0 <= i < |entries| && entries[i] == Toward(d, p);
  }

  lemma ChildrenAreApart(t: Tree, d: Text)
    ensures Children(t, d) !! BelowAny(t, Listing(Children(t, d)))
  {
    hide IsChild, Under, Listing;
    var entries := Listing(Children(t, d));
    ChildrenAreSiblings(t, d);
    forall p | p in Children(t, d)
      ensures p !in BelowAny(t, entries)
    {
      forall i | 0 <= i < |entries|
        ensures !Under(entries[i], p)
      {
        ChildIsNotBelow(d, entries[i], p);
      }
    }
  }

  lemma ChildIsUnder(t: Tree, d: Text, p: Text)
    requires p in Children(t, d)
    ensures p in t && Under(d, p)
  {
  }

  lemma UnderChild(d: Text, q: Text, p: Text)
    requires IsChild(d, q) && Under(q, p)
    ensures Under(d, p)
  {
    assert q != [];
    assert p[..|q| + 1] == q + [SLASH];
    assert p[..|Prefix(d)|] == (q + [SLASH])[..|Prefix(d)|];
  }

  lemma ChildIsNotBelow(d: Text, q: Text, p: Text)
    requires IsChild(d, q) && IsChild(d, p)
    ensures !Under(q, p)
  {
    EntryNotAbove(d, q, p);
    NamesAreNonEmpty(d, q);
    hide IsAncestor, IsChild;
    if Under(q, p) {
      UnderIsAncestor(q, p);
    }
  }

  lemma NamesAreNonEmpty(d: Text, q: Text)
    requires IsChild(d, q)
    ensures q != []
  {
  }

  lemma {:induction false} DirectoryDecides(t: Tree, e: ExpectedTree, d: Text, depth: nat, o: Observed)
    requires Clean(t, e) && LogicalOk(t, o) && Level(d) == depth && depth <= MAX_DIRECTORY_DEPTH
    ensures var r := InspectDirectory(t, e, d, depth, o);
            && (r.Success? <==> Affordable(o, |Below(t, d)|))
            && (r.Success? ==> Walked(t, o, r.value, |Below(t, d)|, Below(t, d)))
    decreases 66 - depth, 3, 0
  {
    hide Clean, Level, InspectDirectory, InspectEntries, Below, BelowAny, FileNodes, Members, Siblings, Children,
         WellFormed, LogicalOk, Walked, Affordable, Listing, IsLeast;
    var entries := Listing(Children(t, d));
    var counted := o.(entries := o.entries + |entries|);
    CleanIsWellFormed(t, e);
    BelowSplits(t, d);
    ChildrenAreSiblings(t, d);
    CountingKeepsLogical(t, o, |entries|);
    SiblingsInTree(t, d, entries);
    DirectoryStep(t, e, d, depth, o);
    EntriesDecide(t, e, d, entries, depth, counted);
    var n, any := |entries|, |BelowAny(t, entries)|;
    AffordableSplits(o, n, any);
    AffordableMeans(o, n);
    if Affordable(o, n) {
      AffordableLater(o, counted, n, any);
    }
    if InspectEntries(t, e, entries, depth, counted).Success? {
      CountedWalk(t, o, n, InspectEntries(t, e, entries, depth, counted).value, any, Below(t, d));
    }
  }

  lemma AffordableMeans(o: Observed, n: nat)
    ensures Affordable(o, n) <==> !(n != 0 && o.entries + n > MAX_VISIBLE_ENTRIES)
  {
  }

  lemma CountedWalk(t: Tree, o: Observed, n: nat, r: Observed, any: nat, reached: set<Text>)
    requires Walked(t, o.(entries := o.entries + n), r, any, reached)
    ensures Walked(t, o, r, n + any, reached)
  {
  }

  lemma DirectoryStep(t: Tree, e: ExpectedTree, d: Text, depth: nat, o: Observed)
    requires depth <= MAX_DIRECTORY_DEPTH && forall p :: p in Listing(Children(t, d)) ==> p in t
    ensures var entries := Listing(Children(t, d));
            InspectDirectory(t, e, d, depth, o) ==
            if |entries| != 0 && o.entries + |entries| > MAX_VISIBLE_ENTRIES then Failure(TraversalLimitExceeded)
            else InspectEntries(t, e, entries, depth, o.(entries := o.entries + |entries|))
  {
    hide InspectEntries;
  }

  lemma CleanIsWellFormed(t: Tree, e: ExpectedTree)
    requires Clean(t, e)
    ensures WellFormed(t)
  {
  }

  lemma CountingKeepsLogical(t: Tree, o: Observed, n: nat)
    requires LogicalOk(t, o)
    ensures LogicalOk(t, o.(entries := o.entries + n))
  {
  }

  lemma SiblingsInTree(t: Tree, d: Text, entries: seq<Text>)
    requires Siblings(t, d, entries)
    ensures forall p :: p in entries ==> p in t
  {
  }

  // ----- main result

  ghost predicate PathsValid(m: BundleManifest, allowed: Option<(Text, nat)>) {
    forall p :: p in Paths(m) + AllowedPaths(allowed) ==> ValidPath(p)
  }

  lemma DirectoryIsShallow(a: Text, f: Text)
    requires IsAncestor(a, f) && |Split(f)| <= MAX_DIRECTORY_DEPTH + 1
    ensures |Split(a)| <= MAX_DIRECTORY_DEPTH
  {
    var b := f[|a| + 1..];
    assert f == a + [SLASH] + b;
    SplitAtSlash(a, b);
  }

  lemma ExactIsClean(t: Tree, m: BundleManifest, allowed: Option<(Text, nat)>)
    requires WellFormed(t) && PathsValid(m, allowed) && Expect(m, allowed).Success?
    requires ExactTree(t, Expect(m, allowed).value)
    ensures Clean(t, Expect(m, allowed).value)
  {
    hide ValidPath, Split, WellFormed, IsAncestor;
    var e := Expect(m, allowed).value;
    forall p | p in t
      ensures Declared(t, e, p)
      ensures t[p].Dir? ==> |Split(p)| <= MAX_DIRECTORY_DEPTH
    {
      if p in e.directories {
        var f :| f in e.files && p in Ancestors(f);
        AncestorIsValidPath(p, f);
        DirectoryIsShallow(p, f);
      }
    }
  }

  lemma ExactFileNodes(t: Tree, e: ExpectedTree)
    requires WellFormed(t) && ExactTree(t, e)
    ensures Below(t, []) == t.Keys && FileNodes(t, Below(t, [])) == e.files
    ensures |Below(t, [])| == |t|
  {
    hide LowerCase, MaximumBytesFor;
    forall p | p in t
      ensures p in Below(t, [])
    {
    }
    assert Below(t, []) == t.Keys;
    assert |t| == |t.Keys|;
  }

  /**
   Inspection accepts exactly the declared trees: every declared file with one
   link and within its size, its ancestor directories, nothing else, no two
   paths equal up to ASCII case, at most the visible-entry limit of nodes.
   */
  lemma InspectDecides(t: Tree, m: BundleManifest, allowed: Option<(Text, nat)>)
    requires WellFormed(t) && PathsValid(m, allowed)
    ensures InspectTree(t, m, allowed).Success? <==>
            && Expect(m, allowed).Success? && ExactTree(t, Expect(m, allowed).value)
            && |t| <= MAX_VISIBLE_ENTRIES
  {
    hide WellFormed, PathsValid, Expect, ExactTree, InspectDirectory, FirstMissing, Clean, Below, FileNodes, LogicalOk;
    if InspectTree(t, m, allowed).Success? {
      InspectedTreeIsExact(t, m, allowed);
    }
    if Expect(m, allowed).Success? && ExactTree(t, Expect(m, allowed).value) {
      var e := Expect(m, allowed).value;
      ExactIsClean(t, m, allowed);
      NothingIsLogical(t);
      DirectoryDecides(t, e, [], 0, NOTHING_OBSERVED);
      ExactFileNodes(t, e);
      if InspectDirectory(t, e, [], 0, NOTHING_OBSERVED).Success? {
        FirstMissingFinds(m.files, InspectDirectory(t, e, [], 0, NOTHING_OBSERVED).value.files);
        DeclaredIsExpected(m, allowed);
      }
    }
  }

  lemma NothingIsLogical(t: Tree)
    ensures LogicalOk(t, NOTHING_OBSERVED)
  {
  }

  lemma DeclaredIsExpected(m: BundleManifest, allowed: Option<(Text, nat)>)
    requires Expect(m, allowed).Success?
    ensures FilePaths(m.files) <= Expect(m, allowed).value.files
    ensures allowed.Some? ==> allowed.value.0 in Expect(m, allowed).value.files
  {
    hide Split;
  }
}
