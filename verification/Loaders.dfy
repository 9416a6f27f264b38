/** The directory loader and the archive loader feed the verifier the same evidence. */
module Loaders {
  import opened Bytes
  import opened Sorting
  import opened Distribution
  import opened Candidate
  import D = Directory
  import U = Ustar
  import L = UstarLayout
  import P = UstarPrinter
  import H = UstarHeader

  /** Every file the archive delivered is, byte for byte, the tree's file of that path. */
  ghost predicate SameFiles(t: D.Tree, cs: seq<CandidateFile>) {
    forall c :: c in cs ==> c.path in t && t[c.path].File? && t[c.path].bytes == c.bytes
  }

  /** Splitting into components and cutting at the last separator name the same directories. */
  lemma DeclaredTreesAgree(m: BundleManifest)
    requires D.Expect(m, None).Success? && U.ExpectedTree(m).Success?
    ensures D.Expect(m, None).value.files == U.ExpectedTree(m).value.files
    ensures D.Expect(m, None).value.directories == U.ExpectedTree(m).value.directories
  {
    assert Paths(m) + {} == Paths(m);
  }

  lemma DirectoryCandidates(t: D.Tree, m: BundleManifest)
    requires D.WellFormed(t) && StrictlyOrdered(m.files, FilePath) && D.Load(t, m, None).Success?
    ensures var cs := D.Load(t, m, None).value;
            && ValidCandidates(cs) && DistinctKeys(cs, CandidatePath) && SameFiles(t, cs)
            && L.CandidatePaths(cs) == Paths(m)
  {
    hide D.Load, D.WellFormed, D.ExactTree, D.Expect;
    var cs := D.Load(t, m, None).value;
    D.LoadDelivers(t, m, None);
    StrictIsDistinct(m.files, FilePath);
    forall i, j | 0 <= i < j < |cs|
      ensures CandidatePath(cs[i]) != CandidatePath(cs[j])
    {
      assert FilePath(m.files[i]) != FilePath(m.files[j]);
    }
    forall p
      ensures p in L.CandidatePaths(cs) <==> p in Paths(m)
    {
      if p in L.CandidatePaths(cs) {
        var i :| 0 <= i < |cs| && cs[i].path == p;
        assert m.files[i].path == p;
      }
      if p in Paths(m) {
        var i :| 0 <= i < |m.files| && m.files[i].path == p;
        assert cs[i].path == p;
      }
    }
  }

  lemma SamePathsSameCandidates(t: D.Tree, a: seq<CandidateFile>, b: seq<CandidateFile>)
    requires SameFiles(t, a) && SameFiles(t, b) && L.CandidatePaths(a) == L.CandidatePaths(b)
    ensures forall c :: c in a ==> c in b
  {
    forall c | c in a
      ensures c in b
    {
      var i :| 0 <= i < |a| && a[i] == c;
      assert c.path in L.CandidatePaths(a);
      var j :| 0 <= j < |b| && b[j].path == c.path;
      assert b[j] in b && b[j] == c;
    }
  }

  /**
   Whenever both loaders accept the same files, in whatever order the archive
   lists them, verification cannot tell which one delivered: same bundle, or
   same error at the same path.
   */
  lemma LoadersAgree(t: D.Tree, archive: Text, m: BundleManifest, hash: Digester, ms: Text, es: Text)
    requires D.WellFormed(t) && StrictlyOrdered(m.files, FilePath)
    requires D.Load(t, m, None).Success? && U.Parse(archive, m).Success?
    requires SameFiles(t, U.Parse(archive, m).value)
    ensures multiset(D.Load(t, m, None).value) == multiset(U.Parse(archive, m).value)
    ensures Verify(hash, m, ms, es, D.Load(t, m, None).value) == Verify(hash, m, ms, es, U.Parse(archive, m).value)
  {
    hide D.Load, U.Parse, D.WellFormed, Verify;
    var local, archived := D.Load(t, m, None).value, U.Parse(archive, m).value;
    DirectoryCandidates(t, m);
    ArchiveCandidates(archive, m);
    SamePathsSameCandidates(t, local, archived);
    SamePathsSameCandidates(t, archived, local);
    DistinctListingsPermute(local, archived, CandidatePath);
    VerifyIgnoresOrder(hash, m, ms, es, local, archived);
  }

  lemma ArchiveCandidates(archive: Text, m: BundleManifest)
    requires U.Parse(archive, m).Success?
    ensures var cs := U.Parse(archive, m).value;
            ValidCandidates(cs) && DistinctKeys(cs, CandidatePath) && L.CandidatePaths(cs) == Paths(m)
  {
    hide U.ParseWith;
    L.ParsedPathsAreDeclared(H.ParseHeader, archive, m, U.DEFAULT_PARSER_LIMITS);
  }

  /** Packing the tree's files into an archive, in any order, changes nothing for the verifier. */
  lemma PackedTreeVerifiesTheSame(t: D.Tree, entries: seq<P.Entry>, m: BundleManifest, hash: Digester, ms: Text,
                                  es: Text)
    requires D.WellFormed(t) && StrictlyOrdered(m.files, FilePath)
    requires D.Load(t, m, None).Success?
    requires P.Writable(entries, m) && SameFiles(t, P.FileEntries(entries))
    ensures U.Parse(P.Build(entries), m).Success?
    ensures Verify(hash, m, ms, es, D.Load(t, m, None).value) ==
            Verify(hash, m, ms, es, U.Parse(P.Build(entries), m).value)
  {
    hide D.Load, U.Parse, D.WellFormed, Verify, P.Writable;
    P.ArchiveRoundTrip(entries, m);
    LoadersAgree(t, P.Build(entries), m, hash, ms, es);
  }
}
