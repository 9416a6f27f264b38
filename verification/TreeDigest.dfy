/** The pre-image of the installed-tree digest, and why it can be decoded in one way only. */
module TreeDigest {
  import opened Bytes
  import opened Distribution
  import opened Candidate

  /** "invokrum.installed-tree/v1" */
  const TREE_FORMAT: Text := Ascii("invokrum.installed-tree/v1")

  const LF: Byte := 10

  /** `u64::to_string`. */
  function Decimal(n: nat): (t: Text)
    ensures t != []
    ensures forall i :: 0 <= i < |t| ==> 48 <= t[i] <= 57
  {
    if n < 10 then [48 + n] else Decimal(n / 10) + [48 + n % 10]
  }

  function FileLine(f: BundleFile): Text {
    f.path + [0] + Decimal(f.byteLength) + [0] + f.digest + [LF]
  }

  function FileLines(files: seq<BundleFile>): Text {
    if files == [] then [] else FileLine(files[0]) + FileLines(files[1..])
  }

  function PreImage(files: seq<BundleFile>): Text {
    TREE_FORMAT + [0] + FileLines(files)
  }

  lemma {:induction false} FileLinesSnoc(files: seq<BundleFile>, f: BundleFile)
    ensures FileLines(files + [f]) == FileLines(files) + FileLine(f)
  {
    if files == [] {
      assert files + [f] == [f];
      assert FileLines([f][1..]) == [];
    } else {
      assert (files + [f])[1..] == files[1..] + [f];
      FileLinesSnoc(files[1..], f);
    }
  }

  /** `installed_tree_digest`, growing one byte vector file by file. */
  method InstalledTreeDigest(b: VerifiedBundle, hash: Digester) returns (digest: Text)
    ensures digest == hash(PreImage(RecordsOf(b)))
  {
    var bytes := TREE_FORMAT + [0];
    for i := 0 to |b.files|
      invariant bytes == TREE_FORMAT + [0] + FileLines(RecordsOf(b)[..i])
    {
      ghost var before, f := bytes, RecordsOf(b)[i];
      hide Decimal, FileLines, RecordsOf;
      bytes := bytes + b.files[i].path + [0];
      bytes := bytes + Decimal(|b.files[i].bytes|) + [0];
      bytes := bytes + b.files[i].digest + [LF];
      LineAppends(before, f);
      FileLinesSnoc(RecordsOf(b)[..i], f);
      assert RecordsOf(b)[..i + 1] == RecordsOf(b)[..i] + [f];
      assert before + FileLine(f) == TREE_FORMAT + [0] + (FileLines(RecordsOf(b)[..i]) + FileLine(f));
    }
    assert RecordsOf(b)[..|b.files|] == RecordsOf(b);
    return hash(bytes);
  }

  lemma LineAppends(before: Text, f: BundleFile)
    ensures before + f.path + [0] + Decimal(f.byteLength) + [0] + f.digest + [LF] == before + FileLine(f)
  {
    hide Decimal;
  }

  // ----- the decoder

  function IndexOf(t: Text, b: Byte): (i: nat)
    ensures i <= |t| && (i < |t| ==> t[i] == b) && forall j :: 0 <= j < i ==> t[j] != b
  {
    if t == [] || t[0] == b then 0 else 1 + IndexOf(t[1..], b)
  }

  function DecimalValue(t: Text): nat {
    if t == [] then 0
    else DecimalValue(t[..|t| - 1]) * 10 + if t[|t| - 1] < 48 then 0 else t[|t| - 1] - 48
  }

  /** Reads one record: path up to NUL, length up to NUL, digest up to line feed. */
  function DecodeLine(t: Text): (r: Option<(BundleFile, Text)>)
    ensures r.Some? ==> |r.value.1| < |t|
  {
    var i := IndexOf(t, 0);
    if i == |t| then None
    else
      var u := t[i + 1..];
      var j := IndexOf(u, 0);
      if j == |u| then None
      else
        var v := u[j + 1..];
        var k := IndexOf(v, LF);
        if k == |v| then None else Some((BundleFile(t[..i], DecimalValue(u[..j]), v[..k]), v[k + 1..]))
  }

  function DecodeLines(t: Text): Option<seq<BundleFile>>
    decreases |t|
  {
    if t == [] then Some([])
    else
      match DecodeLine(t)
      case None => None
      case Some(line) =>
        match DecodeLines(line.1) case None => None case Some(rest) => Some([line.0] + rest)
  }

  function Decode(t: Text): Option<seq<BundleFile>> {
    if |t| > |TREE_FORMAT| && t[..|TREE_FORMAT| + 1] == TREE_FORMAT + [0] then DecodeLines(t[|TREE_FORMAT| + 1..])
    else None
  }

  /** Portable paths and hexadecimal digests: what every verified file carries. */
  ghost predicate Encodable(f: BundleFile) {
    ValidPath(f.path) && ValidDigest(f.digest)
  }

  lemma {:induction false} DecimalRoundTrip(n: nat)
    ensures DecimalValue(Decimal(n)) == n
  {
    var t := Decimal(n);
    if n < 10 {
      assert t[..0] == [];
    } else {
      DecimalRoundTrip(n / 10);
      assert t[..|t| - 1] == Decimal(n / 10);
    }
  }

  /** A separator that the first part avoids is found right behind it. */
  lemma SeparatorFound(a: Text, b: Byte, rest: Text)
    requires b !in a
    ensures var t := a + [b] + rest;
            IndexOf(t, b) == |a| && t[..|a|] == a && t[|a| + 1..] == rest
  {
    var t := a + [b] + rest;
    assert t[|a|] == b;
    forall i | 0 <= i < |a|
      ensures t[i] != b
    {
      assert t[i] == a[i] && a[i] in a;
    }
  }

  lemma LineRoundTrip(f: BundleFile, rest: Text)
    requires Encodable(f)
    ensures DecodeLine(FileLine(f) + rest) == Some((f, rest))
  {
    hide ValidPath, IndexOf, Decimal, DecimalValue;
    PathAvoidsNul(f.path);
    assert 0 !in Decimal(f.byteLength);
    assert LF !in f.digest;
    var v := f.digest + [LF] + rest;
    var u := Decimal(f.byteLength) + [0] + v;
    assert FileLine(f) + rest == f.path + [0] + u;
    SeparatorFound(f.path, 0, u);
    SeparatorFound(Decimal(f.byteLength), 0, v);
    SeparatorFound(f.digest, LF, rest);
    DecimalRoundTrip(f.byteLength);
  }

  lemma PathAvoidsNul(p: Text)
    requires ValidPath(p)
    ensures 0 !in p
  {
  }

  lemma {:induction false} LinesRoundTrip(files: seq<BundleFile>)
    requires forall f :: f in files ==> Encodable(f)
    ensures DecodeLines(FileLines(files)) == Some(files)
  {
    if files != [] {
      assert FileLine(files[0]) != [];
      hide Encodable, DecodeLine, FileLine;
      assert files[0] in files;
      LineRoundTrip(files[0], FileLines(files[1..]));
      LinesRoundTrip(files[1..]);
      assert [files[0]] + files[1..] == files;
    }
  }

  /** The decoder recovers every record list from its pre-image. */
  lemma PreImageRoundTrip(files: seq<BundleFile>)
    requires forall f :: f in files ==> Encodable(f)
    ensures Decode(PreImage(files)) == Some(files)
  {
    hide Encodable, DecodeLines, FileLines;
    var t := PreImage(files);
    assert t[..|TREE_FORMAT| + 1] == TREE_FORMAT + [0];
    assert t[|TREE_FORMAT| + 1..] == FileLines(files);
    LinesRoundTrip(files);
  }

  /** Equal pre-images mean equal record lists: no framing ambiguity. */
  lemma PreImageIsInjective(a: seq<BundleFile>, b: seq<BundleFile>)
    requires forall f :: f in a ==> Encodable(f)
    requires forall f :: f in b ==> Encodable(f)
    requires PreImage(a) == PreImage(b)
    ensures a == b
  {
    PreImageRoundTrip(a);
    PreImageRoundTrip(b);
  }
}
