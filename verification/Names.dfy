/** What the parsed names are: identifiers, digests and paths, said of their characters and segments. */
module Names {
  import opened Bytes
  import opened Distribution
  import opened Directory
  import opened Pack

  predicate IsDigit(b: Byte) { '0' as int <= b <= '9' as int }

  predicate IsLetter(b: Byte) {
    'a' as int <= b <= 'z' as int || 'A' as int <= b <= 'Z' as int
  }

  /** Identifiers are 1 to 128 ASCII letters, digits, dashes, underscores and dots. */
  lemma IdentifierDecides(t: Text)
    ensures ValidIdentifier(t) <==>
            && 1 <= |t| <= 128
            && forall i :: 0 <= i < |t| ==>
                 IsLetter(t[i]) || IsDigit(t[i]) || t[i] == '-' as int || t[i] == '_' as int || t[i] == '.' as int
  {
    assert forall i :: 0 <= i < |t| ==> t[i] in t;
  }

  /** Digests are 64 digits and letters from `a` to `f`. */
  lemma DigestDecides(d: Text)
    ensures ValidDigest(d) <==>
            |d| == 64 && forall i :: 0 <= i < 64 ==> IsDigit(d[i]) || 'a' as int <= d[i] <= 'f' as int
  {
    assert forall i :: 0 <= i < |d| ==> d[i] in d;
  }

  // ----- segments

  /** A name between separators: not empty, not `.` or `..`. */
  predicate IsName(s: Text) {
    s != [] && s != ['.' as int] && s != ['.' as int, '.' as int] && SLASH !in s
  }

  lemma {:induction false} SplitParts(p: Text, s: Text)
    requires s in Split(p)
    ensures SLASH !in s && forall b :: b in s ==> b in p
  {
    if p != [] {
      var rest := Split(p[1..]);
      assert p == [p[0]] + p[1..];
      if s in rest {
        SplitParts(p[1..], s);
      } else if p[0] != SLASH {
        assert s == [p[0]] + rest[0];
        SplitParts(p[1..], rest[0]);
      }
    }
  }

  lemma {:induction false} SplitOne(s: Text)
    requires SLASH !in s
    ensures Split(s) == [s]
  {
    if s != [] {
      SplitOne(s[1..]);
      assert s == [s[0]] + s[1..];
    }
  }

  lemma {:induction false} SplitOfJoin(segments: seq<Text>)
    requires segments != [] && forall s :: s in segments ==> SLASH !in s
    ensures Split(Join(segments)) == segments
  {
    SplitOne(segments[0]);
    if |segments| == 1 {
      assert segments == [segments[0]];
    } else {
      SplitOfJoin(segments[1..]);
      SplitAtSlash(segments[0], Join(segments[1..]));
      assert segments == [segments[0]] + segments[1..];
    }
  }

  lemma {:induction false} JoinParts(segments: seq<Text>, b: Byte)
    requires segments != []
    ensures b in Join(segments) ==> b == SLASH || exists s :: s in segments && b in s
  {
    if |segments| > 1 {
      JoinParts(segments[1..], b);
    }
  }

  lemma {:induction false} JoinEnds(segments: seq<Text>)
    requires segments != [] && forall s :: s in segments ==> IsName(s)
    ensures var p := Join(segments); p != [] && p[0] != SLASH && p[|p| - 1] != SLASH
  {
    var first := segments[0];
    assert first in segments && first[0] in first;
    if |segments| == 1 {
      assert first[|first| - 1] in first;
    } else {
      JoinEnds(segments[1..]);
    }
  }

  /** What the segment checks amount to. */
  lemma SegmentsDecide(p: Text)
    ensures p != [] && p[0] != SLASH && p[|p| - 1] != SLASH && (forall s :: s in Split(p) ==> ValidSegment(s)) <==>
            exists segments :: IsPathOf(p, segments)
  {
    if forall s :: s in Split(p) ==> ValidSegment(s) {
      JoinSplit(p);
      forall s | s in Split(p)
        ensures IsName(s)
      {
        SplitParts(p, s);
      }
      assert IsPathOf(p, Split(p));
    }
    if exists segments :: IsPathOf(p, segments) {
      var segments :| IsPathOf(p, segments);
      SplitOfJoin(segments);
      JoinEnds(segments);
    }
  }

  ghost predicate IsPathOf(p: Text, segments: seq<Text>) {
    segments != [] && p == Join(segments) && forall s :: s in segments ==> IsName(s)
  }

  // ----- paths

  /** Bundle paths are names joined by slashes, of printable ASCII without backslash and colon, 1024 bytes at most. */
  lemma BundlePathDecides(p: Text)
    ensures ValidPath(p) <==>
            && (exists segments :: IsPathOf(p, segments))
            && |p| <= 1024
            && forall i :: 0 <= i < |p| ==> 32 <= p[i] <= 126 && p[i] != '\\' as int && p[i] != ':' as int
  {
    SegmentsDecide(p);
    hide Split, Join, ValidSegment, IsPathOf;
    assert forall i :: 0 <= i < |p| ==> p[i] in p;
  }

  /** Pack paths are names joined by slashes, of any bytes but backslash, colon and NUL. */
  lemma PackPathDecides(p: Text)
    ensures ValidPackPath(p) <==>
            && (exists segments :: IsPathOf(p, segments))
            && forall i :: 0 <= i < |p| ==> p[i] != '\\' as int && p[i] != ':' as int && p[i] != 0
  {
    SegmentsDecide(p);
    hide Split, Join, ValidSegment, IsPathOf;
    assert forall i :: 0 <= i < |p| ==> p[i] in p;
  }

  /** Two bytes an ASCII-case-insensitive file system cannot tell apart. */
  predicate SameLetter(a: Byte, b: Byte) {
    a == b || (IsLetter(a) && IsLetter(b) && (a == b + 32 || b == a + 32))
  }

  /** Two paths clash exactly if they differ in nothing but the case of letters. */
  lemma ClashDecides(p: Text, q: Text)
    ensures LowerCase(p) == LowerCase(q) <==> |p| == |q| && forall i :: 0 <= i < |p| ==> SameLetter(p[i], q[i])
  {
    if LowerCase(p) == LowerCase(q) {
      forall i | 0 <= i < |p|
        ensures SameLetter(p[i], q[i])
      {
        assert LowerCase(p)[i] == LowerCase(q)[i];
      }
    }
  }
}
