/**
 The stable sort by key that the engine takes from its standard library, with
 the facts every normalising constructor leans on: sorting permutes, orders,
 and is canonical when keys are distinct.
 */
module Sorting {
  import opened Bytes

  function InsertBy<T>(x: T, s: seq<T>, key: T -> seq<int>): seq<T> {
    if s == [] || !Before(key(s[0]), key(x)) then [x] + s else [s[0]] + InsertBy(x, s[1..], key)
  }

  /** Equal keys keep their relative order. */
  function SortBy<T>(s: seq<T>, key: T -> seq<int>): seq<T> {
    if s == [] then [] else InsertBy(s[0], SortBy(s[1..], key), key)
  }

  ghost predicate Ordered<T>(s: seq<T>, key: T -> seq<int>) {
    forall i, j :: 0 <= i < j < |s| ==> !Before(key(s[j]), key(s[i]))
  }

  ghost predicate StrictlyOrdered<T>(s: seq<T>, key: T -> seq<int>) {
    forall i, j :: 0 <= i < j < |s| ==> Before(key(s[i]), key(s[j]))
  }

  ghost predicate DistinctKeys<T>(s: seq<T>, key: T -> seq<int>) {
    forall i, j :: 0 <= i < j < |s| ==> key(s[i]) != key(s[j])
  }

  /** Permutations are peeled one element at a time: where the head of `a` sits in `b`. */
  lemma MatchHead<T>(a: seq<T>, b: seq<T>) returns (k: nat)
    requires multiset(a) == multiset(b) && a != []
    ensures k < |b| && b[k] == a[0] && b == b[..k] + [a[0]] + b[k + 1..]
    ensures multiset(a[1..]) == multiset(b[..k] + b[k + 1..])
  {
    assert a[0] in multiset(b);
    k :| 0 <= k < |b| && b[k] == a[0];
    RemoveOne(a, 0);
    RemoveOne(b, k);
    assert a[..0] + a[1..] == a[1..];
  }

  lemma RemoveOne<T>(s: seq<T>, k: nat)
    requires k < |s|
    ensures multiset(s[..k] + s[k + 1..]) == multiset(s) - multiset{s[k]}
    ensures s == s[..k] + [s[k]] + s[k + 1..]
  {
    assert s == s[..k] + [s[k]] + s[k + 1..];
    assert multiset(s) == multiset(s[..k]) + multiset{s[k]} + multiset(s[k + 1..]);
  }

  lemma SameLength<T>(a: seq<T>, b: seq<T>)
    requires multiset(a) == multiset(b)
    ensures |a| == |b|
  {
    assert |multiset(a)| == |a| && |multiset(b)| == |b|;
  }

  lemma {:induction false} InsertPermutes<T>(x: T, s: seq<T>, key: T -> seq<int>)
    ensures multiset(InsertBy(x, s, key)) == multiset{x} + multiset(s)
  {
    if s == [] || !Before(key(s[0]), key(x)) {
      assert [x] + s == InsertBy(x, s, key);
    } else {
      InsertPermutes(x, s[1..], key);
      assert s == [s[0]] + s[1..];
    }
  }

  lemma {:induction false} SortPermutes<T>(s: seq<T>, key: T -> seq<int>)
    ensures multiset(SortBy(s, key)) == multiset(s)
    ensures |SortBy(s, key)| == |s|
  {
    if s != [] {
      SortPermutes(s[1..], key);
      InsertPermutes(s[0], SortBy(s[1..], key), key);
      assert s == [s[0]] + s[1..];
    }
    assert |multiset(SortBy(s, key))| == |SortBy(s, key)|;
    assert |multiset(s)| == |s|;
  }

  lemma SameElements<T>(a: seq<T>, b: seq<T>)
    requires multiset(a) == multiset(b)
    ensures forall x :: x in a <==> x in b
  {
    forall x
      ensures x in a <==> x in b
    {
      assert x in a <==> x in multiset(a);
      assert x in b <==> x in multiset(b);
    }
  }

  lemma {:induction false} InsertOrders<T>(x: T, s: seq<T>, key: T -> seq<int>)
    requires Ordered(s, key)
    ensures Ordered(InsertBy(x, s, key), key)
  {
    var r := InsertBy(x, s, key);
    if s == [] {
    } else if !Before(key(s[0]), key(x)) {
      forall i, j | 0 <= i < j < |r|
        ensures !Before(key(r[j]), key(r[i]))
      {
        if i == 0 && Before(key(s[j - 1]), key(x)) {
          if j > 1 {
            NotBeforeTransitive(key(s[j - 1]), key(s[0]), key(x));
          }
        }
      }
    } else {
      var t := InsertBy(x, s[1..], key);
      InsertOrders(x, s[1..], key);
      InsertPermutes(x, s[1..], key);
      forall i, j | 0 <= i < j < |r|
        ensures !Before(key(r[j]), key(r[i]))
      {
        if i == 0 {
          assert r[j] == t[j - 1];
          assert t[j - 1] in multiset(t);
          if r[j] == x {
            BeforeAsymmetric(key(s[0]), key(x));
          } else {
            assert r[j] in s[1..];
          }
        } else {
          assert r[i] == t[i - 1] && r[j] == t[j - 1];
        }
      }
    }
  }

  /** `c` not before `b` and `b` not before `a` give `c` not before `a`. */
  lemma NotBeforeTransitive(c: seq<int>, b: seq<int>, a: seq<int>)
    requires !Before(c, b) && !Before(b, a)
    ensures !Before(c, a)
  {
    BeforeTotal(b, c);
    BeforeTotal(a, b);
    if Before(c, a) {
      if b == c || a == b {
      } else {
        BeforeTransitive(a, b, c);
        BeforeAsymmetric(a, c);
      }
    }
  }

  lemma {:induction false} SortOrders<T>(s: seq<T>, key: T -> seq<int>)
    ensures Ordered(SortBy(s, key), key)
  {
    if s != [] {
      SortOrders(s[1..], key);
      InsertOrders(s[0], SortBy(s[1..], key), key);
    }
  }

  /** The adjacent-pair test finds every duplicate of an ordered sequence. */
  lemma AdjacentTestSuffices<T>(s: seq<T>, key: T -> seq<int>)
    requires Ordered(s, key)
    requires forall i :: 0 <= i < |s| - 1 ==> key(s[i]) != key(s[i + 1])
    ensures StrictlyOrdered(s, key)
  {
    forall i, j | 0 <= i < j < |s|
      ensures Before(key(s[i]), key(s[j]))
    {
      BeforeTotal(key(s[i]), key(s[i + 1]));
      if j > i + 1 {
        assert !Before(key(s[j]), key(s[i + 1]));
        BeforeTotal(key(s[i]), key(s[j]));
        if key(s[i]) == key(s[j]) {
          assert false;
        }
      }
    }
  }

  lemma StrictIsDistinct<T>(s: seq<T>, key: T -> seq<int>)
    requires StrictlyOrdered(s, key)
    ensures DistinctKeys(s, key) && Ordered(s, key)
  {
    forall i, j | 0 <= i < j < |s|
      ensures key(s[i]) != key(s[j]) && !Before(key(s[j]), key(s[i]))
    {
      BeforeAsymmetric(key(s[i]), key(s[j]));
    }
  }

  lemma OrderedDistinctIsStrict<T>(s: seq<T>, key: T -> seq<int>)
    requires Ordered(s, key) && DistinctKeys(s, key)
    ensures StrictlyOrdered(s, key)
  {
    AdjacentTestSuffices(s, key);
  }

  /** Distinctness survives reordering. */
  lemma {:induction false} DistinctPermutes<T>(a: seq<T>, b: seq<T>, key: T -> seq<int>)
    requires multiset(a) == multiset(b) && DistinctKeys(a, key)
    ensures DistinctKeys(b, key)
  {
    forall i, j | 0 <= i < j < |b|
      ensures key(b[i]) != key(b[j])
    {
      SameElements(a, b);
      assert b[i] in b && b[j] in b;
      var k :| 0 <= k < |a| && a[k] == b[i];
      var l :| 0 <= l < |a| && a[l] == b[j];
      if b[i] == b[j] {
        MultiplicityTwo(b, i, j);
        MultiplicityOne(a, key, k);
      } else {
        assert k != l;
      }
    }
  }

  lemma MultiplicityTwo<T>(s: seq<T>, i: nat, j: nat)
    requires i < j < |s| && s[i] == s[j]
    ensures multiset(s)[s[i]] >= 2
  {
    assert s == s[..j] + [s[j]] + s[j + 1..];
    assert s[i] in s[..j];
  }

  lemma MultiplicityOne<T>(s: seq<T>, key: T -> seq<int>, k: nat)
    requires k < |s| && DistinctKeys(s, key)
    ensures multiset(s)[s[k]] == 1
  {
    assert s == s[..k] + [s[k]] + s[k + 1..];
    assert s[k] !in s[..k] && s[k] !in s[k + 1..];
  }

  /** Listings without repeated keys and with the same elements are permutations of each other. */
  lemma DistinctListingsPermute<T>(a: seq<T>, b: seq<T>, key: T -> seq<int>)
    requires DistinctKeys(a, key) && DistinctKeys(b, key)
    requires forall x :: x in a <==> x in b
    ensures multiset(a) == multiset(b)
  {
    forall x
      ensures multiset(a)[x] == multiset(b)[x]
    {
      assert x in a <==> x in multiset(a);
      assert x in b <==> x in multiset(b);
      if x in a {
        var i :| 0 <= i < |a| && a[i] == x;
        var j :| 0 <= j < |b| && b[j] == x;
        MultiplicityOne(a, key, i);
        MultiplicityOne(b, key, j);
      }
    }
  }

  lemma HasElement<T>(s: seq<T>)
    requires s != []
    ensures exists x :: x in s
  {
    assert s[0] in s;
  }

  /** An ordered listing without repeated keys is determined by its elements. */
  lemma {:induction false} StrictListingUnique<T>(a: seq<T>, b: seq<T>, key: T -> seq<int>)
    requires StrictlyOrdered(a, key) && StrictlyOrdered(b, key)
    requires forall x :: x in a <==> x in b
    ensures a == b
  {
    if a == [] {
      if b != [] {
        HasElement(b);
      }
    } else {
      assert a[0] in b;
      assert b[0] in a;
      StrictIsDistinct(a, key);
      StrictIsDistinct(b, key);
      assert a[0] == b[0];
      forall x
        ensures x in a[1..] <==> x in b[1..]
      {
        if x in a[1..] {
          assert x in a && x != a[0];
        }
        if x in b[1..] {
          assert x in b && x != b[0];
        }
      }
      StrictListingUnique(a[1..], b[1..], key);
    }
  }

  lemma SortStrict<T>(s: seq<T>, key: T -> seq<int>)
    requires DistinctKeys(s, key)
    ensures StrictlyOrdered(SortBy(s, key), key)
  {
    SortPermutes(s, key);
    SortOrders(s, key);
    DistinctPermutes(s, SortBy(s, key), key);
    OrderedDistinctIsStrict(SortBy(s, key), key);
  }

  /** Sorting forgets declaration order. */
  lemma SortCanonical<T>(a: seq<T>, b: seq<T>, key: T -> seq<int>)
    requires multiset(a) == multiset(b) && DistinctKeys(a, key)
    ensures SortBy(a, key) == SortBy(b, key)
  {
    DistinctPermutes(a, b, key);
    SortStrict(a, key);
    SortStrict(b, key);
    SortPermutes(a, key);
    SortPermutes(b, key);
    SameElements(SortBy(a, key), SortBy(b, key));
    StrictListingUnique(SortBy(a, key), SortBy(b, key), key);
  }

  lemma SortIdempotent<T>(s: seq<T>, key: T -> seq<int>)
    requires StrictlyOrdered(s, key)
    ensures SortBy(s, key) == s
  {
    StrictIsDistinct(s, key);
    SortStrict(s, key);
    SortPermutes(s, key);
    SameElements(s, SortBy(s, key));
    StrictListingUnique(SortBy(s, key), s, key);
  }

  // ----- keys of a sorted listing

  function Keys<T>(s: seq<T>, key: T -> seq<int>): (k: seq<seq<int>>)
    ensures |k| == |s|
    ensures forall i :: 0 <= i < |s| ==> k[i] == key(s[i])
  {
    seq(|s|, i requires 0 <= i < |s| => key(s[i]))
  }

  lemma KeysRemove<T>(s: seq<T>, k: nat, key: T -> seq<int>)
    requires k < |s|
    ensures multiset(Keys(s, key)) == multiset{key(s[k])} + multiset(Keys(s[..k] + s[k + 1..], key))
  {
    var keys := Keys(s, key);
    assert Keys(s[..k] + s[k + 1..], key) == keys[..k] + keys[k + 1..];
    RemoveOne(keys, k);
    assert keys[k] in multiset(keys);
  }

  lemma {:induction false} KeysPermute<T>(a: seq<T>, b: seq<T>, key: T -> seq<int>)
    requires multiset(a) == multiset(b)
    ensures multiset(Keys(a, key)) == multiset(Keys(b, key))
  {
    SameLength(a, b);
    if a == [] {
      assert a == b;
    } else {
      hide Keys;
      var k := MatchHead(a, b);
      KeysPermute(a[1..], b[..k] + b[k + 1..], key);
      KeysOneMore(a, b, k, key);
    }
  }

  lemma KeysOneMore<T>(a: seq<T>, b: seq<T>, k: nat, key: T -> seq<int>)
    requires a != [] && k < |b| && b[k] == a[0]
    requires multiset(Keys(a[1..], key)) == multiset(Keys(b[..k] + b[k + 1..], key))
    ensures multiset(Keys(a, key)) == multiset(Keys(b, key))
  {
    hide Keys;
    KeysRemove(a, 0, key);
    KeysRemove(b, k, key);
    assert a[..0] + a[1..] == a[1..];
  }

  ghost predicate OrderedTexts(k: seq<seq<int>>) {
    forall i, j :: 0 <= i < j < |k| ==> !Before(k[j], k[i])
  }

  lemma OrderedHeadsAgree(a: seq<seq<int>>, b: seq<seq<int>>)
    requires multiset(a) == multiset(b) && OrderedTexts(a) && OrderedTexts(b) && a != [] && b != []
    ensures a[0] == b[0]
  {
    SameElements(a, b);
    assert a[0] in b && b[0] in a;
    var i :| 0 <= i < |b| && b[i] == a[0];
    var j :| 0 <= j < |a| && a[j] == b[0];
    BeforeTotal(a[0], b[0]);
  }

  lemma TailsPermute<T>(a: seq<T>, b: seq<T>)
    requires multiset(a) == multiset(b) && a != [] && b != [] && a[0] == b[0]
    ensures multiset(a[1..]) == multiset(b[1..])
  {
    RemoveOne(a, 0);
    RemoveOne(b, 0);
    assert a[..0] + a[1..] == a[1..] && b[..0] + b[1..] == b[1..];
  }

  lemma {:induction false} OrderedTextsUnique(a: seq<seq<int>>, b: seq<seq<int>>)
    requires multiset(a) == multiset(b) && OrderedTexts(a) && OrderedTexts(b)
    ensures a == b
  {
    SameLength(a, b);
    if a != [] {
      OrderedHeadsAgree(a, b);
      TailsPermute(a, b);
      OrderedTextsUnique(a[1..], b[1..]);
      assert a == [a[0]] + a[1..] && b == [b[0]] + b[1..];
    }
  }

  /** Even with repeated keys, the sorted key listing depends on the elements alone. */
  lemma SortedKeysCanonical<T>(a: seq<T>, b: seq<T>, key: T -> seq<int>)
    requires multiset(a) == multiset(b)
    ensures Keys(SortBy(a, key), key) == Keys(SortBy(b, key), key)
  {
    SortPermutes(a, key);
    SortPermutes(b, key);
    SortOrders(a, key);
    SortOrders(b, key);
    KeysPermute(SortBy(a, key), SortBy(b, key), key);
    OrderedTextsUnique(Keys(SortBy(a, key), key), Keys(SortBy(b, key), key));
  }

  // ----- the ordered iteration of a set, as a tree set yields it

  ghost predicate IncreasingTexts(k: seq<seq<int>>) {
    forall i, j :: 0 <= i < j < |k| ==> Before(k[i], k[j])
  }

  predicate IsLeast(x: Text, s: set<Text>) {
    x in s && forall y :: y in s ==> x == y || Before(x, y)
  }

  lemma {:induction false} LeastExists(s: set<Text>)
    requires s != {}
    ensures exists x: Text :: IsLeast(x, s)
  {
    var x :| x in s;
    var rest := s - {x};
    if rest == {} {
      assert s == {x};
      assert IsLeast(x, s);
    } else {
      LeastExists(rest);
      var y: Text :| IsLeast(y, rest);
      BeforeTotal(x, y);
      if Before(x, y) {
        forall z | z in s
          ensures x == z || Before(x, z)
        {
          if z != x && z != y {
            assert z in rest;
            BeforeTransitive(x, y, z);
          }
        }
        assert IsLeast(x, s);
      } else {
        assert IsLeast(y, s);
      }
    }
  }

  lemma LeastUnique(x: Text, y: Text, s: set<Text>)
    requires IsLeast(x, s) && IsLeast(y, s)
    ensures x == y
  {
    if x != y {
      BeforeAsymmetric(x, y);
    }
  }

  function Least(s: set<Text>): (x: Text)
    requires s != {}
    ensures IsLeast(x, s)
  {
    LeastExists(s);
    assert forall x: Text, y: Text :: IsLeast(x, s) && IsLeast(y, s) ==> x == y by {
      forall x: Text, y: Text | IsLeast(x, s) && IsLeast(y, s)
        ensures x == y
      {
        LeastUnique(x, y, s);
      }
    }
    var x: Text :| IsLeast(x, s);
    x
  }

  function Listing(s: set<Text>): (l: seq<Text>)
    ensures IncreasingTexts(l)
    ensures forall x :: x in l <==> x in s
  {
    if s == {} then [] else
      var x := Least(s);
      [x] + Listing(s - {x})
  }
}
