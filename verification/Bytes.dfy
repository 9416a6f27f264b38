/** Byte strings, machine widths and the order the engine sorts by. */
module Bytes {

  type Byte = b: int | 0 <= b < 256

  type Text = seq<Byte>

  const U64_MAX: nat := 0xFFFF_FFFF_FFFF_FFFF

  datatype Option<+T> = None | Some(value: T)

  datatype Result<+T, +E> = Success(value: T) | Failure(error: E) {
    predicate IsFailure() {
      Failure?
    }

    function PropagateFailure<U>(): Result<U, E>
      requires Failure?
    {
      Failure(error)
    }

    function Extract(): T
      requires Success?
    {
      value
    }
  }

  /** The bytes of a text constant written with characters below 256. */
  function Ascii(s: string): (t: Text)
    requires forall i :: 0 <= i < |s| ==> s[i] as int < 256
    ensures |t| == |s|
    ensures forall i :: 0 <= i < |s| ==> t[i] == s[i] as int
  {
    seq(|s|, i requires 0 <= i < |s| => s[i] as int)
  }

  const SLASH: Byte := 47

  function Zeros(n: nat): (z: Text)
    ensures |z| == n
    ensures forall i :: 0 <= i < n ==> z[i] == 0
  {
    seq(n, _ => 0)
  }

  /** ASCII lower-casing, byte by byte, as `to_ascii_lowercase`. */
  function Lower(b: Byte): Byte {
    if 65 <= b <= 90 then b + 32 else b
  }

  function LowerCase(t: Text): (l: Text)
    ensures |l| == |t|
    ensures forall i :: 0 <= i < |t| ==> l[i] == Lower(t[i])
  {
    seq(|t|, i requires 0 <= i < |t| => Lower(t[i]))
  }

  /** Strict lexicographic order; a proper prefix comes first. */
  predicate Before(a: seq<int>, b: seq<int>) {
    b != [] && (a == [] || a[0] < b[0] || (a[0] == b[0] && Before(a[1..], b[1..])))
  }

  lemma {:induction false} BeforeIrreflexive(a: seq<int>)
    ensures !Before(a, a)
  {
    if a != [] {
      BeforeIrreflexive(a[1..]);
    }
  }

  lemma {:induction false} BeforeTransitive(a: seq<int>, b: seq<int>, c: seq<int>)
    requires Before(a, b) && Before(b, c)
    ensures Before(a, c)
  {
    if a != [] && a[0] == b[0] && b[0] == c[0] {
      BeforeTransitive(a[1..], b[1..], c[1..]);
    }
  }

  lemma {:induction false} BeforeTotal(a: seq<int>, b: seq<int>)
    ensures a == b || Before(a, b) || Before(b, a)
  {
    if a != [] && b != [] && a[0] == b[0] {
      BeforeTotal(a[1..], b[1..]);
      if a[1..] == b[1..] {
        assert a == [a[0]] + a[1..] && b == [b[0]] + b[1..];
      }
    }
  }

  lemma BeforeAsymmetric(a: seq<int>, b: seq<int>)
    requires Before(a, b)
    ensures !Before(b, a) && a != b
  {
    BeforeIrreflexive(a);
    if Before(b, a) {
      BeforeTransitive(a, b, a);
    }
  }
}
