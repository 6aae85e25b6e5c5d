/** Byte vectors read as big-endian unsigned numbers, the view in which the
    address arithmetic is specified. */
module Bytes {
  import opened Arith
  import opened Bits

  /** A `uint8_t`. */
  type byte = x: int | 0 <= x < 256

  /** Conversion of an int to a uint8_t: reduction modulo 256. */
  function ToByte(x: int): byte
  {
    x % 256
  }

  /** `&` and `|` on octets. */
  function ByteAnd(x: byte, y: byte): (r: byte)
  {
    And(x, y)
  }

  function ByteOr(x: byte, y: byte): (r: byte)
  {
    ByteOrBound(x, y);
    Or(x, y)
  }

  lemma ByteOrBound(x: byte, y: byte)
    ensures Or(x, y) < 256
  {
    assert Pow2(8) == 256;
    OrBound(x, y, 8);
  }

  /** The number the bytes a[lo..hi] denote, most significant first. */
  function Value(a: seq<byte>, lo: nat, hi: nat): nat
    requires lo <= hi <= |a|
    decreases hi - lo
  {
    if hi == lo then 0 else Value(a, lo, hi - 1) * 256 + a[hi - 1]
  }

  /** The number a whole vector denotes. */
  function ToNat(a: seq<byte>): nat
  {
    Value(a, 0, |a|)
  }

  function Zeros(n: nat): (r: seq<byte>)
    ensures |r| == n && forall i :: 0 <= i < n ==> r[i] == 0
  {
    seq(n, _ => 0)
  }

  function Ones(n: nat): (r: seq<byte>)
    ensures |r| == n && forall i :: 0 <= i < n ==> r[i] == 0xFF
  {
    seq(n, _ => 0xFF)
  }

  lemma {:induction false} ValueBound(a: seq<byte>, lo: nat, hi: nat)
    requires lo <= hi <= |a|
    ensures Value(a, lo, hi) < Pow256(hi - lo)
    decreases hi - lo
  {
    if hi > lo {
      ValueBound(a, lo, hi - 1);
    }
  }

  lemma ToNatBound(a: seq<byte>)
    ensures ToNat(a) < Pow256(|a|)
  {
    ValueBound(a, 0, |a|);
  }

  /** The value of a[lo..hi] is the value of a[lo..mid] shifted past a[mid..hi], plus that of a[mid..hi]. */
  lemma {:induction false} ValueSplit(a: seq<byte>, lo: nat, mid: nat, hi: nat)
    requires lo <= mid <= hi <= |a|
    ensures Value(a, lo, hi) == Scale(Value(a, lo, mid), hi - mid) + Value(a, mid, hi)
    decreases hi - mid
  {
    if hi > mid {
      ValueSplit(a, lo, mid, hi - 1);
    }
  }

  /** The value of a stretch depends on its bytes only. */
  lemma {:induction false} ValueShift(a: seq<byte>, b: seq<byte>, d: nat, lo: nat, hi: nat)
    requires lo <= hi <= |a| && hi + d <= |b|
    requires forall i :: lo <= i < hi ==> b[i + d] == a[i]
    ensures Value(b, lo + d, hi + d) == Value(a, lo, hi)
    decreases hi - lo
  {
    if hi > lo {
      ValueShift(a, b, d, lo, hi - 1);
    }
  }

  lemma ValueSame(a: seq<byte>, b: seq<byte>, lo: nat, hi: nat)
    requires lo <= hi <= |a| && hi <= |b|
    requires forall i :: lo <= i < hi ==> b[i] == a[i]
    ensures Value(b, lo, hi) == Value(a, lo, hi)
  {
    ValueShift(a, b, 0, lo, hi);
  }

  /** Replacing byte k, below n, changes the value of the first n bytes by the
      difference times 256^(n - 1 - k). */
  lemma {:induction false} ValueUpdate(a: seq<byte>, k: nat, b: byte, n: nat)
    requires k < n <= |a|
    ensures Value(a[k := b], 0, n) == Value(a, 0, n) + Scale(b - a[k], n - 1 - k)
  {
    if n == k + 1 {
      ValueSame(a, a[k := b], 0, k);
    } else {
      ValueUpdate(a, k, b, n - 1);
    }
  }

  /** Replacing byte k changes the value by the difference times 256^(bytes after k). */
  lemma ToNatUpdate(a: seq<byte>, k: nat, b: byte)
    requires k < |a|
    ensures ToNat(a[k := b]) == ToNat(a) + Scale(b - a[k], |a| - 1 - k)
  {
    ValueUpdate(a, k, b, |a|);
  }

  /** A byte put in front counts 256^(width of the rest). */
  lemma ValueFront(b: seq<byte>, a: seq<byte>)
    requires |b| == |a| + 1 && forall i :: 0 <= i < |a| ==> b[i + 1] == a[i]
    ensures ToNat(b) == Scale(b[0], |a|) + ToNat(a)
  {
    ValueSplit(b, 0, 1, |b|);
    ValueShift(a, b, 1, 0, |a|);
  }

  lemma ToNatCons(c: byte, a: seq<byte>)
    ensures ToNat([c] + a) == Scale(c, |a|) + ToNat(a)
  {
    var b := [c] + a;
    assert forall i :: 0 <= i < |a| ==> b[i + 1] == a[i];
    ValueFront(b, a);
  }

  lemma {:induction false} ValueZeros(a: seq<byte>, lo: nat, hi: nat)
    requires lo <= hi <= |a| && forall i :: lo <= i < hi ==> a[i] == 0
    ensures Value(a, lo, hi) == 0
    decreases hi - lo
  {
    if hi > lo {
      ValueZeros(a, lo, hi - 1);
    }
  }

  lemma {:induction false} ValueOnes(a: seq<byte>, lo: nat, hi: nat)
    requires lo <= hi <= |a| && forall i :: lo <= i < hi ==> a[i] == 0xFF
    ensures Value(a, lo, hi) == Pow256(hi - lo) - 1
    decreases hi - lo
  {
    if hi > lo {
      ValueOnes(a, lo, hi - 1);
    }
  }

  lemma ToNatZeros(n: nat)
    ensures ToNat(Zeros(n)) == 0
  {
    ValueZeros(Zeros(n), 0, n);
  }

  lemma ToNatOnes(n: nat)
    ensures ToNat(Ones(n)) == Pow256(n) - 1
  {
    ValueOnes(Ones(n), 0, n);
  }

  /** Equal values of the first n bytes mean equal bytes. */
  lemma {:induction false} ValueInjective(a: seq<byte>, b: seq<byte>, n: nat)
    requires n <= |a| && n <= |b| && Value(a, 0, n) == Value(b, 0, n)
    ensures forall i :: 0 <= i < n ==> a[i] == b[i]
  {
    if n > 0 {
      ValueBound(a, 0, n - 1);
      ValueBound(b, 0, n - 1);
      DivModUnique(Value(a, 0, n), 256, Value(a, 0, n - 1), a[n - 1]);
      DivModUnique(Value(b, 0, n), 256, Value(b, 0, n - 1), b[n - 1]);
      ValueInjective(a, b, n - 1);
    }
  }

  /** Two vectors of one width that denote the same number are equal. */
  lemma ToNatInjective(a: seq<byte>, b: seq<byte>)
    requires |a| == |b| && ToNat(a) == ToNat(b)
    ensures a == b
  {
    ValueInjective(a, b, |a|);
  }

  /** The last byte of a vector is its value modulo 256. */
  lemma LastByte(a: seq<byte>)
    requires |a| > 0
    ensures a[|a| - 1] == ToNat(a) % 256
  {
    DivModUnique(ToNat(a), 256, Value(a, 0, |a| - 1), a[|a| - 1]);
  }

  /** The value of the first q + 1 bytes is that of the first q, shifted, plus byte q. */
  lemma ValueStep(b: seq<byte>, q: nat)
    requires q < |b|
    ensures Value(b, 0, q + 1) == Value(b, 0, q) * 256 + b[q]
  {
  }

  /** A vector cut after its first q bytes, with k == |b| - q bytes after the cut. */
  lemma ValueCut(b: seq<byte>, q: nat, k: nat)
    requires q <= |b| && k == |b| - q
    ensures ToNat(b) == Scale(Value(b, 0, q), k) + Value(b, q, |b|)
  {
    ValueSplit(b, 0, q, |b|);
  }

  /** A vector cut around byte q, with k == |b| - q - 1 bytes after it. */
  lemma ValueAround(b: seq<byte>, q: nat, k: nat)
    requires q < |b| && k == |b| - q - 1
    ensures ToNat(b) == Scale(Value(b, 0, q) * 256 + b[q], k) + Value(b, q + 1, |b|)
  {
    ValueCut(b, q + 1, k);
    ScaleOfStep(b, q, k);
  }

  lemma ScaleOfStep(b: seq<byte>, q: nat, k: nat)
    requires q < |b|
    ensures Scale(Value(b, 0, q + 1), k) == Scale(Value(b, 0, q) * 256 + b[q], k)
  {
    ValueStep(b, q);
  }
}
