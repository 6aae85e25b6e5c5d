/** The byte-vector arithmetic of `IPAddress` and `IPv6Address`, as
    functions of the old bytes, with what each computes in the
    big-endian number view. Each carry or borrow chain is written in the
    loop's own state (the bytes, how many remain to the left, the carry),
    so the loops of the address classes can be proved against it. */
module AddressArith {
  import opened Arith
  import opened Bytes
  import opened Masks
  import opened Bits

  // ---------------------------------------------------------------- ++ and --

  /** The index of the last byte different from v, or -1 when every byte is v. */
  function LastIndexOtherThan(a: seq<byte>, v: byte): (k: int)
    ensures -1 <= k < |a|
    ensures k >= 0 ==> a[k] != v
    ensures forall j :: k < j < |a| ==> a[j] == v
  {
    LastOtherThanBelow(a, v, |a|)
  }

  /** The index of the last byte below n different from v, or -1. */
  function LastOtherThanBelow(a: seq<byte>, v: byte, n: nat): (k: int)
    requires n <= |a|
    ensures -1 <= k < n
    ensures k >= 0 ==> a[k] != v
    ensures forall j :: k < j < n ==> a[j] == v
  {
    if n == 0 then -1
    else if a[n - 1] != v then n - 1
    else LastOtherThanBelow(a, v, n - 1)
  }

  /** `operator++`: the last byte below 255 goes up by one, and the 255s after it stay. */
  function Incremented(a: seq<byte>): (r: seq<byte>)
    ensures |r| == |a|
  {
    var k := LastIndexOtherThan(a, 0xFF);
    if k < 0 then a else a[k := a[k] + 1]
  }

  /** `operator--`: the last nonzero byte goes down by one, and the zeros after it stay. */
  function Decremented(a: seq<byte>): (r: seq<byte>)
    ensures |r| == |a|
  {
    var k := LastIndexOtherThan(a, 0);
    if k < 0 then a else a[k := a[k] - 1]
  }

  /** Moving byte k by d moves the value by d * 256^(bytes after k). */
  lemma ToNatBump(a: seq<byte>, k: nat, b: byte, d: int)
    requires k < |a| && b == a[k] + d
    ensures ToNat(a[k := b]) == ToNat(a) + d * Pow256(|a| - 1 - k)
  {
    ToNatUpdate(a, k, b);
    ScalePow(d, |a| - 1 - k);
  }

  /** ++ adds 256^t, t the number of trailing 255 bytes; an all-255 vector is left unchanged. */
  lemma IncrementedValue(a: seq<byte>)
    ensures var k := LastIndexOtherThan(a, 0xFF);
      ToNat(Incremented(a)) == ToNat(a) + (if k < 0 then 0 else Pow256(|a| - 1 - k))
  {
    var k := LastIndexOtherThan(a, 0xFF);
    if k >= 0 {
      ToNatBump(a, k, a[k] + 1, 1);
    }
  }

  /** -- subtracts 256^t, t the number of trailing zero bytes; an all-zero vector is left unchanged. */
  lemma DecrementedValue(a: seq<byte>)
    ensures var k := LastIndexOtherThan(a, 0);
      ToNat(Decremented(a)) == ToNat(a) - (if k < 0 then 0 else Pow256(|a| - 1 - k))
  {
    var k := LastIndexOtherThan(a, 0);
    if k >= 0 {
      ToNatBump(a, k, a[k] - 1, -1);
    }
  }

  /** When the last byte is not 255, ++ is the successor; an all-255 vector does not move. */
  lemma IncrementIsSuccessor(a: seq<byte>)
    requires |a| > 0
    ensures a[|a| - 1] != 0xFF ==> ToNat(Incremented(a)) == ToNat(a) + 1
    ensures (forall i :: 0 <= i < |a| ==> a[i] == 0xFF) ==> Incremented(a) == a
  {
    IncrementedValue(a);
  }

  /** When the last byte is not 0, -- is the predecessor; an all-zero vector does not move. */
  lemma DecrementIsPredecessor(a: seq<byte>)
    requires |a| > 0
    ensures a[|a| - 1] != 0 ==> ToNat(Decremented(a)) == ToNat(a) - 1
    ensures (forall i :: 0 <= i < |a| ==> a[i] == 0) ==> Decremented(a) == a
  {
    DecrementedValue(a);
  }

  // ---------------------------------------------------------------- += int and -= int

  /** The `operator+=(int)` loop from the state where bytes 0..i-1 are still to visit:
      it stops once the carry is zero, and uses C++'s truncating `/` and `%`. */
  function AddCarryFrom(a: seq<byte>, i: nat, carry: int): (r: seq<byte>)
    requires i <= |a|
    ensures |r| == |a|
    decreases i
  {
    if i == 0 || carry == 0 then a
    else
      var sum := a[i - 1] + carry;
      AddCarryFrom(a[i - 1 := ToByte(TruncMod(sum, 256))], i - 1, TruncDiv(sum, 256))
  }

  /** `operator+=(int)`. */
  function AddCarry(a: seq<byte>, n: int): (r: seq<byte>)
    ensures |r| == |a|
  {
    AddCarryFrom(a, |a|, n)
  }

  /** The `operator-=(int)` loop as written, from the state where bytes 0..i-1 are still
      to visit: truncating `/` and `%`, so a negative difference yields a negative borrow. */
  function SubtractAsWrittenFrom(a: seq<byte>, i: nat, borrow: int): (r: seq<byte>)
    requires i <= |a|
    ensures |r| == |a|
    decreases i
  {
    if i == 0 || borrow == 0 then a
    else
      var diff := a[i - 1] - borrow;
      SubtractAsWrittenFrom(a[i - 1 := ToByte(TruncMod(diff, 256))], i - 1, TruncDiv(diff, 256))
  }

  /** `operator-=(int)` as written. */
  function SubtractAsWritten(a: seq<byte>, d: int): (r: seq<byte>)
    ensures |r| == |a|
  {
    SubtractAsWrittenFrom(a, |a|, d)
  }

  /** The borrow loop as intended: a negative difference borrows ceil(-diff / 256) from
      the byte before. */
  function SubtractBorrowFrom(a: seq<byte>, i: nat, borrow: int): (r: seq<byte>)
    requires i <= |a|
    ensures |r| == |a|
    decreases i
  {
    if i == 0 || borrow == 0 then a
    else
      var diff := a[i - 1] - borrow;
      SubtractBorrowFrom(a[i - 1 := ToByte(diff)], i - 1, -(diff / 256))
  }

  /** `operator-=(int)` as intended. */
  function SubtractBorrow(a: seq<byte>, d: int): (r: seq<byte>)
    ensures |r| == |a|
  {
    SubtractBorrowFrom(a, |a|, d)
  }

  /** A whole number of 256^|a| more or less leaves a vector's value modulo 256^|a| alone. */
  lemma ValueModWidth(a: seq<byte>, c: int)
    ensures (ToNat(a) + Scale(c, |a|)) % Pow256(|a|) == ToNat(a)
  {
    ToNatBound(a);
    ScalePow(c, |a|);
    DivModUnique(ToNat(a) + c * Pow256(|a|), Pow256(|a|), c, ToNat(a));
  }

  /** One step of a carry chain at byte i - 1: the low digit of the sum stays, the rest moves on. */
  lemma CarryShift(a: seq<byte>, i: nat, c: int, s: int, b: byte)
    requires 0 < i <= |a| && s == a[i - 1] + c && b == s % 256
    ensures ToNat(a[i - 1 := b]) + Scale(s / 256, |a| - i + 1) == ToNat(a) + Scale(c, |a| - i)
  {
    var m := |a| - i;
    ToNatUpdate(a, i - 1, b);
    ScaleSucc(s / 256, m);
    ScaleAdd(b - a[i - 1], s / 256 * 256, m);
  }

  /** CarryShift with the byte the loop stores: the sum reduced to a uint8_t. */
  lemma ByteStep(a: seq<byte>, i: nat, c: int, s: int)
    requires 0 < i <= |a| && s == a[i - 1] + c
    ensures ToNat(a[i - 1 := ToByte(s)]) + Scale(s / 256, |a| - i + 1) == ToNat(a) + Scale(c, |a| - i)
  {
    CarryShift(a, i, c, s, ToByte(s));
  }

  /** A carry chain that has stopped, or has run out of bytes, leaves the value as it is. */
  lemma ChainStopped(a: seq<byte>, i: nat, c: int)
    requires i <= |a| && (i == 0 || c == 0)
    ensures (ToNat(a) + Scale(c, |a| - i)) % Pow256(|a|) == ToNat(a)
  {
    if i == 0 {
      ValueModWidth(a, c);
    } else {
      ScalePow(0, |a| - i);
      ValueModWidth(a, 0);
      ScalePow(0, |a|);
    }
  }

  /** For a non-negative sum, C++'s `%` and `/` by 256 are the Euclidean ones. */
  lemma AddCarryStep(a: seq<byte>, i: nat, carry: nat)
    requires 0 < i <= |a| && carry > 0
    ensures var s := a[i - 1] + carry;
      AddCarryFrom(a, i, carry) == AddCarryFrom(a[i - 1 := ToByte(s)], i - 1, s / 256)
  {
    var s := a[i - 1] + carry;
    assert TruncMod(s, 256) == s % 256 && TruncDiv(s, 256) == s / 256;
    assert ToByte(s % 256) == ToByte(s);
  }

  /** Adding a non-negative carry at byte i - 1 adds carry * 256^(bytes after i - 1), modulo the width. */
  lemma {:induction false} AddCarryFromValue(a: seq<byte>, i: nat, carry: nat)
    requires i <= |a|
    ensures ToNat(AddCarryFrom(a, i, carry)) == (ToNat(a) + Scale(carry, |a| - i)) % Pow256(|a|)
    decreases i
  {
    if i == 0 || carry == 0 {
      ChainStopped(a, i, carry);
    } else {
      var s := a[i - 1] + carry;
      var b := ToByte(s);
      AddCarryStep(a, i, carry);
      AddCarryFromValue(a[i - 1 := b], i - 1, s / 256);
      CarryShift(a, i, carry, s, b);
    }
  }

  /** Adding a non-negative n adds n to the value, modulo 256^width. */
  lemma AddCarryValue(a: seq<byte>, n: nat)
    ensures ToNat(AddCarry(a, n)) == (ToNat(a) + n) % Pow256(|a|)
  {
    var r := AddCarryFrom(a, |a|, n);
    assert AddCarry(a, n) == r;
    assert Scale(n, |a| - |a|) == n;
    AddCarryFromValue(a, |a|, n);
  }

  lemma ScaleNegate(v: int, k: nat)
    ensures Scale(-v, k) == -Scale(v, k)
  {
    ScaleAdd(v, -v, k);
    ScalePow(0, k);
  }

  /** One intended borrow step, with the borrow stated as what the next byte must give. */
  lemma BorrowShift(a: seq<byte>, i: nat, borrow: nat, b: byte)
    requires 0 < i <= |a| && b == (a[i - 1] - borrow) % 256
    ensures var diff := a[i - 1] - borrow;
      && -(diff / 256) >= 0
      && ToNat(a[i - 1 := b]) - Scale(-(diff / 256), |a| - i + 1) == ToNat(a) - Scale(borrow, |a| - i)
  {
    var diff := a[i - 1] - borrow;
    CarryShift(a, i, -(borrow as int), diff, b);
    ScaleNegate(borrow, |a| - i);
    ScaleNegate(diff / 256, |a| - i + 1);
  }

  /** The borrow loop as intended takes borrow * 256^(bytes after i - 1) off, modulo the width. */
  lemma {:induction false} SubtractBorrowFromValue(a: seq<byte>, i: nat, borrow: nat)
    requires i <= |a|
    ensures ToNat(SubtractBorrowFrom(a, i, borrow)) == (ToNat(a) - Scale(borrow, |a| - i)) % Pow256(|a|)
    decreases i
  {
    ScaleNegate(borrow, |a| - i);
    if i == 0 || borrow == 0 {
      ChainStopped(a, i, -(borrow as int));
    } else {
      var diff := a[i - 1] - borrow;
      var b := ToByte(diff);
      BorrowShift(a, i, borrow, b);
      SubtractBorrowFromValue(a[i - 1 := b], i - 1, -(diff / 256));
    }
  }

  /** Subtracting a non-negative d as intended takes d off the value, modulo 256^width. */
  lemma SubtractBorrowValue(a: seq<byte>, d: nat)
    ensures ToNat(SubtractBorrow(a, d)) == (ToNat(a) - d) % Pow256(|a|)
  {
    var r := SubtractBorrowFrom(a, |a|, d);
    assert SubtractBorrow(a, d) == r;
    assert Scale(d, |a| - |a|) == d;
    SubtractBorrowFromValue(a, |a|, d);
  }

  /** As written, a decrement that fits in the last byte lowers that byte only, as intended. */
  lemma SubtractWithinLastByte(a: seq<byte>, d: int)
    requires |a| > 0 && 0 <= d <= a[|a| - 1]
    ensures var r := SubtractAsWritten(a, d);
      && r == SubtractBorrow(a, d)
      && r[|a| - 1] == a[|a| - 1] - d
      && (forall i :: 0 <= i < |a| - 1 ==> r[i] == a[i])
      && ToNat(r) == ToNat(a) - d
  {
    if d > 0 {
      var n := |a|;
      var diff := a[n - 1] - d;
      var b := ToByte(diff);
      assert b as int == diff;
      WithinLastByteStep(a, d);
      LastByteBump(a, b, -d);
    }
  }

  /** Changing the last byte by d changes the value by d. */
  lemma LastByteBump(a: seq<byte>, b: byte, d: int)
    requires |a| > 0 && b == a[|a| - 1] + d
    ensures ToNat(a[|a| - 1 := b]) == ToNat(a) + d
  {
    ToNatBump(a, |a| - 1, b, d);
    assert Pow256(|a| - 1 - (|a| - 1)) == 1;
  }

  lemma WithinLastByteStep(a: seq<byte>, d: int)
    requires |a| > 0 && 0 < d <= a[|a| - 1]
    ensures var b := ToByte(a[|a| - 1] - d);
      && SubtractAsWritten(a, d) == a[|a| - 1 := b]
      && SubtractBorrow(a, d) == a[|a| - 1 := b]
  {
    var n := |a|;
    var diff := a[n - 1] - d;
    var w := a[n - 1 := ToByte(diff)];
    assert TruncMod(diff, 256) == diff && TruncDiv(diff, 256) == 0 && diff / 256 == 0;
    assert ToByte(TruncMod(diff, 256)) == ToByte(diff);
    AsWrittenStep(a, n, d);
    assert SubtractAsWrittenFrom(w, n - 1, 0) == w;
    BorrowStep(a, n, d);
    assert SubtractBorrowFrom(w, n - 1, 0) == w;
  }

  /** As written, `-= 256` on a 4-byte vector ending in 3, 0 (such as 1.2.3.0) raises the
      value by 256: the borrow -1 that truncating division yields is subtracted from the
      byte before. The intended borrow lowers the value by 256. */
  lemma SubtractAsWrittenCounterexample(a: seq<byte>)
    requires |a| == 4 && a[2] == 3 && a[3] == 0
    ensures SubtractAsWritten(a, 256) == a[2 := 4]
    ensures ToNat(SubtractAsWritten(a, 256)) == ToNat(a) + 256
    ensures SubtractBorrow(a, 256) == a[2 := 2]
    ensures ToNat(SubtractBorrow(a, 256)) == ToNat(a) - 256
  {
    ExampleLastByte(a);
    ExampleThirdByte(a, a[2 := 4], a[2 := 2]);
    ToNatBump(a, 2, 4, 1);
    ToNatBump(a, 2, 2, -1);
    assert Pow256(1) == 256;
  }

  /** The same defect on `-= 1`: a last byte of 0 wraps to 255 and nothing is
      borrowed, so the value rises by 255 instead of falling by one. */
  lemma SubtractOneAsWritten(a: seq<byte>)
    requires |a| == 4 && a[3] == 0
    ensures SubtractAsWritten(a, 1) == a[3 := 255]
    ensures ToNat(SubtractAsWritten(a, 1)) == ToNat(a) + 255
  {
    var low := a[3] as int - 1;
    assert TruncMod(low, 256) == -1 && TruncDiv(low, 256) == 0;
    assert ToByte(-1) == 255;
    AsWrittenStep(a, 4, 1);
    ToNatBump(a, 3, 255, 255);
    assert Pow256(0) == 1;
  }

  /** At the last byte, 0 - 256 leaves 0 and a borrow of -1 as written, 1 as intended. */
  lemma ExampleLastByte(a: seq<byte>)
    requires |a| == 4 && a[3] == 0
    ensures SubtractAsWrittenFrom(a, 4, 256) == SubtractAsWrittenFrom(a, 3, -1)
    ensures SubtractBorrowFrom(a, 4, 256) == SubtractBorrowFrom(a, 3, 1)
  {
    var low := a[3] as int - 256;
    assert TruncMod(low, 256) == 0 && TruncDiv(low, 256) == -1 && -(low / 256) == 1;
    assert ToByte(0) == 0 && a[3 := 0] == a;
    AsWrittenStep(a, 4, 256);
    BorrowStep(a, 4, 256);
  }

  /** One pass of the `-=` loop as written, at byte i - 1. */
  lemma AsWrittenStep(a: seq<byte>, i: nat, borrow: int)
    requires 0 < i <= |a| && borrow != 0
    ensures var diff := a[i - 1] - borrow;
      SubtractAsWrittenFrom(a, i, borrow)
        == SubtractAsWrittenFrom(a[i - 1 := ToByte(TruncMod(diff, 256))], i - 1, TruncDiv(diff, 256))
  {
  }

  /** One pass of the intended borrow loop, at byte i - 1. */
  lemma BorrowStep(a: seq<byte>, i: nat, borrow: int)
    requires 0 < i <= |a| && borrow != 0
    ensures var diff := a[i - 1] - borrow;
      SubtractBorrowFrom(a, i, borrow) == SubtractBorrowFrom(a[i - 1 := ToByte(diff)], i - 1, -(diff / 256))
  {
  }

  /** At the third byte, 3 - (-1) is 4 as written, and 3 - 1 is 2 as intended; no borrow is left. */
  lemma ExampleThirdByte(a: seq<byte>, w: seq<byte>, c: seq<byte>)
    requires |a| == 4 && a[2] == 3 && w == a[2 := 4] && c == a[2 := 2]
    ensures SubtractAsWrittenFrom(a, 3, -1) == w
    ensures SubtractBorrowFrom(a, 3, 1) == c
  {
    ThirdByteAsWritten(a, w);
    ThirdByteBorrow(a, c);
  }

  lemma ThirdByteAsWritten(a: seq<byte>, w: seq<byte>)
    requires |a| == 4 && a[2] == 3 && w == a[2 := 4]
    ensures SubtractAsWrittenFrom(a, 3, -1) == w
  {
    var up := a[2] as int - -1;
    assert up == 4;
    assert TruncDiv(up, 256) == 0;
    assert ToByte(TruncMod(up, 256)) == 4;
    assert SubtractAsWrittenFrom(w, 2, 0) == w;
    AsWrittenStep(a, 3, -1);
  }

  lemma ThirdByteBorrow(a: seq<byte>, c: seq<byte>)
    requires |a| == 4 && a[2] == 3 && c == a[2 := 2]
    ensures SubtractBorrowFrom(a, 3, 1) == c
  {
    var down := a[2] as int - 1;
    assert down / 256 == 0 && ToByte(down) == 2;
    BorrowStep(a, 3, 1);
  }

  // ---------------------------------------------------------------- &= and |=

  /** `operator&=(Mask)`: byte i becomes a[i] & m[i] where the mask has octet i, 0 elsewhere. */
  function Masked(a: seq<byte>, m: seq<byte>): (r: seq<byte>)
    ensures |r| == |a|
  {
    seq(|a|, i requires 0 <= i < |a| => if i < |m| then ByteAnd(a[i], m[i]) else 0)
  }

  /** `operator|=(Mask)`: byte i becomes a[i] | m[i] where the mask has octet i, 255 elsewhere. */
  function Filled(a: seq<byte>, m: seq<byte>): (r: seq<byte>)
    ensures |r| == |a|
  {
    seq(|a|, i requires 0 <= i < |a| => if i < |m| then ByteOr(a[i], m[i]) else 0xFF)
  }

  /** Applying a mask twice is applying it once. */
  lemma MaskedIdempotent(a: seq<byte>, m: seq<byte>)
    ensures Masked(Masked(a, m), m) == Masked(a, m)
    ensures Filled(Filled(a, m), m) == Filled(a, m)
  {
    var x, y := Masked(Masked(a, m), m), Masked(a, m);
    forall i | 0 <= i < |a|
      ensures x[i] == y[i]
    {
      if i < |m| {
        AndTwice(a[i], m[i]);
      }
    }
    var u, v := Filled(Filled(a, m), m), Filled(a, m);
    forall i | 0 <= i < |a|
      ensures u[i] == v[i]
    {
      if i < |m| {
        OrTwice(a[i], m[i]);
      }
    }
  }

  /** The host bits of a masked vector are zero: masking it by the complement leaves nothing. */
  lemma MaskedClearsHostBits(a: seq<byte>, m: Mask)
    ensures Masked(Masked(a, m.octets), Complemented(m).octets) == Zeros(|a|)
  {
    var c := Complemented(m).octets;
    var x := Masked(Masked(a, m.octets), c);
    assert Pow2(8) == 256;
    forall i | 0 <= i < |a|
      ensures x[i] == 0
    {
      if i < |m.octets| {
        AndComplement(a[i], m.octets[i], 8);
      }
    }
  }

  // ------------------------------------------------ the value of a masked address

  /** In the number view, masking byte b by m keeps b's multiple of s, and filling it by
      the complement 255 - m sets the s - 1 below. */
  predicate SplitsAt(b: byte, m: byte, s: int)
    requires s > 0
  {
    ByteAnd(b, m) == b - b % s && ByteOr(b, 0xFF - m) == b - b % s + s - 1
  }

  /** A partial octet with r leading ones keeps the byte's multiple of 2^(8-r), or fills the rest. */
  lemma PartialSplits(b: byte, r: nat)
    requires 1 <= r <= 7
    ensures SplitsAt(b, PartialOctet(r), Pow2(8 - r))
  {
    PartialOctetValue(r);
    assert Pow2(8) == 256;
    AndHigh(b, PartialOctet(r), 8, 8 - r);
    OrLow(b, 8 - r);
  }

  /** A whole mask octet keeps the byte under both operations. */
  lemma FullOctet(b: byte)
    ensures ByteAnd(b, 0xFF) == b && ByteOr(b, 0) == b
  {
    assert Pow2(8) == 256;
    AndLow(b, 8);
  }

  /** Whole mask bytes keep the address byte, under both masking and filling. */
  lemma MaskedHead(a: seq<byte>, p: nat)
    requires p <= 8 * |a|
    ensures var x, y := Masked(a, PrefixOctets(p)), Filled(a, Complemented(Mask(p, PrefixOctets(p))).octets);
      forall i :: 0 <= i < p / 8 ==> x[i] == a[i] && y[i] == a[i]
  {
    PrefixOctetsShape(p);
    var m := PrefixOctets(p);
    var c := Complemented(Mask(p, m)).octets;
    forall i | 0 <= i < p / 8
      ensures ByteAnd(a[i], m[i]) == a[i] && ByteOr(a[i], c[i]) == a[i]
    {
      FullOctet(a[i]);
    }
  }

  /** Past the mask, masking clears and filling sets every byte. */
  lemma MaskedTail(a: seq<byte>, p: nat)
    requires p <= 8 * |a|
    ensures var x, y := Masked(a, PrefixOctets(p)), Filled(a, Complemented(Mask(p, PrefixOctets(p))).octets);
      forall i :: (p + 7) / 8 <= i < |a| ==> x[i] == 0 && y[i] == 0xFF
  {
  }

  /** The byte the prefix ends in is cut by the partial octet. */
  lemma MaskedCut(a: seq<byte>, p: nat)
    requires p <= 8 * |a| && p % 8 != 0
    ensures var x, y := Masked(a, PrefixOctets(p)), Filled(a, Complemented(Mask(p, PrefixOctets(p))).octets);
      && p / 8 < |a|
      && x[p / 8] == ByteAnd(a[p / 8], PartialOctet(p % 8))
      && y[p / 8] == ByteOr(a[p / 8], 0xFF - PartialOctet(p % 8))
  {
    PrefixOctetsShape(p);
  }

  lemma WholeBlockArith(u: int, y: int, w: int)
    requires 0 <= y < w
    ensures var x := u * w + y;
      && u * w == x - x % w
      && u * w + (w - 1) == x - x % w + w - 1
  {
    DivModUnique(u * w + y, w, u, y);
  }

  /** The arithmetic behind the partial case: splitting x*256 + c at bit 8-r of c. */
  lemma BlockArith(x: int, c: int, y: int, s: int, t: int, w: int)
    requires s >= 1 && t * s == 256 && w >= 1 && 0 <= c < 256 && 0 <= y < w
    ensures ((x * 256 + c) * w + y) % (s * w) == (c % s) * w + y
  {
    var q := x * t + c / s;
    assert c == (c / s) * s + c % s;
    assert (x * 256 + c) * w + y == q * (s * w) + ((c % s) * w + y) by {
      assert x * 256 == x * t * s;
      assert (x * 256 + c) * w == (x * t * s + (c / s) * s) * w + (c % s) * w;
      assert (x * t * s + (c / s) * s) * w == q * (s * w);
    }
    assert (c % s) * w <= (s - 1) * w by {
      MulLeq(c % s, s - 1, w);
    }
    DivModUnique((x * 256 + c) * w + y, s * w, q, (c % s) * w + y);
  }

  lemma BlockRegroup(x: int, c: int, y: int, s: int, w: int)
    requires s >= 1
    ensures var v := (x * 256 + c) * w + y;
      && (x * 256 + (c - c % s)) * w + 0 == v - ((c % s) * w + y)
      && (x * 256 + (c - c % s + s - 1)) * w + (w - 1) == v - ((c % s) * w + y) + s * w - 1
  {
    assert (x * 256 + (c - c % s)) * w == (x * 256 + c) * w - (c % s) * w;
    assert (x * 256 + (c - c % s + s - 1)) * w == (x * 256 + c) * w - (c % s) * w + (s - 1) * w;
    assert (s - 1) * w + (w - 1) == s * w - 1;
  }

  lemma PartialBlockArith(u: int, c: int, y: int, s: int, t: int, w: int)
    requires s >= 1 && t * s == 256 && w >= 1 && 0 <= c < 256 && 0 <= y < w
    ensures var x := (u * 256 + c) * w + y;
      && (u * 256 + (c - c % s)) * w == x - x % (s * w)
      && (u * 256 + (c - c % s + s - 1)) * w + (w - 1) == x - x % (s * w) + s * w - 1
  {
    BlockArith(u, c, y, s, t, w);
    BlockRegroup(u, c, y, s, w);
  }

  /** The host bits of a prefix ending inside a byte: 2^(8-r) in that byte times 256^z after it. */
  lemma PartialWidth(n: nat, p: nat)
    requires p % 8 != 0 && p <= 8 * n
    ensures var q, r := p / 8, p % 8;
      && q < n
      && Pow2(8 * n - p) == Pow2(8 - r) * Pow256(n - q - 1)
      && Pow2(r) * Pow2(8 - r) == 256
  {
    var q, r, z := p / 8, p % 8, n - p / 8 - 1;
    Pow256IsPow2(z);
    Pow2Add(8 - r, 8 * z);
    assert 8 - r + 8 * z == 8 * n - p;
    Pow2Add(r, 8 - r);
    assert Pow2(8) == 256;
  }

  /** Masking by prefix p clears the value modulo 2^(host bits); filling by its complement
      sets every host bit. */
  lemma MaskedValue(a: seq<byte>, p: nat)
    requires p <= 8 * |a|
    ensures var x, h := ToNat(a), Pow2(8 * |a| - p);
      && ToNat(Masked(a, PrefixOctets(p))) == x - x % h
      && ToNat(Filled(a, Complemented(Mask(p, PrefixOctets(p))).octets)) == x - x % h + h - 1
  {
    if p % 8 == 0 {
      MaskedWholeValue(a, p);
    } else {
      MaskedPartialValue(a, p);
    }
  }

  lemma MaskedWholeValue(a: seq<byte>, p: nat)
    requires p % 8 == 0 && p <= 8 * |a|
    ensures var x, h := ToNat(a), Pow2(8 * |a| - p);
      && ToNat(Masked(a, PrefixOctets(p))) == x - x % h
      && ToNat(Filled(a, Complemented(Mask(p, PrefixOctets(p))).octets)) == x - x % h + h - 1
  {
    MaskedHead(a, p);
    MaskedTail(a, p);
    WholeWidth(|a|, p);
    WholeValue(a, Masked(a, PrefixOctets(p)), Filled(a, Complemented(Mask(p, PrefixOctets(p))).octets),
      p / 8, Pow2(8 * |a| - p));
  }

  /** The host bits of a prefix ending on a byte boundary: 256^(bytes after it). */
  lemma WholeWidth(n: nat, p: nat)
    requires p % 8 == 0 && p <= 8 * n
    ensures p / 8 <= n && Pow2(8 * n - p) == Pow256(n - p / 8)
  {
    var z := n - p / 8;
    Pow256IsPow2(z);
    assert 8 * z == 8 * n - p;
  }

  /** A vector whose first q bytes are a's and whose rest is zeros (x) or 255s (y). */
  lemma WholeValue(a: seq<byte>, x: seq<byte>, y: seq<byte>, q: nat, h: int)
    requires q <= |a| == |x| == |y| && h == Pow256(|a| - q)
    requires forall i :: 0 <= i < q ==> x[i] == a[i] && y[i] == a[i]
    requires forall i :: q <= i < |a| ==> x[i] == 0 && y[i] == 0xFF
    ensures ToNat(x) == ToNat(a) - ToNat(a) % h && ToNat(y) == ToNat(a) - ToNat(a) % h + h - 1
  {
    var n, z := |a|, |a| - q;
    ValueCut(a, q, z);
    ValueCut(x, q, z);
    ValueCut(y, q, z);
    ValueSame(a, x, 0, q);
    ValueSame(a, y, 0, q);
    ValueZeros(x, q, n);
    ValueOnes(y, q, n);
    ValueBound(a, q, n);
    WholeBlock(ToNat(a), ToNat(x), ToNat(y), Value(a, 0, q), Value(a, q, n), z);
  }

  lemma WholeBlock(x: int, xm: int, xf: int, u: int, v: int, z: nat)
    requires x == Scale(u, z) + v && xm == Scale(u, z) + 0 && xf == Scale(u, z) + (Pow256(z) - 1)
    requires 0 <= v < Pow256(z)
    ensures xm == x - x % Pow256(z) && xf == x - x % Pow256(z) + Pow256(z) - 1
  {
    ScalePow(u, z);
    WholeBlockArith(u, v, Pow256(z));
  }

  lemma MaskedPartialValue(a: seq<byte>, p: nat)
    requires p % 8 != 0 && p <= 8 * |a|
    ensures var x, h := ToNat(a), Pow2(8 * |a| - p);
      && ToNat(Masked(a, PrefixOctets(p))) == x - x % h
      && ToNat(Filled(a, Complemented(Mask(p, PrefixOctets(p))).octets)) == x - x % h + h - 1
  {
    MaskedHead(a, p);
    MaskedTail(a, p);
    CutSplits(a, p);
    PartialValueAt(a, Masked(a, PrefixOctets(p)), Filled(a, Complemented(Mask(p, PrefixOctets(p))).octets), p);
  }

  /** The byte the prefix ends in keeps its multiple of 2^(host bits in it), or fills the rest. */
  lemma CutSplits(a: seq<byte>, p: nat)
    requires p % 8 != 0 && p <= 8 * |a|
    ensures var x, y := Masked(a, PrefixOctets(p)), Filled(a, Complemented(Mask(p, PrefixOctets(p))).octets);
      var q, s := p / 8, Pow2(8 - p % 8);
      && q < |a|
      && x[q] == a[q] - a[q] % s && y[q] == a[q] - a[q] % s + s - 1
  {
    MaskedCut(a, p);
    PartialSplits(a[p / 8], p % 8);
  }

  /** The value of a vector cut at the byte the prefix ends in. */
  lemma PartialValueAt(a: seq<byte>, x: seq<byte>, y: seq<byte>, p: nat)
    requires p % 8 != 0 && p <= 8 * |a| && |x| == |y| == |a|
    requires forall i :: 0 <= i < p / 8 ==> x[i] == a[i] && y[i] == a[i]
    requires forall i :: (p + 7) / 8 <= i < |a| ==> x[i] == 0 && y[i] == 0xFF
    requires p / 8 < |a| && x[p / 8] == a[p / 8] - a[p / 8] % Pow2(8 - p % 8)
    requires y[p / 8] == a[p / 8] - a[p / 8] % Pow2(8 - p % 8) + Pow2(8 - p % 8) - 1
    ensures var v, h := ToNat(a), Pow2(8 * |a| - p);
      ToNat(x) == v - v % h && ToNat(y) == v - v % h + h - 1
  {
    PartialWidth(|a|, p);
    assert (p + 7) / 8 == p / 8 + 1;
    PartialValue(a, x, y, p / 8, Pow2(8 - p % 8), Pow2(p % 8), Pow2(8 * |a| - p));
  }

  /** A vector whose first q bytes are a's, whose byte q keeps a[q]'s multiple of s (x) or
      fills the rest (y), and whose remaining bytes are zeros (x) or 255s (y). */
  lemma PartialValue(a: seq<byte>, x: seq<byte>, y: seq<byte>, q: nat, s: int, t: int, h: int)
    requires q < |a| == |x| == |y| && s >= 1 && t * s == 256 && h == s * Pow256(|a| - q - 1)
    requires forall i :: 0 <= i < q ==> x[i] == a[i] && y[i] == a[i]
    requires forall i :: q + 1 <= i < |a| ==> x[i] == 0 && y[i] == 0xFF
    requires x[q] == a[q] - a[q] % s
    requires y[q] == a[q] - a[q] % s + s - 1
    ensures ToNat(x) == ToNat(a) - ToNat(a) % h && ToNat(y) == ToNat(a) - ToNat(a) % h + h - 1
  {
    var n, z := |a|, |a| - q - 1;
    ValueAround(a, q, z);
    ValueBound(a, q + 1, n);
    ZeroTail(a, x, q);
    OnesTail(a, y, q);
    PartialBlock(ToNat(a), ToNat(x), ToNat(y), Value(a, 0, q), a[q], x[q], y[q],
      Value(a, q + 1, n), s, t, z);
  }

  /** A vector that agrees with a before byte q and is zero after it. */
  lemma ZeroTail(a: seq<byte>, x: seq<byte>, q: nat)
    requires q < |a| == |x|
    requires forall i :: 0 <= i < q ==> x[i] == a[i]
    requires forall i :: q + 1 <= i < |a| ==> x[i] == 0
    ensures ToNat(x) == Scale(Value(a, 0, q) * 256 + x[q], |a| - q - 1) + 0
  {
    ValueAround(x, q, |a| - q - 1);
    ValueSame(a, x, 0, q);
    ValueZeros(x, q + 1, |a|);
  }

  /** A vector that agrees with a before byte q and is all ones after it. */
  lemma OnesTail(a: seq<byte>, y: seq<byte>, q: nat)
    requires q < |a| == |y|
    requires forall i :: 0 <= i < q ==> y[i] == a[i]
    requires forall i :: q + 1 <= i < |a| ==> y[i] == 0xFF
    ensures ToNat(y) == Scale(Value(a, 0, q) * 256 + y[q], |a| - q - 1) + (Pow256(|a| - q - 1) - 1)
  {
    ValueAround(y, q, |a| - q - 1);
    ValueSame(a, y, 0, q);
    ValueOnes(y, q + 1, |a|);
  }

  lemma PartialBlock(x: int, xm: int, xf: int, u: int, c: int, cm: int, cf: int, v: int, s: int, t: int, z: nat)
    requires s >= 1 && t * s == 256 && 0 <= c < 256 && 0 <= v < Pow256(z)
    requires cm == c - c % s && cf == c - c % s + s - 1
    requires x == Scale(u * 256 + c, z) + v && xm == Scale(u * 256 + cm, z) + 0
    requires xf == Scale(u * 256 + cf, z) + (Pow256(z) - 1)
    ensures xm == x - x % (s * Pow256(z)) && xf == x - x % (s * Pow256(z)) + s * Pow256(z) - 1
  {
    var w := Pow256(z);
    ScalePow(u * 256 + c, z);
    ScalePow(u * 256 + cm, z);
    ScalePow(u * 256 + cf, z);
    PartialBlockArith(u, c, v, s, t, w);
  }

  /** The integer side of the block lemma: the multiple of h at or below x. */
  lemma BlockOf(x: int, h: int, base: int, top: int)
    requires h >= 1 && base == x - x % h && top == x - x % h + h - 1
    ensures base % h == 0 && base <= x < base + h && top == base + h - 1
  {
    DivModUnique(x - x % h, h, x / h, 0);
  }

  /** The masked address is where its block of 2^(host bits) addresses starts: aligned,
      at or below the address, and less than one block below it; the filled one is the block's end. */
  lemma MaskedBlock(a: seq<byte>, p: nat)
    requires p <= 8 * |a|
    ensures var base, h := ToNat(Masked(a, PrefixOctets(p))), Pow2(8 * |a| - p);
      && base % h == 0
      && base <= ToNat(a) < base + h
      && ToNat(Filled(a, Complemented(Mask(p, PrefixOctets(p))).octets)) == base + h - 1
  {
    MaskedValue(a, p);
    BlockOf(ToNat(a), Pow2(8 * |a| - p), ToNat(Masked(a, PrefixOctets(p))),
      ToNat(Filled(a, Complemented(Mask(p, PrefixOctets(p))).octets)));
  }

  /** An address already aligned to its block is unchanged by the mask. */
  lemma AlignedMasked(a: seq<byte>, p: nat)
    requires p <= 8 * |a| && ToNat(a) % Pow2(8 * |a| - p) == 0
    ensures Masked(a, PrefixOctets(p)) == a
  {
    MaskedValue(a, p);
    ToNatInjective(Masked(a, PrefixOctets(p)), a);
  }

  // ---------------------------------------------------------------- IPv6 += vector

  /** Increment byte j - 1, or nothing once the increment is used up. */
  function IncrementByte(inc: seq<byte>, j: nat): (x: int)
    requires j <= |inc|
    ensures 0 <= x < 256
  {
    if j > 0 then inc[j - 1] else 0
  }

  /** The `IPv6Address::operator+=(vector)` loop from the state where address bytes 0..i-1
      and increment bytes 0..j-1 are still to visit. Once the address is used up a byte is
      put in front; with the increment no longer than the address that only happens for a
      final carry of 1, which is the byte put in front, and the loop ends. */
  function AddVectorFrom(a: seq<byte>, inc: seq<byte>, i: nat, j: nat, carry: nat): (r: seq<byte>)
    requires i <= |a| && j <= |inc| && j <= i && carry <= 1
    decreases i, carry
  {
    if j == 0 && carry == 0 then a
    else if i == 0 then [1] + a
    else
      var sum := carry + IncrementByte(inc, j) + a[i - 1];
      AddVectorFrom(a[i - 1 := ToByte(sum)], inc, i - 1, if j > 0 then j - 1 else 0, sum / 256)
  }

  /** `operator+=(vector)`, for an increment no longer than the address. */
  function AddVector(a: seq<byte>, inc: seq<byte>): (r: seq<byte>)
    requires |inc| <= |a|
  {
    AddVectorFrom(a, inc, |a|, |inc|, 0)
  }

  /** The bytes still to add, as a number: increment bytes 0..j-1 followed by the carry. */
  lemma IncrementRest(inc: seq<byte>, j: nat)
    requires j <= |inc|
    ensures var j' := if j > 0 then j - 1 else 0;
      Value(inc, 0, j) == Value(inc, 0, j') * 256 + IncrementByte(inc, j)
  {
  }

  /** One step of the vector sum: the carry and the remaining increment move one byte up. */
  lemma VectorShift(r: int, t: int, t': int, c: int, x: int, v: int, v': int, q: int, m: nat, k: nat)
    requires k == m + 1
    requires t' + Scale(q, k) == t + Scale(c + x, m) && v == v' * 256 + x
    requires r == t' + Scale(v' + q, k)
    ensures r == t + Scale(v + c, m)
  {
    ScaleAdd(v', q, m + 1);
    ScaleSucc(v', m);
    ScaleAdd(c + x, v' * 256, m);
  }

  /** The loop adds the remaining increment bytes and the carry at position i - 1: the value
      grows by exactly that much, with no wrap-around, since the address can grow. */
  lemma {:induction false} AddVectorFromValue(a: seq<byte>, inc: seq<byte>, i: nat, j: nat, carry: nat)
    requires i <= |a| && j <= |inc| && j <= i && carry <= 1
    ensures ToNat(AddVectorFrom(a, inc, i, j, carry)) == ToNat(a) + Scale(Value(inc, 0, j) + carry, |a| - i)
    decreases i, carry
  {
    if j == 0 && carry == 0 {
      ScalePow(0, |a| - i);
    } else if i == 0 {
      ToNatCons(1, a);
    } else {
      var x := IncrementByte(inc, j);
      var sum := carry + x + a[i - 1];
      var b := ToByte(sum);
      var j' := if j > 0 then j - 1 else 0;
      var a', m := a[i - 1 := b], |a| - i;
      AddVectorStep(a, inc, i, j, carry);
      AddVectorFromValue(a', inc, i - 1, j', sum / 256);
      ByteStep(a, i, carry + x, sum);
      IncrementRest(inc, j);
      VectorShift(ToNat(AddVectorFrom(a, inc, i, j, carry)), ToNat(a), ToNat(a'), carry, x,
        Value(inc, 0, j), Value(inc, 0, j'), sum / 256, m, |a| - (i - 1));
    }
  }

  /** One turn of the loop, S the sum of carry, increment byte and address byte. */
  lemma AddVectorStep(a: seq<byte>, inc: seq<byte>, i: nat, j: nat, carry: nat)
    requires 0 < i <= |a| && j <= |inc| && j <= i && carry <= 1 && (j > 0 || carry > 0)
    ensures var sum := carry + IncrementByte(inc, j) + a[i - 1];
      AddVectorFrom(a, inc, i, j, carry) ==
        AddVectorFrom(a[i - 1 := ToByte(sum)], inc, i - 1, if j > 0 then j - 1 else 0, sum / 256)
  {
  }

  /** The address keeps its width, or grows by a single leading 1. */
  lemma {:induction false} AddVectorFromShape(a: seq<byte>, inc: seq<byte>, i: nat, j: nat, carry: nat)
    requires i <= |a| && j <= |inc| && j <= i && carry <= 1
    ensures var r := AddVectorFrom(a, inc, i, j, carry);
      |r| == |a| || (|r| == |a| + 1 && r[0] == 1)
    decreases i, carry
  {
    if i > 0 && (j > 0 || carry > 0) {
      var sum := carry + IncrementByte(inc, j) + a[i - 1];
      AddVectorFromShape(a[i - 1 := ToByte(sum)], inc, i - 1, if j > 0 then j - 1 else 0, sum / 256);
    }
  }

  /** The sum is the number sum. The address keeps its width exactly when the sum fits in
      it, and otherwise grows by one byte. */
  lemma AddVectorValue(a: seq<byte>, inc: seq<byte>)
    requires |inc| <= |a|
    ensures ToNat(AddVector(a, inc)) == ToNat(a) + ToNat(inc)
    ensures |AddVector(a, inc)| == |a| <==> ToNat(a) + ToNat(inc) < Pow256(|a|)
    ensures |AddVector(a, inc)| == |a| || |AddVector(a, inc)| == |a| + 1
  {
    var r := AddVector(a, inc);
    AddVectorFromValue(a, inc, |a|, |inc|, 0);
    AddVectorFromShape(a, inc, |a|, |inc|, 0);
    if |r| == |a| {
      ToNatBound(r);
    } else {
      ValueFront(r, r[1..]);
      ScalePow(1, |a|);
    }
  }
}
