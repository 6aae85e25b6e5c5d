/** Network masks: a prefix length and the octets whose leading
    prefix-length bits are set. */
module Masks {
  import opened Errors
  import opened Arith
  import opened Numerals
  import opened Bytes
  import opened Bits

  /** MASK_MIN_PREFIX and MASK_MAX_PREFIX. */
  const MinPrefix: int := 1
  const MaxPrefix: int := 128

  datatype Mask = Mask(prefixLength: int, octets: seq<byte>)

  /** `Mask()`: prefix length 1 and, unlike `Mask(1)`, no octets at all. */
  function DefaultMask(): (m: Mask)
    ensures m.prefixLength == MinPrefix && |m.octets| == 0
  {
    Mask(MinPrefix, [])
  }

  predicate IsValidPrefixLength(p: int)
  {
    MinPrefix <= p <= MaxPrefix
  }

  /** `static_cast<uint8_t>(0xFF << (8 - r))`: the octet with its r leading bits set,
      tabulated for r = 1..7. */
  function PartialOctet(r: int): byte
    requires 1 <= r <= 7
  {
    if r == 1 then 0x80
    else if r == 2 then 0xC0
    else if r == 3 then 0xE0
    else if r == 4 then 0xF0
    else if r == 5 then 0xF8
    else if r == 6 then 0xFC
    else 0xFE
  }

  /** The table is the shift: 255 * 2^(8-r) reduced to a byte, which is 256 - 2^(8-r). */
  lemma PartialOctetValue(r: int)
    requires 1 <= r <= 7
    ensures PartialOctet(r) == (0xFF * Pow2(8 - r)) % 256 == 256 - Pow2(8 - r)
  {
    assert Pow2(1) == 2 && Pow2(2) == 4 && Pow2(3) == 8 && Pow2(4) == 16;
    assert Pow2(5) == 32 && Pow2(6) == 64 && Pow2(7) == 128;
  }

  /** The octets the construction loop emits for prefix length p. */
  function PrefixOctets(p: nat): (r: seq<byte>)
    ensures |r| == (p + 7) / 8
  {
    if p == 0 then []
    else if p >= 8 then [0xFF] + PrefixOctets(p - 8)
    else [PartialOctet(p)]
  }

  /** `Mask(p)`: rejects p outside 1..128, else pushes 255 per whole byte of
      prefix and one partial octet for the remaining bits. */
  method NewMask(p: int) returns (r: Result<Mask>)
    ensures r.Ok? <==> MinPrefix <= p <= MaxPrefix
    ensures r.Err? ==> r.error == InvalidPrefixLength
    ensures r.Ok? ==> r.value.prefixLength == p && r.value.octets == PrefixOctets(p)
  {
    if !IsValidPrefixLength(p) {
      return Err(InvalidPrefixLength);
    }
    var octets: seq<byte> := [];
    var rest := p;
    while rest > 0
      invariant 0 <= rest <= p
      invariant octets + PrefixOctets(rest) == PrefixOctets(p)
    {
      if rest >= 8 {
        octets := octets + [0xFF];
        rest := rest - 8;
      } else {
        octets := octets + [PartialOctet(rest)];
        rest := 0;
      }
    }
    return Ok(Mask(p, octets));
  }

  function Size(m: Mask): nat
  {
    |m.octets|
  }

  /** `operator[]`: the octet at index i, or out_of_range past the end. */
  function At(m: Mask, i: int): (r: Result<byte>)
    ensures r.Ok? <==> 0 <= i < Size(m)
    ensures r.Ok? ==> r.value == m.octets[i]
    ensures r.Err? ==> r.error == IndexOutOfRange
  {
    if 0 <= i < |m.octets| then Ok(m.octets[i]) else Err(IndexOutOfRange)
  }

  /** `operator~`: the same prefix length with every octet inverted; on a uint8_t,
      `~x` is 255 - x once narrowed back to eight bits. */
  function Complemented(m: Mask): (c: Mask)
    ensures c.prefixLength == m.prefixLength && |c.octets| == |m.octets|
    ensures forall i :: 0 <= i < |m.octets| ==> c.octets[i] as int + m.octets[i] as int == 0xFF
  {
    Mask(m.prefixLength, seq(|m.octets|, i requires 0 <= i < |m.octets| => 0xFF - m.octets[i]))
  }

  /** The complement loop of the source: copy the mask, then flip each octet. */
  method Complement(m: Mask) returns (c: Mask)
    ensures c == Complemented(m)
  {
    c := m;
    var i := 0;
    while i < |c.octets|
      invariant 0 <= i <= |c.octets| == |m.octets| && c.prefixLength == m.prefixLength
      invariant forall k :: 0 <= k < i ==> c.octets[k] == 0xFF - m.octets[k]
      invariant forall k :: i <= k < |c.octets| ==> c.octets[k] == m.octets[k]
    {
      c := c.(octets := c.octets[i := 0xFF - c.octets[i]]);
      i := i + 1;
    }
  }

  /** `print`: the octets in dotted decimal. */
  method Print(m: Mask) returns (s: string)
    ensures s == Dotted(m.octets)
  {
    s := WriteDotted(m.octets);
  }

  /** Inverting twice gives the mask back. */
  lemma ComplementInvolutive(m: Mask)
    ensures Complemented(Complemented(m)) == m
  {
    var c := Complemented(Complemented(m));
    assert forall i :: 0 <= i < |m.octets| ==> c.octets[i] == m.octets[i];
  }

  /** Each octet and its complement share no bit and together set all eight. */
  lemma ComplementSplits(m: Mask, i: int)
    requires 0 <= i < |m.octets|
    ensures ByteAnd(m.octets[i], Complemented(m).octets[i]) == 0
    ensures ByteOr(m.octets[i], Complemented(m).octets[i]) == 0xFF
  {
    var x := m.octets[i];
    assert Pow2(8) == 256;
    AndSelf(x);
    AndComplement(x, x, 8);
    OrComplement(x, 8);
  }

  /** Bit j of an octet sequence, counted from the most significant bit of octet 0. */
  function BitAt(octets: seq<byte>, j: nat): (b: int)
    requires j < 8 * |octets|
    ensures 0 <= b <= 1
  {
    (octets[j / 8] / Pow2(7 - j % 8)) % 2
  }

  /** Bit k of the partial octet with r leading ones. */
  lemma PartialBit(r: int, k: int)
    requires 1 <= r <= 7 && 0 <= k < 8
    ensures (PartialOctet(r) / Pow2(7 - k)) % 2 == if k < r then 1 else 0
  {
    assert Pow2(0) == 1 && Pow2(1) == 2 && Pow2(2) == 4 && Pow2(3) == 8;
    assert Pow2(4) == 16 && Pow2(5) == 32 && Pow2(6) == 64 && Pow2(7) == 128;
  }

  /** Every bit of 255 is set. */
  lemma FullBit(k: int)
    requires 0 <= k < 8
    ensures (0xFF / Pow2(7 - k)) % 2 == 1
  {
    assert Pow2(0) == 1 && Pow2(1) == 2 && Pow2(2) == 4 && Pow2(3) == 8;
    assert Pow2(4) == 16 && Pow2(5) == 32 && Pow2(6) == 64 && Pow2(7) == 128;
  }

  /** The mask of prefix length p has bit j set exactly for the first p bits. */
  lemma PrefixBits(p: nat, j: nat)
    requires j < 8 * |PrefixOctets(p)|
    ensures BitAt(PrefixOctets(p), j) == if j < p then 1 else 0
  {
    PrefixOctetsShape(p);
    var o := PrefixOctets(p);
    if j / 8 < p / 8 {
      FullBit(j % 8);
    } else {
      assert j / 8 == p / 8 && p % 8 != 0;
      PartialBit(p % 8, j % 8);
    }
  }

  /** The first p/8 octets are 255, a partial octet follows when p is not a multiple of 8. */
  lemma {:induction false} PrefixOctetsShape(p: nat)
    ensures forall i :: 0 <= i < p / 8 ==> PrefixOctets(p)[i] == 0xFF
    ensures p % 8 != 0 ==> PrefixOctets(p)[p / 8] == PartialOctet(p % 8)
  {
    if p >= 8 {
      PrefixOctetsShape(p - 8);
      var r := PrefixOctets(p);
      assert r == [0xFF] + PrefixOctets(p - 8);
      assert forall i :: 1 <= i < p / 8 ==> r[i] == PrefixOctets(p - 8)[i - 1];
    }
  }
}
