/** `IPAddress` and its two families: a big-endian byte vector that the
    operators change in place. The family tag stands for the subclass
    (`IPv4Address` or `IPv6Address`), which fixes the width, the
    prefix lengths it accepts, the text form and the `+=` on vectors. */
module Addresses {
  import opened Errors
  import opened Arith
  import opened Bytes
  import opened Masks
  import opened AddressArith
  import Utils
  import Numerals
  import IPv4
  import IPv6

  datatype Family = V4 | V6

  /** IPV4_NUM_OCTETS and IPV6_NUM_OCTETS. */
  function Width(f: Family): nat
  {
    if f == V4 then 4 else 16
  }

  /** The longest prefix the family accepts: its width in bits. */
  function MaxPrefixOf(f: Family): nat
  {
    8 * Width(f)
  }

  /** `isPrefixLengthCompatible`: 1..32 for IPv4, 1..128 for IPv6. */
  predicate IsPrefixLengthCompatible(f: Family, p: int)
  {
    if f == V4 then 1 <= p <= 32 else 1 <= p <= 128
  }

  /** A compatible prefix length is a valid mask length and does not pass the family width. */
  lemma CompatibleIsValid(f: Family, p: int)
    ensures IsPrefixLengthCompatible(f, p) <==> 1 <= p <= MaxPrefixOf(f)
    ensures IsPrefixLengthCompatible(f, p) ==> IsValidPrefixLength(p)
  {
  }

  /** `calculateCapacity`: 65536 from prefix length 32 on, whatever the family,
      and 2^(32 - p) below it. */
  function Capacity(p: int): (c: nat)
    requires p >= 1
    ensures p >= 32 ==> c == 65536
    ensures p < 32 ==> c == Pow2(32 - p)
  {
    if p >= 32 then 65536 else Pow2(32 - p)
  }

  lemma CapacityBound(p: int)
    requires p >= 1
    ensures 1 <= Capacity(p) <= Pow2(31)
  {
    if p < 32 {
      Pow2Monotone(32 - p, 31);
    } else {
      Pow2Monotone(16, 31);
      Pow256IsPow2(2);
    }
  }

  class IPAddress {
    const family: Family
    var bytes: seq<byte>

    /** The width of the family, or more after an IPv6 `+=` that carried out. */
    ghost predicate Valid()
      reads this
    {
      |bytes| >= Width(family) && (family == V4 ==> |bytes| == 4)
    }

    /** `IPAddress(size)` with the family's size: all bytes zero. */
    constructor (f: Family)
      ensures family == f && bytes == Zeros(Width(f)) && Valid()
    {
      family := f;
      bytes := Zeros(Width(f));
    }

    /** The copy constructor: a new address of family f holding the bytes b. */
    constructor Of(f: Family, b: seq<byte>)
      requires |b| >= Width(f) && (f == V4 ==> |b| == 4)
      ensures family == f && bytes == b && Valid()
    {
      family := f;
      bytes := b;
    }

    /** `clone`: an independent copy with the same bytes. */
    method Clone() returns (c: IPAddress)
      ensures fresh(c) && c.family == family && c.bytes == bytes
    {
      c := new IPAddress(family);
      c.bytes := bytes;
    }

    /** `getSize`. */
    function Size(): (n: nat)
      reads this
      ensures n == |bytes|
    {
      |bytes|
    }

    /** `operator[]` on bytes: byte i, or out_of_range at and past the size. */
    function At(i: int): (r: Result<byte>)
      reads this
      ensures r.Ok? <==> 0 <= i < |bytes|
      ensures r.Ok? ==> r.value == bytes[i]
      ensures r.Err? ==> r.error == IndexOutOfRange
    {
      if 0 <= i < |bytes| then Ok(bytes[i]) else Err(IndexOutOfRange)
    }

    /** `operator++`: from the last byte backwards, the first one below 255 goes up by one. */
    method Increment()
      modifies this
      ensures bytes == Incremented(old(bytes))
    {
      var i := |bytes|;
      while i > 0
        invariant 0 <= i <= |bytes| && bytes == old(bytes)
        invariant LastOtherThanBelow(bytes, 0xFF, i) == LastIndexOtherThan(bytes, 0xFF)
      {
        if bytes[i - 1] != 0xFF {
          bytes := bytes[i - 1 := bytes[i - 1] + 1];
          return;
        }
        i := i - 1;
      }
    }

    /** `operator--`: from the last byte backwards, the first nonzero one goes down by one. */
    method Decrement()
      modifies this
      ensures bytes == Decremented(old(bytes))
    {
      var i := |bytes|;
      while i > 0
        invariant 0 <= i <= |bytes| && bytes == old(bytes)
        invariant LastOtherThanBelow(bytes, 0, i) == LastIndexOtherThan(bytes, 0)
      {
        if bytes[i - 1] != 0 {
          bytes := bytes[i - 1 := bytes[i - 1] - 1];
          return;
        }
        i := i - 1;
      }
    }

    /** `operator+=(int)`: the carry starts as the increment and runs from the last
        byte backwards until it is zero. The requires rule out the signed overflow
        of the first sum; later carries are at most 2^23 in size. */
    method AddInt(n: int)
      requires -MaxInt - 1 <= n <= MaxInt
      requires |bytes| > 0 ==> bytes[|bytes| - 1] + n <= MaxInt
      modifies this
      ensures bytes == AddCarry(old(bytes), n)
    {
      var carry := n;
      var i := |bytes|;
      while i > 0
        invariant 0 <= i <= |bytes| == |old(bytes)|
        invariant AddCarryFrom(bytes, i, carry) == AddCarry(old(bytes), n)
        invariant i == |bytes| ==> bytes == old(bytes)
        invariant i == |bytes| ==> carry == n
        invariant i < |bytes| ==> -0x80_0000 <= carry <= 0x80_0000
      {
        if carry == 0 {
          break;
        }
        var sum := bytes[i - 1] + carry;
        assert -MaxInt - 1 <= sum <= MaxInt;
        bytes := bytes[i - 1 := ToByte(TruncMod(sum, 256))];
        TruncDivSmall(sum);
        carry := TruncDiv(sum, 256);
        i := i - 1;
      }
    }

    /** `operator-=(int)` as written: the borrow starts as the decrement, and each
        step keeps the truncated remainder and passes on the truncated quotient. */
    method SubtractInt(d: int)
      requires -MaxInt - 1 <= d <= MaxInt
      requires |bytes| > 0 ==> bytes[|bytes| - 1] - d <= MaxInt
      modifies this
      ensures bytes == SubtractAsWritten(old(bytes), d)
    {
      var borrow := d;
      var i := |bytes|;
      while i > 0
        invariant 0 <= i <= |bytes| == |old(bytes)|
        invariant SubtractAsWrittenFrom(bytes, i, borrow) == SubtractAsWritten(old(bytes), d)
        invariant i == |bytes| ==> bytes == old(bytes)
        invariant i == |bytes| ==> borrow == d
        invariant i < |bytes| ==> -0x80_0000 <= borrow <= 0x80_0000
      {
        if borrow == 0 {
          break;
        }
        var difference := bytes[i - 1] - borrow;
        assert -MaxInt - 1 <= difference <= MaxInt;
        bytes := bytes[i - 1 := ToByte(TruncMod(difference, 256))];
        TruncDivSmall(difference);
        borrow := TruncDiv(difference, 256);
        i := i - 1;
      }
    }

    /** `operator&=(Mask)`: a forward pass that ands in octet `maskIndex` while the
        mask lasts and clears the byte once it is exhausted. */
    method AndMask(m: Mask)
      modifies this
      ensures bytes == Masked(old(bytes), m.octets)
    {
      var maskIndex := 0;
      var i := 0;
      while i < |bytes|
        invariant 0 <= i <= |bytes| == |old(bytes)|
        invariant maskIndex == if i < |m.octets| then i else |m.octets|
        invariant forall k :: 0 <= k < i ==> bytes[k] == Masked(old(bytes), m.octets)[k]
        invariant forall k :: i <= k < |bytes| ==> bytes[k] == old(bytes)[k]
      {
        if maskIndex < |m.octets| {
          bytes := bytes[i := ByteAnd(bytes[i], m.octets[maskIndex])];
          maskIndex := maskIndex + 1;
        } else {
          bytes := bytes[i := 0];
        }
        i := i + 1;
      }
    }

    /** `operator|=(Mask)`: as `&=`, with `|` and 255 once the mask is exhausted. */
    method OrMask(m: Mask)
      modifies this
      ensures bytes == Filled(old(bytes), m.octets)
    {
      var maskIndex := 0;
      var i := 0;
      while i < |bytes|
        invariant 0 <= i <= |bytes| == |old(bytes)|
        invariant maskIndex == if i < |m.octets| then i else |m.octets|
        invariant forall k :: 0 <= k < i ==> bytes[k] == Filled(old(bytes), m.octets)[k]
        invariant forall k :: i <= k < |bytes| ==> bytes[k] == old(bytes)[k]
      {
        if maskIndex < |m.octets| {
          bytes := bytes[i := ByteOr(bytes[i], m.octets[maskIndex])];
          maskIndex := maskIndex + 1;
        } else {
          bytes := bytes[i := 0xFF];
        }
        i := i + 1;
      }
    }

    /** `IPv6Address::operator+=(vector)`: two reverse iterators and a carry; the loop
        runs while increment bytes or a carry remain, and puts a byte in front once the
        address is used up. `sum & 0xFF` and `sum >> 8` are `% 256` and `/ 256` on the
        non-negative sum. */
    method AddBytes(inc: seq<byte>)
      requires family == V6 && |inc| <= |bytes|
      modifies this
      ensures bytes == AddVector(old(bytes), inc)
    {
      var carry: nat := 0;
      var i: nat, j: nat := |bytes|, |inc|;
      while j > 0 || carry != 0
        invariant j <= |inc| && j <= i <= |bytes| && 0 <= carry <= 1
        invariant AddVectorFrom(bytes, inc, i, j, carry) == AddVector(old(bytes), inc)
        decreases i, carry
      {
        var sum: nat := carry;
        if j > 0 {
          sum := sum + inc[j - 1];
          j := j - 1;
        }
        if i > 0 {
          sum := sum + bytes[i - 1];
          bytes := bytes[i - 1 := ToByte(sum)];
          i := i - 1;
        } else {
          bytes := [ToByte(sum)] + bytes;
        }
        carry := sum / 256;
      }
    }
  
    /** `IPv6Address::operator[]`: hextet i, or out_of_range from 8 on. */
    function Hextet(index: nat): (r: Result<int>)
      reads this
      requires family == V6 && Valid()
      ensures r.Ok? <==> index < IPv6.NumHextets
      ensures r.Ok? ==> 0 <= r.value <= 0xFFFF && r.value == IPv6.Hextets(bytes)[index]
      ensures r.Err? ==> r.error == IndexOutOfRange
    {
      if index >= IPv6.NumHextets then Err(IndexOutOfRange)
      else Ok(bytes[2 * index] as int * 256 + bytes[2 * index + 1])
    }

    /** `findLongestZeroSequence`: one pass over the hextets that closes a run at each
        nonzero hextet and once more after the last. */
    method FindLongestZeroSequence() returns (start: int, end: int)
      requires family == V6 && Valid()
      ensures (start, end) == IPv6.LongestZeroRun(IPv6.Hextets(bytes))
    {
      ghost var h := IPv6.Hextets(bytes);
      var longestStart, longestLength := -1, 0;
      var currentStart, currentLength := -1, 0;
      var i := 0;
      while i < IPv6.NumHextets
        invariant 0 <= i <= IPv6.NumHextets && 0 <= currentLength <= i && 0 <= longestLength
        invariant currentStart == if currentLength == 0 then -1 else i - currentLength
        invariant IPv6.ScanFrom(h, i, currentLength, longestStart, longestLength) == IPv6.LongestZeroRun(h)
      {
        var hextet := Hextet(i).value;
        if hextet == 0 {
          if currentStart == -1 {
            currentStart := i;
          }
          currentLength := currentLength + 1;
        } else {
          if currentLength > longestLength {
            longestStart := currentStart;
            longestLength := currentLength;
          }
          currentStart := -1;
          currentLength := 0;
        }
        i := i + 1;
      }
      if currentLength > longestLength {
        longestStart := currentStart;
        longestLength := currentLength;
      }
      if longestStart == -1 {
        start, end := -1, -1;
      } else {
        start, end := longestStart, longestStart + longestLength - 1;
      }
    }

    /** `print`: dotted decimal for IPv4; for IPv6 the hextets in hex, the longest
        zero run replaced by a single ":" as written. */
    method Print() returns (s: string)
      requires Valid()
      ensures family == V4 ==> s == Numerals.Dotted(bytes)
      ensures family == V6 ==> s == IPv6.PrintAsWritten(bytes)
    {
      if family == V4 {
        s := Numerals.WriteDotted(bytes);
      } else {
        s := PrintHextets();
      }
    }

    method PrintHextets() returns (s: string)
      requires family == V6 && Valid()
      ensures s == IPv6.PrintAsWritten(bytes)
    {
      ghost var h := IPv6.Hextets(bytes);
      var start, end := FindLongestZeroSequence();
      s := "";
      var i := 0;
      while i < IPv6.NumHextets
        invariant 0 <= i <= IPv6.NumHextets
        invariant s == IPv6.Printed(h, start, end, i, false)
      {
        var opening := "";
        if i == start {
          opening := ":";
        }
        var written := "";
        if !(i >= start && i <= end) {
          var hextet := Hextet(i).value;
          written := Numerals.Numeral(hextet, 16);
          if i < IPv6.NumHextets - 1 && i != end {
            written := written + ":";
          }
        }
        IPv6.PrintedStep(h, start, end, i, opening, written);
        s := s + (opening + written);
        i := i + 1;
      }
    }

    /** `IPv4Address::setAddress`: four "."-separated parts, each checked and stored in
        turn; the first part that fails stops the pass. */
    method SetAddressV4(text: string) returns (r: Outcome)
      requires family == V4 && Valid()
      modifies this
      ensures Valid()
      ensures r.Pass? <==> IPv4.Parse(text).Ok?
      ensures r.Pass? ==> bytes == IPv4.Parse(text).value
      ensures r.Fail? ==> r.error == IPv4.Parse(text).error
    {
      var octets := Utils.Split(text, ".");
      if |octets| != IPv4.NumOctets {
        return Fail(InvalidAddressFormat);
      }
      var i := 0;
      while i < IPv4.NumOctets
        invariant 0 <= i <= IPv4.NumOctets && |bytes| == IPv4.NumOctets
        invariant forall k :: 0 <= k < i ==> IPv4.OctetText(octets[k]) && bytes[k] == Numerals.DigitsValue(octets[k], 10)
      {
        var octet := octets[i];
        if |octet| == 0 || !Numerals.DigitsIn(octet, 10) {
          return Fail(InvalidAddressFormat);
        }
        var octetValue := Numerals.DigitsValue(octet, 10);
        if octetValue > 255 {
          return Fail(InvalidAddressFormat);
        }
        bytes := bytes[i := octetValue];
        i := i + 1;
      }
      assert bytes == IPv4.Parse(text).value;
      r := Pass;
    }

    /** `IPv6Address::setAddress`: the "::" expansion, then eight hextets, each checked
        and stored as two bytes in turn. Bytes past the sixteenth are left alone. */
    method SetAddressV6(text: string) returns (r: Outcome)
      requires family == V6 && Valid()
      modifies this
      ensures Valid() && |bytes| == |old(bytes)|
      ensures r.Pass? <==> IPv6.Parse(text).Ok?
      ensures r.Pass? ==> bytes == IPv6.Parse(text).value + old(bytes)[IPv6.NumOctets..]
      ensures r.Fail? ==> r.error == IPv6.Parse(text).error
    {
      var expanded := ExpandHextets(text);
      if expanded.Err? {
        return Fail(expanded.error);
      }
      var hextets := expanded.value;
      if |hextets| != IPv6.NumHextets {
        return Fail(InvalidAddressFormat);
      }
      var stored := StoreHextets(hextets);
      if !stored {
        return Fail(InvalidAddressFormat);
      }
      r := Pass;
    }

    /** The loop of `IPv6Address::setAddress`: each hextet checked and stored as two bytes
        in turn; the first one that fails stops it. */
    method StoreHextets(hextets: seq<string>) returns (stored: bool)
      requires |hextets| == IPv6.NumHextets && family == V6 && Valid()
      modifies this
      ensures Valid() && |bytes| == |old(bytes)|
      ensures stored <==> forall k :: 0 <= k < IPv6.NumHextets ==> IPv6.HextetText(hextets[k])
      ensures stored ==> bytes == IPv6.OctetsOf(IPv6.HextetValues(hextets)) + old(bytes)[IPv6.NumOctets..]
    {
      var i := 0;
      while i < IPv6.NumHextets
        invariant 0 <= i <= IPv6.NumHextets && |bytes| == |old(bytes)|
        invariant bytes[IPv6.NumOctets..] == old(bytes)[IPv6.NumOctets..]
        invariant forall k :: 0 <= k < i ==> IPv6.HextetText(hextets[k])
        invariant forall k :: 0 <= k < i ==>
          bytes[2 * k] == Numerals.DigitsValue(hextets[k], 16) / 256 && bytes[2 * k + 1] == Numerals.DigitsValue(hextets[k], 16) % 256
      {
        var hextet := hextets[i];
        if |hextet| == 0 || !Numerals.DigitsIn(hextet, 16) {
          return false;
        }
        var hextetValue := Numerals.DigitsValue(hextet, 16);
        if hextetValue > 0xFFFF {
          return false;
        }
        var j := i * 2;
        var before := bytes;
        bytes := bytes[j := hextetValue / 256][j + 1 := hextetValue % 256];
        StoreHextet(before, hextets, i, bytes);
        i := i + 1;
      }
      StoredHextets(hextets, bytes, old(bytes));
      stored := true;
    }

    /** `IPv4Address(string)` and `IPv6Address(string)`: a zero address of the family's
        width, then `setAddress`; a failure there is the constructor's. */
    static method FromText(f: Family, text: string) returns (r: Result<IPAddress>)
      ensures r.Ok? <==> Parsed(f, text).Ok?
      ensures r.Ok? ==> fresh(r.value) && r.value.family == f && r.value.Valid()
      ensures r.Ok? ==> r.value.bytes == Parsed(f, text).value
      ensures r.Err? ==> r.error == Parsed(f, text).error
    {
      var a := new IPAddress(f);
      var o;
      if f == V4 {
        o := a.SetAddressV4(text);
      } else {
        o := a.SetAddressV6(text);
        assert Zeros(Width(f))[IPv6.NumOctets..] == [];
      }
      if o.Fail? {
        return Err(o.error);
      }
      return Ok(a);
    }
  }

  /** The bytes the text of an address in family f denotes. */
  function Parsed(f: Family, text: string): (r: Result<seq<byte>>)
    ensures r.Ok? ==> |r.value| == Width(f)
  {
    if f == V4 then IPv4.Parse(text) else IPv6.Parse(text)
  }

  /** Storing hextet i as two bytes keeps the earlier hextets' bytes, adds hextet i's, and
      leaves the bytes past the sixteenth as they were. */
  lemma StoreHextet(b: seq<byte>, g: seq<string>, i: nat, c: seq<byte>)
    requires i < |g| && 2 * i + 1 < IPv6.NumOctets <= |b|
    requires IPv6.HextetText(g[i]) && forall k :: 0 <= k < i ==> Numerals.DigitsIn(g[k], 16) && IPv6.HextetText(g[k])
    requires forall k :: 0 <= k < i ==>
      b[2 * k] == Numerals.DigitsValue(g[k], 16) / 256 && b[2 * k + 1] == Numerals.DigitsValue(g[k], 16) % 256
    requires c == b[2 * i := Numerals.DigitsValue(g[i], 16) / 256][2 * i + 1 := Numerals.DigitsValue(g[i], 16) % 256]
    ensures |c| == |b| && c[IPv6.NumOctets..] == b[IPv6.NumOctets..]
    ensures forall k :: 0 <= k < i + 1 ==>
      c[2 * k] == Numerals.DigitsValue(g[k], 16) / 256 && c[2 * k + 1] == Numerals.DigitsValue(g[k], 16) % 256
  {
    assert forall k :: IPv6.NumOctets <= k < |b| ==> c[k] == b[k];
  }

  /** Bytes holding the two bytes of each of eight accepted hextets, and past them
      the old bytes, are the stored hextets followed by the old rest. */
  lemma StoredHextets(g: seq<string>, b: seq<byte>, o: seq<byte>)
    requires |g| == IPv6.NumHextets && forall k :: 0 <= k < IPv6.NumHextets ==> IPv6.HextetText(g[k])
    requires |b| == |o| >= IPv6.NumOctets && b[IPv6.NumOctets..] == o[IPv6.NumOctets..]
    requires forall k :: 0 <= k < IPv6.NumHextets ==>
      b[2 * k] == IPv6.HextetValues(g)[k] / 256 && b[2 * k + 1] == IPv6.HextetValues(g)[k] % 256
    ensures b == IPv6.OctetsOf(IPv6.HextetValues(g)) + o[IPv6.NumOctets..]
  {
    var a := IPv6.OctetsOf(IPv6.HextetValues(g));
    forall j | 0 <= j < IPv6.NumOctets
      ensures b[j] == a[j]
    {
      var k := j / 2;
      if j % 2 == 0 {
        assert j == 2 * k;
      } else {
        assert j == 2 * k + 1;
      }
    }
    assert b == b[..IPv6.NumOctets] + b[IPv6.NumOctets..];
  }

  /** The first half of `IPv6Address::setAddress`: the hextet strings, with "::" expanded. */
  method ExpandHextets(text: string) returns (r: Result<seq<string>>)
    ensures r == IPv6.Expand(text)
  {
    var hextets: seq<string> := [];
    if Utils.Find(text, "::", 0).Some? {
      var parts := Utils.Split(text, "::");
      IPv6.FoundSplits(text, "::");
      var leftPart: seq<string> := [];
      if parts[0] != "" {
        leftPart := Utils.Split(parts[0], ":");
      }
      var rightPart: seq<string> := [];
      if parts[1] != "" {
        rightPart := Utils.Split(parts[1], ":");
      }
      hextets := hextets + leftPart;
      assert hextets == leftPart;
      if |rightPart| > IPv6.NumHextets {
        return Err(ResizeFailure);
      }
      hextets := IPv6.Resize(hextets, IPv6.NumHextets - |rightPart|);
      hextets := hextets + rightPart;
      assert leftPart == IPv6.Groups(parts[0]) && rightPart == IPv6.Groups(parts[1]);
    } else {
      hextets := Utils.Split(text, ":");
    }
    r := Ok(hextets);
  }
}
