/** `Network`, `IPv4Network` and `IPv6Network`: a block of addresses given by a
    base address and a mask, with its first and last host (and, for IPv4, the
    broadcast address), and `segment`, which splits it into equal subnets. */
module Networks {
  import opened Errors
  import opened Arith
  import opened Bytes
  import opened Masks
  import opened AddressArith
  import opened Addresses
  import opened Utils

  // ---------------------------------------------------------------- the block of a network

  /** `*_lastIp |= ~_mask`: the base with every host bit set. */
  function Top(base: seq<byte>, m: Mask): (r: seq<byte>)
    ensures |r| == |base|
  {
    Filled(base, Complemented(m).octets)
  }

  /** The block a network with prefix length p makes of address a: the masked base is
      aligned to 2^(host bits), at or below a and less than a block below it; `|= ~mask`
      reaches the block's last address and, with at least one host bit, `++` is the next
      address after the base and `--` the one before the top. */
  lemma NetworkRange(a: seq<byte>, p: nat)
    requires 1 <= p <= 8 * |a|
    ensures var b, h := Masked(a, PrefixOctets(p)), Pow2(8 * |a| - p);
      && ToNat(b) % h == 0 && ToNat(b) <= ToNat(a) < ToNat(b) + h
      && ToNat(Top(b, Mask(p, PrefixOctets(p)))) == ToNat(b) + h - 1
  {
    var b := Masked(a, PrefixOctets(p));
    MaskedBlock(a, p);
    MaskedIdempotent(a, PrefixOctets(p));
    MaskedBlock(b, p);
  }

  /** With at least one host bit, `++` on the base of a block is the next address and `--`
      on its last address the one before it. */
  lemma HostRange(b: seq<byte>, t: seq<byte>, k: nat)
    requires |b| > 0 && |t| > 0 && k >= 1 && ToNat(b) % Pow2(k) == 0
    requires ToNat(t) == ToNat(b) + Pow2(k) - 1
    ensures ToNat(Incremented(b)) == ToNat(b) + 1
    ensures ToNat(Decremented(t)) == ToNat(b) + Pow2(k) - 2
  {
    EvenBlock(ToNat(b), Pow2(k), Pow2(k - 1));
    LastByte(b);
    LastByte(t);
    IncrementIsSuccessor(b);
    DecrementIsPredecessor(t);
  }

  /** The addresses a network keeps, as values, for family f and prefix length p: the
      first address is `++` of the base; `|= ~mask` reached the block's last address, which
      for IPv4 is the broadcast address, and the IPv4 last host is `--` of it. */
  ghost predicate Block(f: Family, p: int, base: seq<byte>, first: seq<byte>, last: seq<byte>, broadcast: seq<byte>)
  {
    && p <= 8 * |base| && |first| == |base| && |last| == |base|
    && first == Incremented(base)
    && (f == V6 ==> ToNat(last) == ToNat(base) + Pow2(8 * |base| - p) - 1)
    && (f == V4 ==>
          && |base| == 4 && |broadcast| == 4
          && ToNat(broadcast) == ToNat(base) + Pow2(8 * |base| - p) - 1
          && last == Decremented(broadcast))
  }

  /** What the constructor computes from address a: the masked base, aligned to its block,
      and the addresses of that block. */
  lemma ConstructedBlock(a: seq<byte>, f: Family, p: int, b: seq<byte>, t: seq<byte>)
    requires 1 <= p <= 8 * |a| && (f == V4 ==> |a| == 4)
    requires b == Masked(a, PrefixOctets(p)) && t == Top(b, Mask(p, PrefixOctets(p)))
    ensures ToNat(b) % Pow2(8 * |b| - p) == 0
    ensures Block(f, p, b, Incremented(b), if f == V4 then Decremented(t) else t, if f == V4 then t else [])
  {
    NetworkRange(a, p);
    assert 8 * |b| - p == 8 * |a| - p;
    BlockOfTop(f, p, b, t);
  }

  /** The addresses computed from a base b and its block's last address t. */
  lemma BlockOfTop(f: Family, p: int, b: seq<byte>, t: seq<byte>)
    requires p <= 8 * |b| && |t| == |b| && (f == V4 ==> |b| == 4)
    requires ToNat(t) == ToNat(b) + Pow2(8 * |b| - p) - 1
    ensures Block(f, p, b, Incremented(b), if f == V4 then Decremented(t) else t, if f == V4 then t else [])
  {
  }

  // ---------------------------------------------------------------- segment

  /** `getPrefixLength() + ceil(log2(numberOfSubnets))`. */
  function NewPrefix(p: int, n: int): (q: int)
    requires n >= 1
    ensures q >= p && n <= Pow2(q - p)
  {
    p + CeilLog2(n)
  }

  /** The checks `segment` makes before it creates anything, in the source's order. */
  function SegmentCheck(f: Family, p: int, n: int): (r: Outcome)
    requires p >= 1
    ensures r == Pass <==> 1 <= n <= Capacity(p) && NewPrefix(p, n) <= MaxPrefixOf(f)
  {
    if n < 1 then Fail(InvalidSubnetCount)
    else if n > Capacity(p) then Fail(CapacityExceeded)
    else if NewPrefix(p, n) > MaxPrefixOf(f) then Fail(PrefixOverflow)
    else Pass
  }

  /** For IPv4 the capacity check already keeps the new prefix length within 32, except at
      /32, where the capacity is 65536 and any count from 2 on overflows. */
  lemma IPv4OverflowOnlyAt32(p: int, n: int)
    requires 1 <= p <= 32
    ensures SegmentCheck(V4, p, n) == Fail(PrefixOverflow) <==> p == 32 && 2 <= n <= 65536
  {
    if 1 <= n <= Capacity(p) && p < 32 {
      CeilLog2Least(n, 32 - p);
    }
    if p == 32 && 2 <= n {
      assert CeilLog2(n) >= 1;
    }
  }

  /** When the checks pass, the n subnets, of 2^hq addresses each, fit in the block of
      2^hp, where hp and hq are the host bits of prefix lengths p and q: q is the least
      prefix length with room for n of them. */
  lemma SegmentFits(p: int, n: int, q: int, hp: nat, hq: nat)
    requires 1 <= p && 1 <= n && q == NewPrefix(p, n) && hp == hq + (q - p)
    ensures p <= q && n * Pow2(hq) <= Pow2(hp)
    ensures q > p ==> Pow2(q - p - 1) < n
  {
    Pow2Add(q - p, hq);
    assert hp == (q - p) + hq;
    MulLeq(n, Pow2(q - p), Pow2(hq));
  }

  /** Subnet i of n (i < n) starts i blocks of 2^hq in and ends inside the parent block
      of 2^hp. */
  lemma ChildOffset(hp: nat, hq: nat, n: int, i: int)
    requires n * Pow2(hq) <= Pow2(hp) && 0 <= i < n
    ensures 0 <= Pow2(hq) * i && Pow2(hq) * i + Pow2(hq) <= Pow2(hp)
  {
    BlockRoom(Pow2(hq), Pow2(hp), n, i);
  }

  /** An address aligned to 2^k below 2^w leaves room for a whole block above it. */
  lemma AlignedRoom(x: int, k: nat, w: nat)
    requires k <= w && 0 <= x < Pow2(w) && x % Pow2(k) == 0
    ensures x + Pow2(k) <= Pow2(w)
  {
    Pow2Divides(k, w);
    RoomBelow(x, Pow2(k), Pow2(w - k), Pow2(w));
  }

  /** Alignment to 2^k passes to 2^j, j <= k, and survives adding a multiple of 2^j. */
  lemma AlignedSum(x: int, k: nat, j: nat, i: int, d: int, y: int)
    requires j <= k && x % Pow2(k) == 0 && d == Pow2(j) * i && y == x + d
    ensures y % Pow2(j) == 0
  {
    Pow2Divides(j, k);
    SumAligned(x, Pow2(k), Pow2(j), Pow2(k - j), i);
  }

  /** 2^31 and 2^32. */
  lemma Pow2Word()
    ensures Pow2(31) == MaxInt + 1 && Pow2(32) == MaxUint32 + 1 && Pow256(4) == Pow2(32)
  {
    Pow256IsPow2(4);
  }

  /** Adding less than one block to an aligned address carries no further than the block:
      the sum does not wrap. */
  lemma AddWithinBlock(a: seq<byte>, k: nat, d: int)
    requires k <= 8 * |a| && ToNat(a) % Pow2(k) == 0 && 0 <= d < Pow2(k)
    ensures ToNat(AddCarry(a, d)) == ToNat(a) + d
  {
    var x, m := ToNat(a), Pow256(|a|);
    ToNatBound(a);
    Pow256IsPow2(|a|);
    AlignedRoom(x, k, 8 * |a|);
    AddCarryValue(a, d);
    DivModUnique(x + d, m, 0, x + d);
  }

  /** The last byte of an address aligned to 2^k is 0 once k reaches 8 and below that the
      block holds fewer than 128 addresses. */
  lemma LastByteAligned(a: seq<byte>, k: nat)
    requires |a| > 0 && ToNat(a) % Pow2(k) == 0
    ensures k >= 8 ==> a[|a| - 1] == 0
    ensures k < 8 ==> Pow2(k) <= 128
  {
    LastByte(a);
    if k >= 8 {
      Pow2Divides(8, k);
      assert Pow2(8) == 256;
      SumAligned(ToNat(a), Pow2(k), 256, Pow2(k - 8), 0);
    } else {
      Pow2Monotone(k, 7);
      assert Pow2(7) == 128;
    }
  }

  /** The IPv4 subnet step: `increment * i` in uint32 arithmetic and its conversion to int
      are exact, `+=` cannot overflow the first sum, and the result is the base moved by
      i blocks, still aligned to the new block size. */
  lemma IPv4Child(a: seq<byte>, p: int, q: int, n: int, i: int)
    requires |a| == 4 && 1 <= p <= q <= 32 && 1 <= n && n * Pow2(32 - q) <= Pow2(32 - p) && 0 <= i < n
    requires ToNat(a) % Pow2(32 - p) == 0
    ensures var d := Pow2(32 - q) * i;
      && 0 <= d <= MaxInt && a[3] + d <= MaxInt
      && ToNat(AddCarry(a, d)) == ToNat(a) + d
      && ToNat(AddCarry(a, d)) % Pow2(32 - q) == 0
  {
    var d := Pow2(32 - q) * i;
    ChildOffset(32 - p, 32 - q, n, i);
    Pow2Monotone(32 - p, 31);
    Pow2Word();
    LastByteAligned(a, 32 - p);
    AddWithinBlock(a, 32 - p, d);
    AlignedSum(ToNat(a), 32 - p, 32 - q, i, d, ToNat(AddCarry(a, d)));
  }

  /** Subnet k of those with new prefix length q made from `base`, as a value: an address
      of the same width k blocks of 2^(W - q) above the base. */
  ghost predicate SubnetBase(b: seq<byte>, f: Family, base: seq<byte>, k: int, q: int)
  {
    |b| == |base| && q <= MaxPrefixOf(f) && ToNat(b) == ToNat(base) + Pow2(MaxPrefixOf(f) - q) * k
  }

  /** An address i blocks of 2^(w - q) above a base aligned to 2^(w - p), w the width in
      bits, is the base of its own subnet: the new mask leaves it unchanged. */
  lemma ChildBase(b: seq<byte>, base: seq<byte>, f: Family, w: nat, p: int, q: int, i: int)
    requires |b| == |base| && w == 8 * |b| == MaxPrefixOf(f) && 1 <= p <= q <= w
    requires ToNat(base) % Pow2(w - p) == 0
    requires ToNat(b) == ToNat(base) + Pow2(w - q) * i
    ensures Masked(b, PrefixOctets(q)) == b && SubnetBase(b, f, base, i, q)
  {
    AlignedSum(ToNat(base), w - p, w - q, i, Pow2(w - q) * i, ToNat(b));
    assert 8 * |b| - q == w - q;
    AlignedMasked(b, q);
  }

  /** The IPv4 subnet, masked again by its constructor, is subnet i of the base. */
  lemma IPv4ChildBase(a: seq<byte>, p: int, q: int, n: int, i: int)
    requires |a| == 4 && 1 <= p <= q <= 32 && 1 <= n && n * Pow2(32 - q) <= Pow2(32 - p) && 0 <= i < n
    requires ToNat(a) % Pow2(32 - p) == 0
    ensures var b := AddCarry(a, Pow2(32 - q) * i);
      SubnetBase(Masked(b, PrefixOctets(q)), V4, a, i, q)
  {
    IPv4Child(a, p, q, n, i);
    ChildBase(AddCarry(a, Pow2(32 - q) * i), a, V4, 32, p, q, i);
  }

  /** The IPv6 subnet reached after i steps is subnet i of the base. */
  lemma IPv6ChildBase(b: seq<byte>, base: seq<byte>, p: int, q: int, i: int)
    requires |b| == |base| == 16 && 1 <= p <= q <= 128
    requires ToNat(base) % Pow2(128 - p) == 0
    requires ToNat(b) == ToNat(base) + Pow2(128 - q) * i
    ensures Masked(b, PrefixOctets(q)) == b && SubnetBase(b, V6, base, i, q)
  {
    ChildBase(b, base, V6, 128, p, q, i);
  }

  /** `increment[w - 1 - b / 8] = 1 << (b % 8)` in w zero bytes: the vector of 2^b. */
  function IncrementVector(w: nat, b: nat): (v: seq<byte>)
    requires b < 8 * w
    ensures |v| == w
  {
    PowByte(b % 8);
    Zeros(w)[w - 1 - b / 8 := Pow2(b % 8)]
  }

  /** The vector of the IPv6 segment: sixteen zero bytes, byte `15 - b / 8` set to `1 << (b % 8)`. */
  lemma IncrementVector16(b: nat)
    requires b < 128
    ensures Pow2(b % 8) < 256 && IncrementVector(16, b) == Zeros(16)[15 - b / 8 := Pow2(b % 8)]
  {
    PowByte(b % 8);
    assert 16 - 1 - b / 8 == 15 - b / 8;
  }

  lemma PowByte(k: nat)
    requires k < 8
    ensures Pow2(k) < 256
  {
    Pow2Monotone(k, 7);
    assert Pow2(7) == 128;
  }

  /** One byte c at index k of w zero bytes is worth c * 256^(w - 1 - k). */
  lemma UnitVector(w: nat, k: nat, c: byte)
    requires k < w
    ensures ToNat(Zeros(w)[k := c]) == c * Pow256(w - 1 - k)
  {
    ToNatUpdate(Zeros(w), k, c);
    ToNatZeros(w);
    ScalePow(c, w - 1 - k);
  }

  lemma IncrementVectorValue(w: nat, b: nat)
    requires b < 8 * w
    ensures ToNat(IncrementVector(w, b)) == Pow2(b)
  {
    PowByte(b % 8);
    var c: byte, k := Pow2(b % 8), w - 1 - b / 8;
    assert IncrementVector(w, b) == Zeros(w)[k := c];
    UnitVector(w, k, c);
    assert w - 1 - k == b / 8;
    Pow2Split(b);
  }

  /** Block j + 1 of n still ends inside the 128-bit address space. */
  lemma StepRoom(x: int, y: int, p: int, q: int, n: int, j: int)
    requires 1 <= p <= q <= 128 && n * Pow2(128 - q) <= Pow2(128 - p) && 0 <= j && j + 1 < n
    requires x % Pow2(128 - p) == 0 && 0 <= x < Pow2(128) && y == x + Pow2(128 - q) * j
    ensures y + Pow2(128 - q) == x + Pow2(128 - q) * (j + 1) < Pow2(128)
  {
    AlignedRoom(x, 128 - p, 128);
    NextBlockBelow(x, y, Pow2(128 - q), Pow2(128 - p), Pow2(128), n, j);
  }

  /** `+=` of the vector of 2^(128 - q) to a 16-byte address with room above it adds
      2^(128 - q) to its value and keeps it 16 bytes long. */
  lemma AddIncrement(a: seq<byte>, q: int)
    requires |a| == 16 && 1 <= q <= 128 && ToNat(a) + Pow2(128 - q) < Pow2(128)
    ensures var r := AddVector(a, IncrementVector(16, 128 - q));
      |r| == 16 && ToNat(r) == ToNat(a) + Pow2(128 - q)
  {
    IncrementVectorValue(16, 128 - q);
    Pow256IsPow2(16);
    AddVectorValue(a, IncrementVector(16, 128 - q));
  }

  /** The IPv6 subnet step: one more `+= increment` moves the 16-byte address by one
      block without widening it, while the subnet index stays below n. */
  lemma IPv6Step(a: seq<byte>, base: seq<byte>, p: int, q: int, n: int, j: int)
    requires |a| == |base| == 16
    requires 1 <= p <= q <= 128 && n * Pow2(128 - q) <= Pow2(128 - p) && 0 <= j && j + 1 < n
    requires ToNat(base) % Pow2(128 - p) == 0 && ToNat(a) == ToNat(base) + Pow2(128 - q) * j
    ensures var r := AddVector(a, IncrementVector(16, 128 - q));
      |r| == 16 && ToNat(r) == ToNat(base) + Pow2(128 - q) * (j + 1)
  {
    Below128(base);
    StepRoom(ToNat(base), ToNat(a), p, q, n, j);
    AddIncrement(a, q);
  }

  /** A 16-byte address is below 2^128. */
  lemma Below128(b: seq<byte>)
    requires |b| == 16
    ensures ToNat(b) < Pow2(128)
  {
    ToNatBound(b);
    Pow256IsPow2(16);
  }

  // ---------------------------------------------------------------- the network objects

  /** `Network` with its two subclasses, told apart by the family: `IPv4Network` adds the
      broadcast address, `IPv6Network` has none. The constructor computes the addresses
      with `IPAddress` objects; afterwards they are reached only through `const IPAddress*` getters,
      so the network keeps their bytes. `subnets` is what the last successful `segment`
      made. */
  class Network {
    const family: Family
    const ip: seq<byte>
    const firstIp: seq<byte>
    const lastIp: seq<byte>
    const broadcastIp: Option<seq<byte>>
    const mask: Mask
    var subnets: seq<Network>

    /** What the constructors establish: a prefix length the family accepts, its mask, a
        base aligned to its block of 2^(host bits) addresses, and the addresses of that
        block; only IPv4 networks have a broadcast address. */
    ghost predicate Valid()
    {
      && IsPrefixLengthCompatible(family, mask.prefixLength)
      && mask.octets == PrefixOctets(mask.prefixLength)
      && |ip| >= Width(family) && (family == V4 ==> |ip| == 4)
      && ToNat(ip) % Pow2(8 * |ip| - mask.prefixLength) == 0
      && (family == V4 <==> broadcastIp.Some?)
      && Block(family, mask.prefixLength, ip, firstIp, lastIp,
               if broadcastIp.Some? then broadcastIp.value else [])
    }

    /** `Network(ip, prefixLength)`, followed for IPv4 by the `IPv4Network` constructor body:
        the base is the address `&= mask`, the first address `++` of it, the last one the
        base `|= ~mask`, and for IPv4 that is the broadcast address and the last one `--`
        of it. The compatibility check that throws is `Create`'s. */
    constructor (addr: IPAddress, p: int)
      requires addr.Valid() && IsPrefixLengthCompatible(addr.family, p)
      ensures Valid() && family == addr.family && subnets == []
      ensures mask == Mask(p, PrefixOctets(p)) && ip == Masked(addr.bytes, PrefixOctets(p))
      ensures firstIp == Incremented(ip)
      ensures family == V6 ==> broadcastIp == None && lastIp == Top(ip, mask)
      ensures family == V4 ==> broadcastIp == Some(Top(ip, mask)) && lastIp == Decremented(Top(ip, mask))
    {
      CompatibleIsValid(addr.family, p);
      var made := NewMask(p);
      assert made.Ok?;
      var m := made.value;
      var base := addr.Clone();
      base.AndMask(m);
      var first := base.Clone();
      var last := base.Clone();
      first.Increment();
      var inverse := Complement(m);
      last.OrMask(inverse);
      if addr.family == V4 {
        var broadcast := last.Clone();
        last.Decrement();
        broadcastIp := Some(broadcast.bytes);
      } else {
        broadcastIp := None;
      }
      family := addr.family;
      ip := base.bytes;
      firstIp := first.bytes;
      lastIp := last.bytes;
      mask := m;
      subnets := [];
      ConstructedBlock(addr.bytes, addr.family, p, base.bytes, Top(base.bytes, m));
    }

    /** With at least one host bit, the first address is the one after the base and the
        last one is the block's last address (IPv6) or the one before it (IPv4). */
    lemma HostsOf()
      requires Valid() && mask.prefixLength < 8 * |ip|
      ensures ToNat(firstIp) == ToNat(ip) + 1
      ensures family == V6 ==> ToNat(lastIp) == ToNat(ip) + Pow2(8 * |ip| - mask.prefixLength) - 1
      ensures family == V4 ==> ToNat(lastIp) == ToNat(ip) + Pow2(8 * |ip| - mask.prefixLength) - 2
    {
      var k := 8 * |ip| - mask.prefixLength;
      if family == V4 {
        HostRange(ip, broadcastIp.value, k);
      } else {
        HostRange(ip, lastIp, k);
      }
    }

    /** The constructor with its check: an incompatible prefix length is refused. */
    static method Create(addr: IPAddress, p: int) returns (r: Result<Network>)
      requires addr.Valid()
      ensures r.Ok? <==> IsPrefixLengthCompatible(addr.family, p)
      ensures r.Err? ==> r.error == PrefixLengthIncompatible
      ensures r.Ok? ==> fresh(r.value) && r.value.Valid() && r.value.family == addr.family
      ensures r.Ok? ==> r.value.mask.prefixLength == p && r.value.ip == Masked(addr.bytes, PrefixOctets(p))
      ensures r.Ok? ==> r.value.subnets == []
    {
      if !IsPrefixLengthCompatible(addr.family, p) {
        return Err(PrefixLengthIncompatible);
      }
      var n := new Network(addr, p);
      return Ok(n);
    }

    /** `getPrefixLength`. */
    function PrefixLength(): (p: int)
      ensures p == mask.prefixLength
    {
      mask.prefixLength
    }

    /** `getSubnetCount`. */
    function SubnetCount(): (n: nat)
      reads this
      ensures n == |subnets|
    {
      |subnets|
    }

    /** `operator[]` and `getSubnet`: out_of_range past the last subnet. */
    function GetSubnet(index: int): (r: Result<Network>)
      reads this
      ensures r.Ok? <==> 0 <= index < |subnets|
      ensures r.Ok? ==> r.value == subnets[index]
      ensures r.Err? ==> r.error == IndexOutOfRange
    {
      if 0 <= index < |subnets| then Ok(subnets[index]) else Err(IndexOutOfRange)
    }

    /** `segment`: the checks, then n new subnets of equal size in address order. */
    method Segment(n: int) returns (r: Outcome)
      requires Valid() && 0 <= n <= MaxUint32 && |ip| == Width(family)
      modifies this
      ensures r == SegmentCheck(family, mask.prefixLength, n)
      ensures r.Fail? ==> subnets == old(subnets)
      ensures r.Pass? ==> |subnets| == n
      ensures r.Pass? ==> forall k :: 0 <= k < n ==>
        fresh(subnets[k]) && subnets[k].subnets == [] &&
        IsSubnet(subnets[k], family, ip, k, NewPrefix(mask.prefixLength, n))
    {
      if family == V4 {
        r := SegmentV4(n);
      } else {
        r := SegmentV6(n);
      }
    }

    /** `IPv4Network::segment`: subnet i is the base `+= increment * i`, where the
        increment `1 << (32 - q)` is an int and the product is taken in uint32. */
    method SegmentV4(n: int) returns (r: Outcome)
      requires Valid() && family == V4 && 0 <= n <= MaxUint32
      modifies this
      ensures r == SegmentCheck(V4, mask.prefixLength, n)
      ensures r.Fail? ==> subnets == old(subnets)
      ensures r.Pass? ==> |subnets| == n
      ensures r.Pass? ==> forall k :: 0 <= k < n ==>
        fresh(subnets[k]) && subnets[k].subnets == [] &&
        IsSubnet(subnets[k], V4, ip, k, NewPrefix(mask.prefixLength, n))
    {
      var p := PrefixLength();
      if n < 1 {
        return Fail(InvalidSubnetCount);
      }
      if n > Capacity(p) {
        return Fail(CapacityExceeded);
      }
      var q := NewPrefix(p, n);
      if q > 32 {
        return Fail(PrefixOverflow);
      }
      assert 8 * |ip| - p == 32 - p;
      var increment := Int32Of(Pow2(32 - q));
      subnets := SubnetV4s(increment, p, q, n);
      r := Pass;
    }

    /** The loop of `IPv4Network::segment`: subnet i made for each i below n, in order. */
    method SubnetV4s(increment: int, p: int, q: int, n: int) returns (made: seq<Network>)
      requires family == V4 && |ip| == 4
      requires 1 <= p <= q <= 32 && increment == Int32Of(Pow2(32 - q))
      requires ToNat(ip) % Pow2(32 - p) == 0
      requires 1 <= n && q == NewPrefix(p, n)
      ensures |made| == n && AreSubnets(made, V4, ip, q)
      ensures forall k :: 0 <= k < n ==> fresh(made[k])
      ensures forall k :: 0 <= k < n ==> made[k].subnets == []
    {
      SegmentFits(p, n, q, 32 - p, 32 - q);
      made := [];
      var i := 0;
      while i < n
        invariant 0 <= i <= n && |made| == i
        invariant forall k :: 0 <= k < i ==> fresh(made[k]) && made[k].subnets == []
        invariant AreSubnets(made, V4, ip, q)
      {
        var child := SubnetV4(increment, p, q, n, i);
        GrowSubnets(made, child, V4, ip, q);
        ghost var prev := made;
        made := made + [child];
        forall k | 0 <= k < i + 1
          ensures fresh(made[k]) && made[k].subnets == []
        {
          if k < i {
            assert made[k] == prev[k];
          } else {
            assert made[k] == child;
          }
        }
        i := i + 1;
      }
    }

    /** One pass of the IPv4 loop: copy the base, `+= increment * i`, make the subnet. */
    method SubnetV4(increment: int, p: int, q: int, n: int, i: int) returns (child: Network)
      requires family == V4 && |ip| == 4
      requires 1 <= p <= q <= 32 && n * Pow2(32 - q) <= Pow2(32 - p) && 0 <= i < n
      requires ToNat(ip) % Pow2(32 - p) == 0
      requires increment == Int32Of(Pow2(32 - q))
      ensures fresh(child) && child.subnets == [] && IsSubnet(child, V4, ip, i, q)
    {
      IPv4Child(ip, p, q, n, i);
      IPv4ChildBase(ip, p, q, n, i);
      IPv4Offset(p, q, n, i);
      var newAddress := new IPAddress.Of(V4, ip);
      newAddress.AddInt(Int32Of(Uint32Of(Uint32Of(increment) * i)));
      child := new Network(newAddress, q);
    }

    /** `IPv6Network::segment`: subnet i is the base with the increment vector of
        2^(128 - q) added i times. */
    method SegmentV6(n: int) returns (r: Outcome)
      requires Valid() && family == V6 && 0 <= n <= MaxUint32 && |ip| == 16
      modifies this
      ensures r == SegmentCheck(V6, mask.prefixLength, n)
      ensures r.Fail? ==> subnets == old(subnets)
      ensures r.Pass? ==> |subnets| == n
      ensures r.Pass? ==> forall k :: 0 <= k < n ==>
        fresh(subnets[k]) && subnets[k].subnets == [] &&
        IsSubnet(subnets[k], V6, ip, k, NewPrefix(mask.prefixLength, n))
    {
      var p := PrefixLength();
      if n < 1 {
        return Fail(InvalidSubnetCount);
      }
      if n > Capacity(p) {
        return Fail(CapacityExceeded);
      }
      var q := NewPrefix(p, n);
      if q > 128 {
        return Fail(PrefixOverflow);
      }
      assert 8 * |ip| - p == 128 - p;
      var increment := IncrementV6(q);
      subnets := SubnetV6s(increment, p, q, n);
      r := Pass;
    }

    /** The increment of `IPv6Network::segment`: sixteen zero bytes with byte
        `15 - bits / 8` set to `1 << (bits % 8)`, where bits is 128 - q. */
    static method IncrementV6(q: int) returns (increment: seq<byte>)
      requires 1 <= q <= 128
      ensures increment == IncrementVector(16, 128 - q)
    {
      var bits := 128 - q;
      IncrementVector16(bits);
      increment := Zeros(16);
      increment := increment[15 - bits / 8 := Pow2(bits % 8)];
    }

    /** The loop of `IPv6Network::segment`: subnet i made for each i below n, in order. */
    method SubnetV6s(increment: seq<byte>, p: int, q: int, n: int) returns (made: seq<Network>)
      requires family == V6 && |ip| == 16
      requires 1 <= p <= q <= 128 && increment == IncrementVector(16, 128 - q)
      requires ToNat(ip) % Pow2(128 - p) == 0
      requires 1 <= n && q == NewPrefix(p, n)
      ensures |made| == n && AreSubnets(made, V6, ip, q)
      ensures forall k :: 0 <= k < n ==> fresh(made[k])
      ensures forall k :: 0 <= k < n ==> made[k].subnets == []
    {
      SegmentFits(p, n, q, 128 - p, 128 - q);
      made := [];
      var i := 0;
      while i < n
        invariant 0 <= i <= n && |made| == i
        invariant forall k :: 0 <= k < i ==> fresh(made[k]) && made[k].subnets == []
        invariant AreSubnets(made, V6, ip, q)
      {
        var child := SubnetV6(increment, p, q, n, i);
        GrowSubnets(made, child, V6, ip, q);
        ghost var prev := made;
        made := made + [child];
        forall k | 0 <= k < i + 1
          ensures fresh(made[k]) && made[k].subnets == []
        {
          if k < i {
            assert made[k] == prev[k];
          } else {
            assert made[k] == child;
          }
        }
        i := i + 1;
      }
    }

    /** One pass of the IPv6 loop: copy the base, add the increment vector i times, make
        the subnet. */
    method SubnetV6(increment: seq<byte>, p: int, q: int, n: int, i: int) returns (child: Network)
      requires family == V6 && |ip| == 16
      requires 1 <= p <= q <= 128 && increment == IncrementVector(16, 128 - q)
      requires ToNat(ip) % Pow2(128 - p) == 0
      requires n * Pow2(128 - q) <= Pow2(128 - p) && 0 <= i < n
      ensures fresh(child) && child.subnets == [] && IsSubnet(child, V6, ip, i, q)
    {
      var newAddress := new IPAddress.Of(V6, ip);
      var j := 0;
      while j < i
        invariant 0 <= j <= i && |newAddress.bytes| == 16
        invariant ToNat(newAddress.bytes) == ToNat(ip) + Pow2(128 - q) * j
        modifies newAddress
      {
        IPv6Step(newAddress.bytes, ip, p, q, n, j);
        newAddress.AddBytes(increment);
        j := j + 1;
      }
      IPv6ChildBase(newAddress.bytes, ip, p, q, i);
      child := new Network(newAddress, q);
    }
  }

  /** Subnet k of those a network of family f with base `base` makes with new prefix
      length q: a valid network of the same family whose base is k blocks of 2^(W - q)
      further on. */
  ghost predicate IsSubnet(c: Network, f: Family, base: seq<byte>, k: int, q: int)
  {
    c.Valid() && c.family == f && c.mask.prefixLength == q && SubnetBase(c.ip, f, base, k, q)
  }

  /** The subnets made so far: subnet k of the base at index k. */
  ghost predicate AreSubnets(s: seq<Network>, f: Family, base: seq<byte>, q: int)
  {
    forall k {:trigger IsSubnet(s[k], f, base, k, q)} :: 0 <= k < |s| ==> IsSubnet(s[k], f, base, k, q)
  }

  /** Appending the next subnet keeps the list in order. */
  lemma GrowSubnets(s: seq<Network>, c: Network, f: Family, base: seq<byte>, q: int)
    requires AreSubnets(s, f, base, q) && IsSubnet(c, f, base, |s|, q)
    ensures AreSubnets(s + [c], f, base, q)
  {
    var s' := s + [c];
    forall k | 0 <= k < |s'|
      ensures IsSubnet(s'[k], f, base, k, q)
    {
      if k < |s| {
        assert s'[k] == s[k];
      }
    }
  }

  /** `increment * i`: the int `1 << (32 - q)` turned uint32, times i modulo 2^32, read back
      as the int `+=` takes, is the exact offset of subnet i. */
  lemma IPv4Offset(p: int, q: int, n: int, i: int)
    requires 1 <= p <= q <= 32 && n * Pow2(32 - q) <= Pow2(32 - p) && 0 <= i < n
    ensures Int32Of(Uint32Of(Uint32Of(Int32Of(Pow2(32 - q))) * i)) == Pow2(32 - q) * i
  {
    ChildOffset(32 - p, 32 - q, n, i);
    Pow2Monotone(32 - p, 31);
    Pow2Word();
    ConversionsExact(Pow2(32 - q));
    ConversionsExact(Pow2(32 - q) * i);
  }

  /** The subnet bases go up strictly with the index: each is one or more blocks above
      the ones before it. */
  lemma SubnetsIncreasing(s: seq<Network>, f: Family, base: seq<byte>, q: int, j: int, k: int)
    requires AreSubnets(s, f, base, q) && 0 <= j < k < |s|
    ensures ToNat(s[j].ip) < ToNat(s[k].ip)
  {
    assert IsSubnet(s[j], f, base, j, q) && IsSubnet(s[k], f, base, k, q);
    BasesIncreasing(s[j].ip, s[k].ip, f, base, q, j, k);
  }

  lemma BasesIncreasing(x: seq<byte>, y: seq<byte>, f: Family, base: seq<byte>, q: int, j: int, k: int)
    requires SubnetBase(x, f, base, j, q) && SubnetBase(y, f, base, k, q) && j < k
    ensures ToNat(x) < ToNat(y)
  {
    var b := Pow2(MaxPrefixOf(f) - q);
    MulAtLeast(k - j, b);
    assert b * k == b * j + (k - j) * b;
  }

  /** The n subnets that segment makes of a network with prefix length p lie, blocks and
      all, inside the parent's block of 2^(W - p) addresses. */
  lemma SubnetsInside(s: seq<Network>, f: Family, base: seq<byte>, p: int, q: int, k: int)
    requires AreSubnets(s, f, base, q) && 1 <= p && |s| >= 1 && q == NewPrefix(p, |s|)
    requires q <= MaxPrefixOf(f) && 0 <= k < |s|
    ensures var w := MaxPrefixOf(f);
      ToNat(base) <= ToNat(s[k].ip) && ToNat(s[k].ip) + Pow2(w - q) <= ToNat(base) + Pow2(w - p)
  {
    assert IsSubnet(s[k], f, base, k, q);
    BaseInside(s[k].ip, f, base, p, q, |s|, k);
  }

  lemma BaseInside(x: seq<byte>, f: Family, base: seq<byte>, p: int, q: int, n: int, k: int)
    requires SubnetBase(x, f, base, k, q) && 1 <= p && 1 <= n && q == NewPrefix(p, n) && 0 <= k < n
    ensures var w := MaxPrefixOf(f);
      ToNat(base) <= ToNat(x) && ToNat(x) + Pow2(w - q) <= ToNat(base) + Pow2(w - p)
  {
    var w := MaxPrefixOf(f);
    SubnetRoom(p, n, q, k, w - p, w - q);
    OffsetInside(ToNat(base), ToNat(x), Pow2(w - q), Pow2(w - p), k);
  }

  /** Subnet k of the n made with new prefix length q ends inside the parent block. */
  lemma SubnetRoom(p: int, n: int, q: int, k: int, hp: nat, hq: nat)
    requires 1 <= p && 1 <= n && q == NewPrefix(p, n) && hp == hq + (q - p) && 0 <= k < n
    ensures 0 <= Pow2(hq) * k && Pow2(hq) * k + Pow2(hq) <= Pow2(hp)
  {
    SegmentFits(p, n, q, hp, hq);
    ChildOffset(hp, hq, n, k);
  }

  lemma OffsetInside(b: int, x: int, s: int, t: int, k: int)
    requires x == b + s * k && 0 <= s * k && s * k + s <= t
    ensures b <= x && x + s <= b + t
  {
  }

  /** Subnet k of a base is determined by the base, k and q: two of them hold the same
      addresses and mask, so segmenting twice with the same count makes equal subnets. */
  lemma SubnetDetermined(c: Network, d: Network, f: Family, base: seq<byte>, k: int, q: int)
    requires IsSubnet(c, f, base, k, q) && IsSubnet(d, f, base, k, q)
    ensures c.ip == d.ip && c.mask == d.mask && c.firstIp == d.firstIp
    ensures c.lastIp == d.lastIp && c.broadcastIp == d.broadcastIp
  {
    ToNatInjective(c.ip, d.ip);
    if f == V4 {
      ToNatInjective(c.broadcastIp.value, d.broadcastIp.value);
    } else {
      ToNatInjective(c.lastIp, d.lastIp);
    }
  }
}
