/** Integer facts the address arithmetic needs: powers of two and of 256,
    the integer ceiling of log2, and C++'s truncating division. */
module Arith {

  /** INT_MAX and UINT32_MAX of the source's `int` and `uint32_t`. */
  const MaxInt: int := 0x7FFF_FFFF
  const MaxUint32: int := 0xFFFF_FFFF

  function Pow2(k: nat): (r: nat)
    ensures r >= 1
  {
    if k == 0 then 1 else 2 * Pow2(k - 1)
  }

  function Pow256(k: nat): (r: nat)
    ensures r >= 1
  {
    if k == 0 then 1 else 256 * Pow256(k - 1)
  }

  lemma {:induction false} Pow2Add(a: nat, b: nat)
    ensures Pow2(a + b) == Pow2(a) * Pow2(b)
  {
    if a > 0 {
      Pow2Add(a - 1, b);
    }
  }

  lemma {:induction false} Pow2Monotone(a: nat, b: nat)
    requires a <= b
    ensures Pow2(a) <= Pow2(b)
  {
    if a < b {
      Pow2Monotone(a, b - 1);
    }
  }

  /** 2^b is 2^(b mod 8) shifted by b / 8 whole bytes. */
  lemma Pow2Split(b: nat)
    ensures Pow2(b % 8) * Pow256(b / 8) == Pow2(b)
  {
    var r, o := b % 8, b / 8;
    assert r + 8 * o == b;
    var e := 8 * o;
    Pow2Add(r, e);
    Pow256IsPow2(o);
  }

  lemma {:induction false} Pow256IsPow2(k: nat)
    ensures Pow256(k) == Pow2(8 * k)
  {
    if k > 0 {
      Pow256IsPow2(k - 1);
      Pow2Add(8, 8 * (k - 1));
      assert Pow2(8) == 256;
      assert 8 * k == 8 + 8 * (k - 1);
    }
  }

  /** v * 256^k, built one byte position at a time, so that its unfolding stays linear. */
  function Scale(v: int, k: nat): int
  {
    if k == 0 then v else Scale(v, k - 1) * 256
  }

  lemma {:induction false} ScalePow(v: int, k: nat)
    ensures Scale(v, k) == v * Pow256(k)
  {
    if k > 0 {
      ScalePow(v, k - 1);
      MulAssoc256(v, Pow256(k - 1));
    }
  }

  lemma MulAssoc256(v: int, p: int)
    ensures v * p * 256 == v * (256 * p)
  {
  }

  lemma {:induction false} ScaleAdd(v: int, w: int, k: nat)
    ensures Scale(v + w, k) == Scale(v, k) + Scale(w, k)
  {
    if k > 0 {
      ScaleAdd(v, w, k - 1);
    }
  }

  /** One more position is the same as a value 256 times larger. */
  lemma {:induction false} ScaleSucc(v: int, k: nat)
    ensures Scale(v, k + 1) == Scale(v * 256, k)
  {
    if k > 0 {
      ScaleSucc(v, k - 1);
    }
  }

  /** Pow2(b) is a whole number of Pow2(a) blocks when a <= b. */
  lemma Pow2Divides(a: nat, b: nat)
    requires a <= b
    ensures Pow2(b) == Pow2(b - a) * Pow2(a)
    ensures Pow2(b) % Pow2(a) == 0
  {
    Pow2Add(b - a, a);
    MultipleMod(Pow2(b - a), Pow2(a));
  }

  lemma MultipleMod(k: nat, m: nat)
    requires m > 0
    ensures (k * m) % m == 0
  {
    DivModUnique(k * m, m, k, 0);
  }

  /** Euclidean division is determined by quotient and remainder. */
  /** x is its quotient times m plus its remainder. */
  lemma DivMod(x: int, m: int)
    requires m > 0
    ensures x == (x / m) * m + x % m && 0 <= x % m < m
  {
  }

  lemma DivModUnique(x: int, m: int, q: int, r: int)
    requires m > 0 && 0 <= r < m && x == q * m + r
    ensures x / m == q && x % m == r
  {
    var q', r' := x / m, x % m;
    assert (q' - q) * m == r - r' by {
      assert q' * m + r' == q * m + r;
    }
    if q' > q {
      MulAtLeast(q' - q, m);
    } else if q' < q {
      MulAtLeast(q - q', m);
    }
  }

  lemma MulAtLeast(a: int, m: int)
    requires a >= 1 && m > 0
    ensures a * m >= m
  {
    assert a * m == (a - 1) * m + m;
  }

  /** Reducing X * 256 + y modulo 256 * P only reduces X modulo P. */
  lemma ModShift(x: int, y: int, p: int)
    requires p > 0 && 0 <= y < 256
    ensures (x * 256 + y) % (256 * p) == (x % p) * 256 + y
  {
    var q, r := x / p, x % p;
    assert x * 256 + y == q * (256 * p) + (r * 256 + y);
    DivModUnique(x * 256 + y, 256 * p, q, r * 256 + y);
  }

  /** CeilLog2(n): the least k with n <= 2^k, for n >= 1. */
  function CeilLog2(n: int): (k: nat)
    requires n >= 1
    ensures n <= Pow2(k)
    ensures k == 0 || Pow2(k - 1) < n
  {
    if n == 1 then 0 else 1 + CeilLog2((n + 1) / 2)
  }

  /** Nothing below CeilLog2(n) is large enough: n <= 2^b forces CeilLog2(n) <= b. */
  lemma {:induction false} CeilLog2Least(n: int, b: nat)
    requires n >= 1 && n <= Pow2(b)
    ensures CeilLog2(n) <= b
  {
    if n > 1 {
      CeilLog2Least((n + 1) / 2, b - 1);
    }
  }

  /** C++ `x / d` for d > 0: the quotient rounded toward zero. */
  function TruncDiv(x: int, d: int): (q: int)
    requires d > 0
    ensures x >= 0 ==> q == x / d
    ensures x < 0 ==> q <= 0
  {
    if x >= 0 then x / d else -((-x) / d)
  }

  /** The carry or borrow after a step on an `int` sum fits in 24 bits. */
  lemma TruncDivSmall(x: int)
    requires -MaxInt - 1 <= x <= MaxInt
    ensures -0x80_0000 <= TruncDiv(x, 256) <= 0x80_0000
  {
    if x >= 0 {
      assert x / 256 <= MaxInt / 256;
    } else {
      assert (-x) / 256 <= (MaxInt + 1) / 256;
    }
  }

  /** C++ `x % d` for d > 0: the remainder takes the sign of x. */
  function TruncMod(x: int, d: int): (r: int)
    requires d > 0
    ensures TruncDiv(x, d) * d + r == x
    ensures -d < r < d
    ensures x >= 0 ==> 0 <= r
    ensures x < 0 ==> r <= 0
  {
    x - TruncDiv(x, d) * d
  }

  /** One step of a carry or borrow chain: the low digit of s stays, the rest moves to t. */
  lemma CarryStep(t: int, s: int, w: int)
    requires w > 0
    ensures ((t + s / 256) % w) * 256 + s % 256 == (t * 256 + s) % (256 * w)
  {
    assert (t + s / 256) * 256 + s % 256 == t * 256 + s;
    ModShift(t + s / 256, s % 256, w);
  }

  // ---------------------------------------------------------------- blocks

  /** A multiple of h below c blocks of h leaves room for one more block. */
  lemma RoomBelow(x: int, h: int, c: int, top: int)
    requires h >= 1 && top == c * h && 0 <= x < top && x % h == 0
    ensures x + h <= top
  {
    var m := x / h;
    assert x == m * h;
    if m >= c {
      MulLeq(c, m, h);
    }
    MulLeq(m + 1, c, h);
    assert (m + 1) * h == m * h + h;
  }

  /** A multiple of c * h, moved by i blocks of h, is still a multiple of h. */
  lemma SumAligned(x: int, big: int, h: int, c: int, i: int)
    requires h >= 1 && c >= 1 && big == c * h && x % big == 0
    ensures (x + h * i) % h == 0
  {
    var m := x / big;
    assert x == m * big;
    assert m * big == (m * c) * h;
    assert (m * c + i) * h == (m * c) * h + h * i;
    DivModUnique(x + h * i, h, m * c + i, 0);
  }

  /** Block i of n blocks of h, i < n, lies inside room for all n of them. */
  lemma BlockRoom(h: int, room: int, n: int, i: int)
    requires h >= 0 && n * h <= room && 0 <= i < n
    ensures 0 <= h * i && h * i + h <= room
  {
    MulLeq(i + 1, n, h);
    assert (i + 1) * h == h * i + h;
  }

  /** Starting at x, block j + 1 of n blocks of h still ends below top, when the room
      for all n of them, above x, does. */
  lemma NextBlockBelow(x: int, y: int, h: int, room: int, top: int, n: int, j: int)
    requires h >= 1 && n * h <= room && 0 <= j && j + 1 < n
    requires x + room <= top && y == x + h * j
    ensures y + h == x + h * (j + 1) < top
  {
    BlockRoom(h, room, n, j + 1);
    assert h * j + h == h * (j + 1);
  }

  lemma MulLeq(a: int, b: int, w: int)
    requires a <= b && w >= 0
    ensures a * w <= b * w
  {
    assert b * w - a * w == (b - a) * w;
  }

  /** A multiple of an even h has an even last byte; one below the next multiple, an odd one. */
  lemma EvenBlock(x: int, h: int, g: int)
    requires g >= 1 && h == 2 * g && x % h == 0
    ensures x % 256 % 2 == 0 && (x + h - 1) % 256 % 2 == 1
  {
    var m := x / h;
    assert x == m * h;
    assert m * h == 2 * (m * g);
    var y := x + h - 1;
    assert x % 256 == 2 * (m * g - 128 * (x / 256));
    DivModUnique(x % 256, 2, m * g - 128 * (x / 256), 0);
    assert y % 256 == 2 * (m * g + g - 1 - 128 * (y / 256)) + 1;
    DivModUnique(y % 256, 2, m * g + g - 1 - 128 * (y / 256), 1);
  }

  /** Conversion of an integer to uint32: reduction modulo 2^32. */
  function Uint32Of(x: int): (r: int)
    ensures 0 <= r <= MaxUint32 && (x - r) % (MaxUint32 + 1) == 0
  {
    x % (MaxUint32 + 1)
  }

  /** Conversion to a 32-bit two's complement int: the value modulo 2^32, read signed. */
  function Int32Of(x: int): (r: int)
    ensures -MaxInt - 1 <= r <= MaxInt && (x - r) % (MaxUint32 + 1) == 0
  {
    var u := Uint32Of(x);
    if u > MaxInt then u - (MaxUint32 + 1) else u
  }

  /** Both conversions leave a value they can hold unchanged, and a uint32 that goes
      through int comes back the same. */
  lemma ConversionsExact(x: int)
    ensures 0 <= x <= MaxUint32 ==> Uint32Of(x) == x && Uint32Of(Int32Of(x)) == x
    ensures -MaxInt - 1 <= x <= MaxInt ==> Int32Of(x) == x
  {
  }
}
