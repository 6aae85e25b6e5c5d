/** Bitwise AND and OR on non-negative integers, one binary digit at a time,
    with the facts about masks whose set bits are a contiguous run. */
module Bits {
  import opened Arith

  /** x & y. */
  function And(x: nat, y: nat): (r: nat)
    ensures r <= x && r <= y
    decreases x
  {
    if x == 0 || y == 0 then 0
    else 2 * And(x / 2, y / 2) + (if x % 2 == 1 && y % 2 == 1 then 1 else 0)
  }

  /** x | y. */
  function Or(x: nat, y: nat): (r: nat)
    ensures x <= r && y <= r
    decreases x
  {
    if x == 0 then y
    else if y == 0 then x
    else 2 * Or(x / 2, y / 2) + (if x % 2 == 1 || y % 2 == 1 then 1 else 0)
  }

  /** One binary digit of And and Or. */
  lemma AndStep(x: nat, y: nat)
    requires x > 0 && y > 0
    ensures And(x, y) == 2 * And(x / 2, y / 2) + (if x % 2 == 1 && y % 2 == 1 then 1 else 0)
  {
  }

  lemma OrStep(x: nat, y: nat)
    requires x > 0 && y > 0
    ensures Or(x, y) == 2 * Or(x / 2, y / 2) + (if x % 2 == 1 || y % 2 == 1 then 1 else 0)
  {
  }

  /** Halving 2q + b, b a binary digit. */
  lemma Halve(v: int, q: int, b: int)
    requires v == 2 * q + b && 0 <= b <= 1
    ensures v / 2 == q && v % 2 == b
  {
    DivModUnique(v, 2, q, b);
  }

  /** Or keeps values below 2^n. */
  lemma {:induction false} OrBound(x: nat, y: nat, n: nat)
    requires x < Pow2(n) && y < Pow2(n)
    ensures Or(x, y) < Pow2(n)
  {
    if x > 0 && y > 0 {
      OrBound(x / 2, y / 2, n - 1);
    }
  }

  /** Masking twice by the same m is masking once. */
  lemma {:induction false} AndTwice(x: nat, m: nat)
    ensures And(And(x, m), m) == And(x, m)
    decreases x
  {
    if x > 0 && m > 0 {
      AndTwice(x / 2, m / 2);
    }
  }

  /** Setting the bits of m twice is setting them once. */
  lemma {:induction false} OrTwice(x: nat, m: nat)
    ensures Or(Or(x, m), m) == Or(x, m)
    decreases x
  {
    if x > 0 && m > 0 {
      var o, b := Or(x, m), if x % 2 == 1 || m % 2 == 1 then 1 else 0;
      OrStep(x, m);
      Halve(o, Or(x / 2, m / 2), b);
      OrStep(o, m);
      OrTwice(x / 2, m / 2);
      assert Or(o, m) == 2 * Or(Or(x / 2, m / 2), m / 2) + b;
    } else if x == 0 {
      OrSelf(m);
    }
  }

  lemma {:induction false} OrSelf(m: nat)
    ensures Or(m, m) == m
  {
    if m > 0 {
      OrSelf(m / 2);
    }
  }

  lemma {:induction false} AndSelf(m: nat)
    ensures And(m, m) == m
  {
    if m > 0 {
      AndSelf(m / 2);
    }
  }

  /** An n-bit value and its n-bit complement share no bit and together set all n. */
  lemma {:induction false} OrComplement(m: nat, n: nat)
    requires m < Pow2(n)
    ensures Or(m, Pow2(n) - 1 - m) == Pow2(n) - 1
  {
    var c := Pow2(n) - 1 - m;
    if n > 0 && m > 0 && c > 0 {
      var c' := Pow2(n - 1) - 1 - m / 2;
      ComplementHalves(m, n, c, c');
      OrStep(m, c);
      OrComplement(m / 2, n - 1);
      assert Or(m, c) == 2 * Or(m / 2, c') + 1;
    }
  }

  /** Halving an n-bit value halves its complement, whose low bit is the other one. */
  lemma ComplementHalves(m: nat, n: nat, c: int, c': int)
    requires n > 0 && m < Pow2(n) && c == Pow2(n) - 1 - m && c' == Pow2(n - 1) - 1 - m / 2
    ensures m / 2 < Pow2(n - 1) && c / 2 == c' && c % 2 == 1 - m % 2
  {
    Halve(m, m / 2, m % 2);
    Halve(c, c', 1 - m % 2);
  }

  /** What m keeps, its n-bit complement clears. */
  lemma {:induction false} AndComplement(x: nat, m: nat, n: nat)
    requires m < Pow2(n)
    ensures And(And(x, m), Pow2(n) - 1 - m) == 0
    decreases x
  {
    var a, c := And(x, m), Pow2(n) - 1 - m;
    if a > 0 && c > 0 {
      assert m >= a > 0 && n > 0;
      var c' := Pow2(n - 1) - 1 - m / 2;
      var b := if x % 2 == 1 && m % 2 == 1 then 1 else 0;
      AndStep(x, m);
      Halve(a, And(x / 2, m / 2), b);
      ComplementHalves(m, n, c, c');
      AndStep(a, c);
      AndComplement(x / 2, m / 2, n - 1);
      assert (if a % 2 == 1 && c % 2 == 1 then 1 else 0) == 0;
      assert And(a, c) == 2 * And(And(x / 2, m / 2), c');
    } else {
      assert And(a, c) == 0;
    }
  }

  /** The low k bits x % 2^k split as bit 0 and the low k - 1 bits of x / 2. */
  lemma LowBits(x: nat, k: nat)
    requires k > 0
    ensures x % Pow2(k) == 2 * ((x / 2) % Pow2(k - 1)) + x % 2
  {
    var p := Pow2(k - 1);
    var q, r := (x / 2) / p, (x / 2) % p;
    assert x == Pow2(k) * q + (2 * r + x % 2) by {
      assert x / 2 == p * q + r;
    }
    DivModUnique(x, Pow2(k), q, 2 * r + x % 2);
  }

  /** A mask with its top n - k of n bits set keeps the multiple of 2^k at or below x. */
  lemma {:induction false} AndHigh(x: nat, m: nat, n: nat, k: nat)
    requires x < Pow2(n) && k <= n && m + Pow2(k) == Pow2(n)
    ensures And(x, m) == x - x % Pow2(k)
    decreases k
  {
    if k == 0 {
      AndLow(x, n);
      DivModUnique(x, 1, x, 0);
    } else if k == n {
      DivModUnique(x, Pow2(n), 0, x);
    } else if x == 0 {
      DivModUnique(0, Pow2(k), 0, 0);
    } else {
      var m' := Pow2(n - 1) - Pow2(k - 1);
      Pow2Monotone(k, n - 1);
      Halve(m, m', 0);
      Halve(x, x / 2, x % 2);
      AndStep(x, m);
      assert And(x, m) == 2 * And(x / 2, m');
      AndHigh(x / 2, m', n - 1, k - 1);
      LowBits(x, k);
      HighStep(x, And(x, m), And(x / 2, m'), (x / 2) % Pow2(k - 1), x % Pow2(k));
    }
  }

  lemma HighStep(x: nat, a: int, a': int, lo: int, r: int)
    requires a == 2 * a' && a' == x / 2 - lo && r == 2 * lo + x % 2
    ensures a == x - r
  {
  }

  /** A mask of all n bits keeps every x below 2^n. */
  lemma {:induction false} AndLow(x: nat, n: nat)
    requires x < Pow2(n)
    ensures And(x, Pow2(n) - 1) == x
    decreases x
  {
    if x > 0 {
      assert Pow2(n) - 1 == 2 * (Pow2(n - 1) - 1) + 1;
      AndLow(x / 2, n - 1);
    }
  }

  /** Setting the low k bits rounds x up to the end of its block of 2^k. */
  lemma {:induction false} OrLow(x: nat, k: nat)
    ensures Or(x, Pow2(k) - 1) == x - x % Pow2(k) + Pow2(k) - 1
    decreases k
  {
    if k > 0 && x > 0 {
      OrLow(x / 2, k - 1);
      OrLowStep(x, k);
    } else if k == 0 {
      DivModUnique(x, 1, x, 0);
    } else {
      DivModUnique(0, Pow2(k), 0, 0);
    }
  }

  /** The step of OrLow: from x / 2 and k - 1 to x and k. */
  lemma OrLowStep(x: nat, k: nat)
    requires k > 0 && x > 0
    requires Or(x / 2, Pow2(k - 1) - 1) == x / 2 - (x / 2) % Pow2(k - 1) + Pow2(k - 1) - 1
    ensures Or(x, Pow2(k) - 1) == x - x % Pow2(k) + Pow2(k) - 1
  {
    var p := Pow2(k - 1);
    var l := Pow2(k) - 1;
    Halve(l, p - 1, 1);
    OrStep(x, l);
    LowBits(x, k);
    LowStep(x, Or(x, l), Or(x / 2, p - 1), (x / 2) % p, x % Pow2(k), p);
  }

  lemma LowStep(x: nat, o: int, o': int, lo: int, r: int, p: int)
    requires o == 2 * o' + 1 && o' == x / 2 - lo + p - 1 && r == 2 * lo + x % 2
    ensures o == x - r + 2 * p - 1
  {
  }
}
