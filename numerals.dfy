/** Numbers written in base 10 or 16: how `std::stoi` reads validated digit
    strings and how `operator<<` (with `std::hex` for base 16) writes them. */
module Numerals {
  import opened Utils
  import opened Bytes
  import opened Arith

  /** `isxdigit` in the C locale. */
  predicate IsHexDigit(c: char)
  {
    '0' <= c <= '9' || 'a' <= c <= 'f' || 'A' <= c <= 'F'
  }

  function DigitValue(c: char): (v: nat)
    requires IsHexDigit(c)
    ensures v < 16
    ensures v < 10 <==> '0' <= c <= '9'
  {
    if '0' <= c <= '9' then c as int - '0' as int
    else if 'a' <= c <= 'f' then c as int - 'a' as int + 10
    else c as int - 'A' as int + 10
  }

  /** Every character of `s` is a digit of base `b`; for b == 10 this is `isdigit`. */
  predicate DigitsIn(s: string, b: nat)
  {
    forall i | 0 <= i < |s| :: IsHexDigit(s[i]) && DigitValue(s[i]) < b
  }

  /** The value `std::stoi(s, nullptr, b)` reads from a digit string. */
  function DigitsValue(s: string, b: nat): nat
    requires DigitsIn(s, b)
  {
    if |s| == 0 then 0 else DigitsValue(s[..|s| - 1], b) * b + DigitValue(s[|s| - 1])
  }

  /** The lower-case digit for v. */
  function DigitChar(v: nat): (c: char)
    requires v < 16
    ensures IsHexDigit(c) && DigitValue(c) == v
  {
    if v < 10 then ('0' as int + v) as char else ('a' as int + v - 10) as char
  }

  /** n written in base b with no leading zeros ("0" for zero). */
  function Numeral(n: nat, b: nat): string
    requires 2 <= b <= 16
  {
    if n < b then [DigitChar(n)] else Numeral(n / b, b) + [DigitChar(n % b)]
  }

  /** Reading back what was written gives the number, and what is written is a non-empty digit string. */
  lemma {:induction false} NumeralValue(n: nat, b: nat)
    requires 2 <= b <= 16
    ensures |Numeral(n, b)| >= 1 && DigitsIn(Numeral(n, b), b)
    ensures DigitsValue(Numeral(n, b), b) == n
  {
    if n < b {
      assert [DigitChar(n)][..0] == [];
    } else {
      NumeralValue(n / b, b);
      NumeralStep(n, b);
    }
  }

  /** The step of NumeralValue: the last digit written is n % b after the numeral of n / b. */
  lemma NumeralStep(n: nat, b: nat)
    requires 2 <= b <= n && b <= 16
    requires DigitsIn(Numeral(n / b, b), b) && DigitsValue(Numeral(n / b, b), b) == n / b
    ensures |Numeral(n, b)| >= 1 && DigitsIn(Numeral(n, b), b)
    ensures DigitsValue(Numeral(n, b), b) == n
  {
    DivMod(n, b);
    AppendDigit(Numeral(n / b, b), b, n % b);
  }

  /** Appending digit r to a numeral multiplies its value by b and adds r. */
  lemma AppendDigit(x: string, b: nat, r: nat)
    requires 2 <= b <= 16 && r < b && DigitsIn(x, b)
    ensures DigitsIn(x + [DigitChar(r)], b)
    ensures DigitsValue(x + [DigitChar(r)], b) == DigitsValue(x, b) * b + r
  {
    var s := x + [DigitChar(r)];
    assert s[..|x|] == x;
    forall i | 0 <= i < |s|
      ensures IsHexDigit(s[i]) && DigitValue(s[i]) < b
    {
      if i < |x| {
        assert s[i] == x[i];
      }
    }
  }

  /** A decimal digit string without leading zeros is the numeral of its value. */
  lemma {:induction false} DecimalCanonical(t: string)
    requires |t| >= 1 && DigitsIn(t, 10) && (t[0] != '0' || |t| == 1)
    ensures Numeral(DigitsValue(t, 10), 10) == t
  {
    var n := |t|;
    var c := t[n - 1];
    DigitRoundTrip(c);
    if n == 1 {
      assert t[..0] == [];
    } else {
      var u := t[..n - 1];
      assert DigitsIn(u, 10) by {
        assert forall i :: 0 <= i < |u| ==> u[i] == t[i];
      }
      assert u[0] == t[0];
      DecimalCanonical(u);
      LeadingDigitValue(u);
      DivModUnique(DigitsValue(t, 10), 10, DigitsValue(u, 10), DigitValue(c));
      assert u + [c] == t;
    }
  }

  /** A decimal digit is written back as itself. */
  lemma DigitRoundTrip(c: char)
    requires IsHexDigit(c) && DigitValue(c) < 10
    ensures DigitChar(DigitValue(c)) == c
  {
  }

  /** A digit string that starts with a nonzero digit has a nonzero value. */
  lemma {:induction false} LeadingDigitValue(t: string)
    requires |t| >= 1 && DigitsIn(t, 10) && t[0] != '0'
    ensures DigitsValue(t, 10) >= 1
  {
    if |t| > 1 {
      var u := t[..|t| - 1];
      assert forall i :: 0 <= i < |u| ==> u[i] == t[i];
      LeadingDigitValue(u);
    }
  }

  /** A digit string holds neither '.' nor ':'. */
  lemma DigitsHaveNoSeparator(s: string, b: nat)
    requires DigitsIn(s, b)
    ensures '.' !in s && ':' !in s
  {
    forall i | 0 <= i < |s|
      ensures s[i] != '.' && s[i] != ':'
    {
      assert IsHexDigit(s[i]);
    }
  }

  /** The decimal forms of the bytes, joined by "." (dotted decimal). */
  function Dotted(a: seq<byte>): string
  {
    Join(DecimalForms(a), ".")
  }

  function DecimalForms(a: seq<byte>): (r: seq<string>)
    ensures |r| == |a|
  {
    seq(|a|, i requires 0 <= i < |a| => Numeral(a[i], 10))
  }

  /** The print loop of `Mask` and `IPv4Address`: each byte in decimal, "." between neighbours. */
  method WriteDotted(a: seq<byte>) returns (s: string)
    ensures s == Dotted(a)
  {
    var parts := DecimalForms(a);
    s := "";
    var i := 0;
    while i < |a|
      invariant 0 <= i <= |a|
      invariant s + Join(parts[i..], ".") == Join(parts, ".")
    {
      assert parts[i..][1..] == parts[i + 1..];
      s := s + Numeral(a[i], 10);
      if i != |a| - 1 {
        s := s + ".";
      }
      i := i + 1;
    }
    assert parts[|a|..] == [];
  }
}
