/** The text form of `IPv6Address`: hextets, the zero run `print` compresses,
    what `print` writes and what `setAddress` accepts (with "::" expansion),
    and where the two agree. */
module IPv6 {
  import opened Errors
  import opened Utils
  import opened Numerals
  import opened Bytes

  /** IPV6_NUM_HEXTETS and IPV6_NUM_OCTETS. */
  const NumHextets: nat := 8
  const NumOctets: nat := 16

  /** Hextet i of the address: `_address[2i] << 8 | _address[2i + 1]`, which for
      a byte in the low position is `_address[2i] * 256 + _address[2i + 1]`. */
  function Hextets(a: seq<byte>): (h: seq<int>)
    requires |a| >= NumOctets
    ensures |h| == NumHextets && forall i :: 0 <= i < NumHextets ==> 0 <= h[i] <= 0xFFFF
  {
    seq(NumHextets, i requires 0 <= i < NumHextets => a[2 * i] as int * 256 + a[2 * i + 1])
  }

  /** The two bytes `setAddress` stores for each hextet value: `(uint8_t)(v >> 8)`
      and `(uint8_t)(v & 0xFF)`, which for v <= 0xFFFF are v / 256 and v % 256. */
  function OctetsOf(h: seq<int>): (a: seq<byte>)
    requires |h| == NumHextets && forall i :: 0 <= i < NumHextets ==> 0 <= h[i] <= 0xFFFF
    ensures |a| == NumOctets
  {
    seq(NumOctets, j requires 0 <= j < NumOctets => if j % 2 == 0 then h[j / 2] / 256 else h[j / 2] % 256)
  }

  /** Storing the hextets of an address gives back its first sixteen bytes. */
  lemma OctetsOfHextets(a: seq<byte>)
    requires |a| >= NumOctets
    ensures OctetsOf(Hextets(a)) == a[..NumOctets]
  {
    var h, b := Hextets(a), OctetsOf(Hextets(a));
    forall j | 0 <= j < NumOctets
      ensures b[j] == a[j]
    {
      var i := j / 2;
      Arith.DivModUnique(h[i], 256, a[2 * i], a[2 * i + 1]);
    }
  }

  // ---------------------------------------------------------------- findLongestZeroSequence

  /** Hextets s .. s + l - 1 exist and are all zero. */
  predicate ZeroRun(h: seq<int>, s: int, l: int)
  {
    0 <= s && 0 <= l && s + l <= |h| && forall k :: s <= k < s + l ==> h[k] == 0
  }

  /** The run `print` compresses: (-1, -1) when no hextet is zero; otherwise
      [s, e] is a zero run, no zero run is longer, and every zero run that starts
      before s is shorter. */
  ghost predicate IsFirstLongestRun(h: seq<int>, s: int, e: int)
  {
    if s == -1 then
      e == -1 && forall k :: 0 <= k < |h| ==> h[k] != 0
    else
      0 <= s <= e < |h| && ZeroRun(h, s, e - s + 1)
      && (forall t, l :: ZeroRun(h, t, l) ==> l <= e - s + 1)
      && (forall t, l :: ZeroRun(h, t, l) && t < s ==> l < e - s + 1)
  }

  /** The scan of `findLongestZeroSequence` from hextet i on: cur is the length of the
      zero run ending at i - 1 (it starts at i - cur), (best, bestLen) the longest run
      closed so far, replaced only by a strictly longer one. */
  function ScanFrom(h: seq<int>, i: nat, cur: nat, best: int, bestLen: nat): (r: (int, int))
    requires i <= |h|
    decreases |h| - i
  {
    if i == |h| then
      var s := if cur > bestLen then i - cur else best;
      var l := if cur > bestLen then cur else bestLen;
      if s == -1 then (-1, -1) else (s, s + l - 1)
    else if h[i] == 0 then ScanFrom(h, i + 1, cur + 1, best, bestLen)
    else if cur > bestLen then ScanFrom(h, i + 1, 0, i - cur, cur)
    else ScanFrom(h, i + 1, 0, best, bestLen)
  }

  /** `findLongestZeroSequence`. */
  function LongestZeroRun(h: seq<int>): (r: (int, int))
  {
    ScanFrom(h, 0, 0, -1, 0)
  }

  /** What holds of the scan state before hextet i. */
  ghost predicate ScanState(h: seq<int>, i: nat, cur: nat, best: int, bestLen: nat)
  {
    cur <= i <= |h| && ZeroRun(h, i - cur, cur) && (cur < i ==> h[i - cur - 1] != 0)
    && (bestLen == 0 ==> best == -1)
    && (bestLen > 0 ==> 0 <= best && best + bestLen <= i - cur && ZeroRun(h, best, bestLen))
    && (forall t, l :: ZeroRun(h, t, l) && t + l <= i - cur ==> l <= bestLen)
    && (forall t, l :: ZeroRun(h, t, l) && t + l <= i - cur && t < best ==> l < bestLen)
  }

  /** The scan returns the first longest zero run. */
  lemma LongestZeroRunIsFirstLongest(h: seq<int>)
    ensures IsFirstLongestRun(h, LongestZeroRun(h).0, LongestZeroRun(h).1)
  {
    ScanCorrect(h, 0, 0, -1, 0);
  }

  lemma {:induction false} ScanCorrect(h: seq<int>, i: nat, cur: nat, best: int, bestLen: nat)
    requires ScanState(h, i, cur, best, bestLen)
    ensures IsFirstLongestRun(h, ScanFrom(h, i, cur, best, bestLen).0, ScanFrom(h, i, cur, best, bestLen).1)
    decreases |h| - i
  {
    if i == |h| {
      ScanEnd(h, cur, best, bestLen);
    } else if h[i] == 0 {
      ScanZero(h, i, cur, best, bestLen);
      ScanCorrect(h, i + 1, cur + 1, best, bestLen);
    } else if cur > bestLen {
      ScanLonger(h, i, cur, best, bestLen);
      ScanCorrect(h, i + 1, 0, i - cur, cur);
    } else {
      ScanNotLonger(h, i, cur, best, bestLen);
      ScanCorrect(h, i + 1, 0, best, bestLen);
    }
  }

  /** A zero run that starts before the current run ends before it. */
  lemma RunBefore(h: seq<int>, i: nat, cur: nat, t: int, l: int)
    requires cur <= i <= |h| && (cur < i ==> h[i - cur - 1] != 0)
    requires ZeroRun(h, t, l) && t < i - cur && t + l <= i
    ensures t + l <= i - cur
  {
  }

  lemma ScanZero(h: seq<int>, i: nat, cur: nat, best: int, bestLen: nat)
    requires ScanState(h, i, cur, best, bestLen) && i < |h| && h[i] == 0
    ensures ScanState(h, i + 1, cur + 1, best, bestLen)
  {
  }

  lemma ScanLonger(h: seq<int>, i: nat, cur: nat, best: int, bestLen: nat)
    requires ScanState(h, i, cur, best, bestLen) && i < |h| && h[i] != 0 && cur > bestLen
    ensures ScanState(h, i + 1, 0, i - cur, cur)
  {
    forall t, l | ZeroRun(h, t, l) && t + l <= i + 1
      ensures l <= cur && (t < i - cur ==> l < cur)
    {
      if t < i - cur {
        RunBefore(h, i, cur, t, l);
      }
    }
  }

  lemma ScanNotLonger(h: seq<int>, i: nat, cur: nat, best: int, bestLen: nat)
    requires ScanState(h, i, cur, best, bestLen) && i < |h| && h[i] != 0 && cur <= bestLen
    ensures ScanState(h, i + 1, 0, best, bestLen)
  {
    forall t, l | ZeroRun(h, t, l) && t + l <= i + 1
      ensures l <= bestLen && (t < best ==> l < bestLen)
    {
      if t < i - cur {
        RunBefore(h, i, cur, t, l);
      }
    }
  }

  lemma ScanEnd(h: seq<int>, cur: nat, best: int, bestLen: nat)
    requires ScanState(h, |h|, cur, best, bestLen)
    ensures IsFirstLongestRun(h, ScanFrom(h, |h|, cur, best, bestLen).0, ScanFrom(h, |h|, cur, best, bestLen).1)
  {
    var i := |h|;
    forall t, l | ZeroRun(h, t, l)
      ensures l <= (if cur > bestLen then cur else bestLen)
      ensures t < (if cur > bestLen then i - cur else best) ==> l < (if cur > bestLen then cur else bestLen)
    {
      if t < i - cur {
        RunBefore(h, i, cur, t, l);
      }
    }
    if cur <= bestLen && bestLen == 0 {
      forall k | 0 <= k < i
        ensures h[k] != 0
      {
        if h[k] == 0 {
          assert ZeroRun(h, k, 1);
        }
      }
    }
  }

  // ---------------------------------------------------------------- print

  /** Eight hextet values. */
  predicate IsHextets(h: seq<int>)
  {
    |h| == NumHextets && forall i :: 0 <= i < NumHextets ==> 0 <= h[i] <= 0xFFFF
  }

  /** A run `print` can be given: none, or an interval of hextet positions. */
  predicate IsRun(s: int, e: int)
  {
    (s == -1 && e == -1) || 0 <= s <= e < NumHextets
  }

  /** `hex << (int)hextet` for hextets lo .. hi - 1: lower case, no leading zeros. */
  function HexForms(h: seq<int>, lo: nat, hi: nat): (r: seq<string>)
    requires IsHextets(h) && lo <= hi <= NumHextets
    ensures |r| == hi - lo
  {
    seq(hi - lo, k requires 0 <= k < hi - lo => Numeral(h[lo + k], 16))
  }

  /** What the print loop writes before the run: a single ":" as written, which the
      corrected form doubles when the run starts at hextet 0. */
  function Opening(s: int, corrected: bool): string
  {
    if corrected && s == 0 then "::" else ":"
  }

  /** What turn i of the print loop writes, the run being [s, e]. */
  function Piece(h: seq<int>, s: int, e: int, i: nat, corrected: bool): string
    requires IsHextets(h) && i < NumHextets
  {
    (if i == s then Opening(s, corrected) else "")
    + (if s <= i <= e then "" else Numeral(h[i], 16) + (if i < NumHextets - 1 && i != e then ":" else ""))
  }

  /** What the print loop has written after n turns. */
  function Printed(h: seq<int>, s: int, e: int, n: nat, corrected: bool): string
    requires IsHextets(h) && n <= NumHextets
  {
    if n == 0 then "" else Printed(h, s, e, n - 1, corrected) + Piece(h, s, e, n - 1, corrected)
  }

  /** One turn of the print loop: the ":" it opens the run with, then the hextet and its
      separator unless the turn is inside the run. */
  lemma PrintedStep(h: seq<int>, s: int, e: int, i: nat, opening: string, written: string)
    requires IsHextets(h) && i < NumHextets
    requires opening == if i == s then ":" else ""
    requires written == if s <= i <= e then "" else Numeral(h[i], 16) + (if i < NumHextets - 1 && i != e then ":" else "")
    ensures Printed(h, s, e, i + 1, false) == Printed(h, s, e, i, false) + (opening + written)
  {
  }

  /** `print`, as written. */
  function PrintAsWritten(a: seq<byte>): string
    requires |a| >= NumOctets
  {
    var h := Hextets(a);
    var r := LongestZeroRun(h);
    Printed(h, r.0, r.1, NumHextets, false)
  }

  /** `print`, with the run at hextet 0 opened by "::". */
  function Print(a: seq<byte>): string
    requires |a| >= NumOctets
  {
    var h := Hextets(a);
    var r := LongestZeroRun(h);
    Printed(h, r.0, r.1, NumHextets, true)
  }

  /** The compressed form of section 2.2 of RFC 4291: the hextets joined by ":",
      with the run [s, e], if any, replaced by "::". */
  function Compressed(h: seq<int>, s: int, e: int): string
    requires IsHextets(h) && IsRun(s, e)
  {
    if s == -1 then Join(HexForms(h, 0, NumHextets), ":")
    else Join(HexForms(h, 0, s), ":") + "::" + Join(HexForms(h, e + 1, NumHextets), ":")
  }

  /** The hextets lo .. n - 1 as the loop writes them outside the run: each followed
      by ":" unless it is the last hextet. */
  function Spelled(h: seq<int>, lo: nat, n: nat): string
    requires IsHextets(h) && lo <= n <= NumHextets
    decreases n
  {
    if n == lo then ""
    else Spelled(h, lo, n - 1) + Numeral(h[n - 1], 16) + (if n - 1 < NumHextets - 1 then ":" else "")
  }

  lemma {:induction false} SpelledJoin(h: seq<int>, lo: nat, n: nat)
    requires IsHextets(h) && lo <= n <= NumHextets
    ensures Spelled(h, lo, n) == if n == lo then "" else Join(HexForms(h, lo, n), ":") + (if n < NumHextets then ":" else "")
    decreases n
  {
    if n > lo {
      var x := Numeral(h[n - 1], 16);
      if n - 1 == lo {
        assert HexForms(h, lo, n) == [x];
      } else {
        SpelledJoin(h, lo, n - 1);
        assert HexForms(h, lo, n) == HexForms(h, lo, n - 1) + [x];
        JoinAppend(HexForms(h, lo, n - 1), x, ":");
      }
    }
  }

  /** What the print loop has written after n turns, region by region: the hextets
      before the run, then the opening once the run starts, then the hextets after it. */
  function Expected(h: seq<int>, s: int, e: int, n: nat, corrected: bool): string
    requires IsHextets(h) && IsRun(s, e) && n <= NumHextets
  {
    if s == -1 || n <= s then Spelled(h, 0, n)
    else if n <= e + 1 then Spelled(h, 0, s) + Opening(s, corrected)
    else Spelled(h, 0, s) + Opening(s, corrected) + Spelled(h, e + 1, n)
  }

  lemma {:induction false} PrintedShape(h: seq<int>, s: int, e: int, n: nat, corrected: bool)
    requires IsHextets(h) && IsRun(s, e) && n <= NumHextets
    ensures Printed(h, s, e, n, corrected) == Expected(h, s, e, n, corrected)
    decreases n
  {
    if n > 0 {
      PrintedShape(h, s, e, n - 1, corrected);
      ExpectedStep(h, s, e, n - 1, corrected);
    }
  }

  /** One turn of the loop takes the expected text after i turns to that after i + 1. */
  lemma ExpectedStep(h: seq<int>, s: int, e: int, i: nat, corrected: bool)
    requires IsHextets(h) && IsRun(s, e) && i < NumHextets
    ensures Expected(h, s, e, i, corrected) + Piece(h, s, e, i, corrected) == Expected(h, s, e, i + 1, corrected)
  {
    if s == -1 || i < s {
      StepBefore(h, s, e, i, corrected);
    } else if i <= e {
      StepInRun(h, s, e, i, corrected);
    } else {
      StepAfter(h, s, e, i, corrected);
    }
  }

  lemma StepBefore(h: seq<int>, s: int, e: int, i: nat, corrected: bool)
    requires IsHextets(h) && IsRun(s, e) && i < NumHextets && (s == -1 || i < s)
    ensures Expected(h, s, e, i, corrected) + Piece(h, s, e, i, corrected) == Expected(h, s, e, i + 1, corrected)
  {
    var x := Numeral(h[i], 16) + (if i < NumHextets - 1 then ":" else "");
    assert Piece(h, s, e, i, corrected) == x;
    assert Spelled(h, 0, i + 1) == Spelled(h, 0, i) + x;
  }

  lemma StepInRun(h: seq<int>, s: int, e: int, i: nat, corrected: bool)
    requires IsHextets(h) && IsRun(s, e) && 0 <= s <= i <= e
    ensures Expected(h, s, e, i, corrected) + Piece(h, s, e, i, corrected) == Expected(h, s, e, i + 1, corrected)
  {
    assert Piece(h, s, e, i, corrected) == if i == s then Opening(s, corrected) else "";
  }

  lemma StepAfter(h: seq<int>, s: int, e: int, i: nat, corrected: bool)
    requires IsHextets(h) && IsRun(s, e) && i < NumHextets && 0 <= s && e < i
    ensures Expected(h, s, e, i, corrected) + Piece(h, s, e, i, corrected) == Expected(h, s, e, i + 1, corrected)
  {
    var x := Numeral(h[i], 16) + (if i < NumHextets - 1 then ":" else "");
    assert Piece(h, s, e, i, corrected) == x;
    SpelledStep(h, e + 1, i);
    var pre := Spelled(h, 0, s) + Opening(s, corrected);
    if i == e + 1 {
      assert Expected(h, s, e, i, corrected) == pre;
      AppendFirstAfter(h, s, e, i, corrected, pre, x);
    } else {
      assert Expected(h, s, e, i, corrected) == pre + Spelled(h, e + 1, i);
      AppendNextAfter(h, s, e, i, corrected, pre, x);
    }
  }

  lemma SpelledStep(h: seq<int>, lo: nat, n: nat)
    requires IsHextets(h) && lo <= n < NumHextets
    ensures Spelled(h, lo, n + 1) == Spelled(h, lo, n) + (Numeral(h[n], 16) + (if n < NumHextets - 1 then ":" else ""))
  {
  }

  lemma AppendFirstAfter(h: seq<int>, s: int, e: int, i: nat, corrected: bool, pre: string, x: string)
    requires IsHextets(h) && 0 <= s <= e && i == e + 1 < NumHextets
    requires pre == Spelled(h, 0, s) + Opening(s, corrected)
    requires Spelled(h, e + 1, i + 1) == Spelled(h, e + 1, i) + x
    ensures pre + x == Expected(h, s, e, i + 1, corrected)
  {
    assert Spelled(h, e + 1, i) == "";
  }

  lemma AppendNextAfter(h: seq<int>, s: int, e: int, i: nat, corrected: bool, pre: string, x: string)
    requires IsHextets(h) && 0 <= s <= e && e + 1 < i < NumHextets
    requires pre == Spelled(h, 0, s) + Opening(s, corrected)
    requires Spelled(h, e + 1, i + 1) == Spelled(h, e + 1, i) + x
    ensures pre + Spelled(h, e + 1, i) + x == Expected(h, s, e, i + 1, corrected)
  {
  }

  /** The corrected print writes the compressed form. */
  lemma PrintedIsCompressed(h: seq<int>, s: int, e: int)
    requires IsHextets(h) && IsRun(s, e)
    ensures Printed(h, s, e, NumHextets, true) == Compressed(h, s, e)
  {
    PrintedShape(h, s, e, NumHextets, true);
    if s == -1 {
      SpelledJoin(h, 0, NumHextets);
    } else {
      RunShape(h, s, e, true);
    }
  }

  /** As written, the print writes the compressed form unless the run starts at
      hextet 0, where it writes one ":" before the rest. */
  lemma PrintedAsWritten(h: seq<int>, s: int, e: int)
    requires IsHextets(h) && IsRun(s, e)
    ensures s != 0 ==> Printed(h, s, e, NumHextets, false) == Compressed(h, s, e)
    ensures s == 0 ==> Printed(h, s, e, NumHextets, false) == ":" + Join(HexForms(h, e + 1, NumHextets), ":")
  {
    PrintedShape(h, s, e, NumHextets, false);
    if s == -1 {
      SpelledJoin(h, 0, NumHextets);
    } else {
      RunShape(h, s, e, false);
    }
  }

  /** With a run, the expected text after all eight turns, written with joins. */
  lemma RunShape(h: seq<int>, s: int, e: int, corrected: bool)
    requires IsHextets(h) && 0 <= s <= e < NumHextets
    ensures Expected(h, s, e, NumHextets, corrected)
      == (if s == 0 then Opening(s, corrected) else Join(HexForms(h, 0, s), ":") + ":" + Opening(s, corrected))
         + Join(HexForms(h, e + 1, NumHextets), ":")
  {
    SpelledJoin(h, 0, s);
    SpelledJoin(h, e + 1, NumHextets);
    if e + 1 == NumHextets {
      assert HexForms(h, NumHextets, NumHextets) == [];
    }
  }

  // ---------------------------------------------------------------- setAddress

  /** A hextet `setAddress` accepts: non-empty, hex digits only, value at most 0xFFFF. */
  predicate HextetText(t: string)
  {
    |t| >= 1 && DigitsIn(t, 16) && DigitsValue(t, 16) <= 0xFFFF
  }

  /** `vector::resize(n, "0")`: cut to the first n strings, or padded with "0". */
  function Resize(g: seq<string>, n: nat): (r: seq<string>)
    ensures |r| == n
    ensures forall i :: 0 <= i < n ==> r[i] == if i < |g| then g[i] else "0"
  {
    if |g| >= n then g[..n] else g + seq(n - |g|, _ => "0")
  }

  /** One side of "::": no hextets when empty, else its ":"-separated parts. */
  function Groups(piece: string): seq<string>
  {
    if piece == "" then [] else Tokens(piece, ":")
  }

  /** Text in which `find` meets the delimiter splits into at least two parts. */
  lemma FoundSplits(s: string, d: string)
    requires |d| > 0 && Find(s, d, 0).Some?
    ensures |Tokens(s, d)| >= 2
  {
    TokensCount(s, d);
    OccurrencesFrom(s, d, 0);
    assert s[0..] == s;
  }

  /** The hextet strings `setAddress` goes on to check. With "::", the hextets
      left of the first "::" are cut or padded with "0" to make room for those
      right of it (anything after a second "::" is dropped); more than eight on
      the right make `8 - rightPart.size()` wrap around and `resize` fail. */
  function Expand(text: string): (r: Result<seq<string>>)
    ensures r.Err? ==> r.error == ResizeFailure
    ensures r.Ok? && Find(text, "::", 0).Some? ==> |r.value| == NumHextets
    ensures Find(text, "::", 0).None? ==> r == Ok(Tokens(text, ":"))
  {
    if Find(text, "::", 0).Some? then
      FoundSplits(text, "::");
      var parts := Tokens(text, "::");
      var left := Groups(parts[0]);
      var right := Groups(parts[1]);
      if |right| > NumHextets then Err(ResizeFailure)
      else Ok(Resize(left, NumHextets - |right|) + right)
    else
      Ok(Tokens(text, ":"))
  }

  /** The values of eight accepted hextet strings. */
  function HextetValues(g: seq<string>): (h: seq<int>)
    requires |g| == NumHextets && forall i :: 0 <= i < NumHextets ==> HextetText(g[i])
    ensures IsHextets(h)
    ensures forall i :: 0 <= i < NumHextets ==> HextetText(g[i]) && h[i] == DigitsValue(g[i], 16)
  {
    var h := seq(NumHextets, i requires 0 <= i < NumHextets => assert HextetText(g[i]); DigitsValue(g[i], 16));
    assert forall i :: 0 <= i < NumHextets ==> HextetText(g[i]) && h[i] == DigitsValue(g[i], 16);
    h
  }

  /** `setAddress`: eight hextet strings after expansion, each accepted, stored two bytes each. */
  function Parse(text: string): (r: Result<seq<byte>>)
    ensures r.Ok? ==> |r.value| == NumOctets
    ensures r.Err? ==> r.error == InvalidAddressFormat || r.error == ResizeFailure
  {
    match Expand(text)
    case Err(e) => Err(e)
    case Ok(g) =>
      if |g| == NumHextets && forall i :: 0 <= i < NumHextets ==> HextetText(g[i]) then
        Ok(OctetsOf(HextetValues(g)))
      else
        Err(InvalidAddressFormat)
  }

  // ---------------------------------------------------------------- print, then parse

  /** Non-empty, with ":" neither first nor last nor twice in a row. */
  predicate ColonSeparated(t: string)
  {
    |t| >= 1 && t[0] != ':' && t[|t| - 1] != ':'
    && forall k :: 0 <= k < |t| - 1 ==> t[k] != ':' || t[k + 1] != ':'
  }

  /** Non-empty colon-free parts joined by ":" never hold "::" and neither start nor end with ":". */
  lemma {:induction false} JoinColonSeparated(parts: seq<string>)
    requires |parts| >= 1 && forall i :: 0 <= i < |parts| ==> |parts[i]| >= 1 && ':' !in parts[i]
    ensures ColonSeparated(Join(parts, ":"))
  {
    if |parts| > 1 {
      JoinColonSeparated(parts[1..]);
      var x, rest := parts[0], Join(parts[1..], ":");
      var t := x + ":" + rest;
      assert Join(parts, ":") == t;
      assert t[0] == x[0] && t[|t| - 1] == rest[|rest| - 1];
      forall k | 0 <= k < |t| - 1
        ensures t[k] != ':' || t[k + 1] != ':'
      {
        if k < |x| {
          assert t[k] == x[k];
        } else if k > |x| {
          assert t[k] == rest[k - |x| - 1] && t[k + 1] == rest[k - |x|];
        } else {
          assert t[k + 1] == rest[0];
        }
      }
    }
  }

  /** "::" occurs where two colons stand next to each other. */
  lemma DoubleColonAt(t: string, k: int)
    requires OccursAt(t, "::", k)
    ensures t[k] == ':' && t[k + 1] == ':'
  {
    assert t[k..k + 2][0] == t[k] && t[k..k + 2][1] == t[k + 1];
  }

  /** The hex forms of hextets lo .. hi - 1, the values they read back as, and their join. */
  lemma HexFormsRead(h: seq<int>, lo: nat, hi: nat)
    requires IsHextets(h) && lo <= hi <= NumHextets
    ensures forall k :: 0 <= k < hi - lo ==>
      HextetText(HexForms(h, lo, hi)[k]) && DigitsValue(HexForms(h, lo, hi)[k], 16) == h[lo + k]
    ensures forall k :: 0 <= k < hi - lo ==> ':' !in HexForms(h, lo, hi)[k]
    ensures lo < hi ==> ColonSeparated(Join(HexForms(h, lo, hi), ":"))
    ensures lo < hi ==> Tokens(Join(HexForms(h, lo, hi), ":"), ":") == HexForms(h, lo, hi)
  {
    var f := HexForms(h, lo, hi);
    forall k | 0 <= k < hi - lo
      ensures HextetText(f[k]) && DigitsValue(f[k], 16) == h[lo + k] && ':' !in f[k]
    {
      NumeralValue(h[lo + k], 16);
      DigitsHaveNoSeparator(f[k], 16);
    }
    if lo < hi {
      JoinColonSeparated(f);
      TokensOfJoin(f, ':');
    }
  }

  /** The compressed form without a run: eight hex forms joined by ":", read back. */
  lemma ParseUncompressed(h: seq<int>)
    requires IsHextets(h)
    ensures Parse(Compressed(h, -1, -1)) == Ok(OctetsOf(h))
  {
    var f := HexForms(h, 0, NumHextets);
    HexFormsRead(h, 0, NumHextets);
    NoDoubleColon(Join(f, ":"));
    assert HextetValues(f) == h;
  }

  /** Colon-separated text holds no "::". */
  lemma NoDoubleColon(t: string)
    requires ColonSeparated(t)
    ensures Find(t, "::", 0) == None
  {
    forall k | 0 <= k
      ensures !OccursAt(t, "::", k)
    {
      if OccursAt(t, "::", k) {
        DoubleColonAt(t, k);
      }
    }
    FindNone(t, "::", 0);
  }

  /** The hextet strings the expansion of a compressed form with run [s, e] yields. */
  function RunGroups(h: seq<int>, s: int, e: int): (g: seq<string>)
    requires IsHextets(h) && 0 <= s <= e < NumHextets
    ensures |g| == NumHextets
  {
    Resize(HexForms(h, 0, s), e + 1) + HexForms(h, e + 1, NumHextets)
  }

  /** The compressed form with a run of zeros [s, e] reads back as the hextets. */
  lemma ParseRun(h: seq<int>, s: int, e: int)
    requires IsHextets(h) && 0 <= s <= e < NumHextets && ZeroRun(h, s, e - s + 1)
    ensures Parse(Compressed(h, s, e)) == Ok(OctetsOf(h))
  {
    ExpandRun(h, s, e);
    RunGroupsRead(h, s, e);
  }

  lemma ExpandRun(h: seq<int>, s: int, e: int)
    requires IsHextets(h) && 0 <= s <= e < NumHextets
    ensures Expand(Compressed(h, s, e)) == Ok(RunGroups(h, s, e))
  {
    var left, right := HexForms(h, 0, s), HexForms(h, e + 1, NumHextets);
    var x, y := Join(left, ":"), Join(right, ":");
    HexFormsRead(h, 0, s);
    HexFormsRead(h, e + 1, NumHextets);
    RunSplits(x, y);
    assert Groups(x) == left;
    assert Groups(y) == right;
  }

  lemma RunGroupsRead(h: seq<int>, s: int, e: int)
    requires IsHextets(h) && 0 <= s <= e < NumHextets && ZeroRun(h, s, e - s + 1)
    ensures forall i :: 0 <= i < NumHextets ==> HextetText(RunGroups(h, s, e)[i])
    ensures HextetValues(RunGroups(h, s, e)) == h
  {
    var g := RunGroups(h, s, e);
    var right := HexForms(h, e + 1, NumHextets);
    HexFormsRead(h, 0, s);
    HexFormsRead(h, e + 1, NumHextets);
    forall i | 0 <= i < NumHextets
      ensures HextetText(g[i]) && DigitsValue(g[i], 16) == h[i]
    {
      if s <= i <= e {
        assert g[i] == "0";
        assert "0"[..0] == [];
      } else if i > e {
        assert g[i] == right[i - e - 1];
      }
    }
  }

  /** The run's "::" is the only one the scan meets, so the text splits into its two sides. */
  lemma RunSplits(x: string, y: string)
    requires x == "" || ColonSeparated(x)
    requires y == "" || ColonSeparated(y)
    ensures Find(x + "::" + y, "::", 0).Some?
    ensures Tokens(x + "::" + y, "::") == [x, y]
  {
    var t := x + "::" + y;
    forall k | 0 <= k < |x| || |x| + 2 <= k
      ensures !OccursAt(t, "::", k)
    {
      if OccursAt(t, "::", k) {
        DoubleColonAt(t, k);
      }
    }
    TokensOfPair(x, "::", y);
    assert OccursAt(t, "::", |x|) by {
      assert t[|x|..|x| + 2] == "::";
    }
    FindFirst(t, "::", 0, |x|);
  }

  /** The compressed form of any zero run, or of none, reads back as the hextets. */
  lemma ParseCompressed(h: seq<int>, s: int, e: int)
    requires IsHextets(h) && IsRun(s, e)
    requires s >= 0 ==> ZeroRun(h, s, e - s + 1)
    ensures Parse(Compressed(h, s, e)) == Ok(OctetsOf(h))
  {
    if s == -1 {
      ParseUncompressed(h);
    } else {
      ParseRun(h, s, e);
    }
  }

  /** Printing sixteen bytes (corrected) and parsing the text gives them back. */
  lemma RoundTrip(a: seq<byte>)
    requires |a| == NumOctets
    ensures Parse(Print(a)) == Ok(a)
  {
    var h := Hextets(a);
    var r := LongestZeroRun(h);
    LongestZeroRunIsFirstLongest(h);
    PrintedIsCompressed(h, r.0, r.1);
    ParseCompressed(h, r.0, r.1);
    OctetsOfHextets(a);
    assert a[..NumOctets] == a;
  }

  /** As written, the round trip holds too when the run does not start at hextet 0. */
  lemma RoundTripAsWritten(a: seq<byte>)
    requires |a| == NumOctets && LongestZeroRun(Hextets(a)).0 != 0
    ensures Parse(PrintAsWritten(a)) == Ok(a)
  {
    var h := Hextets(a);
    var r := LongestZeroRun(h);
    LongestZeroRunIsFirstLongest(h);
    PrintedAsWritten(h, r.0, r.1);
    ParseCompressed(h, r.0, r.1);
    OctetsOfHextets(a);
    assert a[..NumOctets] == a;
  }

  /** As written, an address whose longest zero run starts at hextet 0 (such as
      "::1") prints as text `setAddress` rejects: one ":" and then the rest. */
  lemma LeadingRunNotReparsed(a: seq<byte>)
    requires |a| >= NumOctets && LongestZeroRun(Hextets(a)).0 == 0
    ensures Parse(PrintAsWritten(a)) == Err(InvalidAddressFormat)
  {
    var h := Hextets(a);
    var r := LongestZeroRun(h);
    LongestZeroRunIsFirstLongest(h);
    PrintedAsWritten(h, r.0, r.1);
    var y := Join(HexForms(h, r.1 + 1, NumHextets), ":");
    HexFormsRead(h, r.1 + 1, NumHextets);
    if r.1 + 1 == NumHextets {
      assert HexForms(h, NumHextets, NumHextets) == [];
    }
    LeadingColonRejected(y);
  }

  /** ":" followed by nothing or by colon-separated text: no "::", and the first part is empty. */
  lemma LeadingColonRejected(y: string)
    requires y == "" || ColonSeparated(y)
    ensures Parse(":" + y) == Err(InvalidAddressFormat)
  {
    var t := ":" + y;
    forall k | 0 <= k
      ensures !OccursAt(t, "::", k)
    {
      if OccursAt(t, "::", k) {
        DoubleColonAt(t, k);
      }
    }
    FindNone(t, "::", 0);
    assert OccursAt(t, ":", 0) by {
      assert t[0..1] == ":";
    }
    FindFirst(t, ":", 0, 0);
    assert Tokens(t, ":")[0] == t[0..0] == "";
  }
}
