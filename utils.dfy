/** String splitting as `utils::split` does it, with the joins that invert it. */
module Utils {

  datatype Option<+T> = None | Some(value: T)

  /** True when `d` occurs in `s` starting at position `k`. */
  predicate OccursAt(s: string, d: string, k: int)
  {
    0 <= k && k + |d| <= |s| && s[k..k + |d|] == d
  }

  /** `s.find(d, start)`: the first position at or after `start` where `d` occurs. */
  function Find(s: string, d: string, start: nat): (r: Option<nat>)
    ensures r.Some? ==> start <= r.value && r.value + |d| <= |s|
    decreases |s| - start
  {
    if start + |d| > |s| then None
    else if s[start..start + |d|] == d then Some(start)
    else Find(s, d, start + 1)
  }

  /** Find reports the first occurrence at or after `start`, and none only when there is none. */
  lemma {:induction false} FindFirstOccurrence(s: string, d: string, start: nat)
    ensures Find(s, d, start).Some? ==> OccursAt(s, d, Find(s, d, start).value)
    ensures Find(s, d, start).Some? ==> forall k :: start <= k < Find(s, d, start).value ==> !OccursAt(s, d, k)
    ensures Find(s, d, start).None? ==> forall k :: start <= k ==> !OccursAt(s, d, k)
    decreases |s| - start
  {
    if start + |d| <= |s| && s[start..start + |d|] != d {
      FindFirstOccurrence(s, d, start + 1);
    }
  }

  /** The pieces `split` produces from position `start` onward. */
  function TokensFrom(s: string, d: string, start: nat): (r: seq<string>)
    requires |d| > 0 && start <= |s|
    ensures |r| >= 1
    decreases |s| - start
  {
    match Find(s, d, start)
    case None => [s[start..]]
    case Some(e) => [s[start..e]] + TokensFrom(s, d, e + |d|)
  }

  /** The pieces of `s` between occurrences of `d`, scanned left to right. */
  function Tokens(s: string, d: string): seq<string>
    requires |d| > 0
  {
    TokensFrom(s, d, 0)
  }

  /** `utils::split`: the loop of the source over `find`. */
  method Split(s: string, d: string) returns (tokens: seq<string>)
    requires |d| > 0
    ensures tokens == Tokens(s, d)
  {
    tokens := [];
    var start := 0;
    var next := Find(s, d, start);
    while next.Some?
      invariant start <= |s|
      invariant next == Find(s, d, start)
      invariant tokens + TokensFrom(s, d, start) == Tokens(s, d)
      decreases |s| - start
    {
      var end := next.value;
      tokens := tokens + [s[start..end]];
      start := end + |d|;
      next := Find(s, d, start);
    }
    tokens := tokens + [s[start..]];
  }

  /** The parts, with `d` between each neighbouring pair. */
  function Join(parts: seq<string>, d: string): string
  {
    if |parts| == 0 then ""
    else if |parts| == 1 then parts[0]
    else parts[0] + d + Join(parts[1..], d)
  }

  /** One more part at the end adds the delimiter and the part. */
  lemma {:induction false} JoinAppend(parts: seq<string>, x: string, d: string)
    requires |parts| >= 1
    ensures Join(parts + [x], d) == Join(parts, d) + d + x
  {
    if |parts| > 1 {
      assert (parts + [x])[1..] == parts[1..] + [x];
      JoinAppend(parts[1..], x, d);
    }
  }

  predicate Free(t: string, d: string)
  {
    forall k | 0 <= k < |t| :: !OccursAt(t, d, k)
  }

  /** An occurrence inside a slice is an occurrence in the whole string. */
  lemma SliceOccurrence(s: string, d: string, lo: int, hi: int, k: int)
    requires 0 <= lo <= hi <= |s|
    ensures OccursAt(s[lo..hi], d, k) ==> OccursAt(s, d, lo + k)
  {
    if OccursAt(s[lo..hi], d, k) {
      var t := s[lo..hi];
      var u, v := t[k..k + |d|], s[lo + k..lo + k + |d|];
      forall i | 0 <= i < |d|
        ensures u[i] == v[i]
      {
        assert t[k + i] == s[lo + k + i];
      }
      assert u == v;
    }
  }

  /** Find reports no occurrence when there is none at or after `start`. */
  lemma {:induction false} FindNone(s: string, d: string, start: nat)
    requires forall k :: start <= k ==> !OccursAt(s, d, k)
    ensures Find(s, d, start) == None
    decreases |s| - start
  {
    if start + |d| <= |s| {
      assert !OccursAt(s, d, start);
      FindNone(s, d, start + 1);
    }
  }

  /** Joining the pieces with the delimiter gives back the scanned suffix. */
  lemma {:induction false} JoinTokensFrom(s: string, d: string, start: nat)
    requires |d| > 0 && start <= |s|
    ensures Join(TokensFrom(s, d, start), d) == s[start..]
    decreases |s| - start
  {
    match Find(s, d, start)
    case None =>
    case Some(e) =>
      FindFirstOccurrence(s, d, start);
      JoinTokensFrom(s, d, e + |d|);
      var rest := TokensFrom(s, d, e + |d|);
      TokensFromFound(s, d, start, e);
      assert OccursAt(s, d, e);
      assert s[start..] == s[start..e] + s[e..e + |d|] + s[e + |d|..];
  }

  /** split followed by a join with the same delimiter restores the string. */
  lemma JoinTokens(s: string, d: string)
    requires |d| > 0
    ensures Join(Tokens(s, d), d) == s
  {
    JoinTokensFrom(s, d, 0);
  }

  /** No piece contains the delimiter. */
  lemma {:induction false} TokensFromFree(s: string, d: string, start: nat)
    requires |d| > 0 && start <= |s|
    ensures forall i :: 0 <= i < |TokensFrom(s, d, start)| ==> Free(TokensFrom(s, d, start)[i], d)
    decreases |s| - start
  {
    var r := TokensFrom(s, d, start);
    FindFirstOccurrence(s, d, start);
    match Find(s, d, start)
    case None =>
      var t := s[start..];
      assert t == s[start..|s|];
      forall k | 0 <= k < |t|
        ensures !OccursAt(t, d, k)
      {
        SliceOccurrence(s, d, start, |s|, k);
      }
    case Some(e) =>
      var t := s[start..e];
      forall k | 0 <= k < |t|
        ensures !OccursAt(t, d, k)
      {
        SliceOccurrence(s, d, start, e, k);
      }
      TokensFromFree(s, d, e + |d|);
  }

  lemma TokensFree(s: string, d: string)
    requires |d| > 0
    ensures forall i :: 0 <= i < |Tokens(s, d)| ==> Free(Tokens(s, d)[i], d)
  {
    TokensFromFree(s, d, 0);
  }

  /** A string free of the delimiter splits into itself alone. */
  lemma TokensOfFree(s: string, d: string)
    requires |d| > 0 && Free(s, d)
    ensures Tokens(s, d) == [s]
  {
    FindNone(s, d, 0);
    assert s[0..] == s;
  }

  /** x + d + y splits into [x, y] when d occurs only at |x|, and the scan finds no other. */
  lemma TokensOfPair(x: string, d: string, y: string)
    requires |d| > 0
    requires forall k :: 0 <= k < |x| ==> !OccursAt(x + d + y, d, k)
    requires forall k :: |x| + |d| <= k ==> !OccursAt(x + d + y, d, k)
    ensures Tokens(x + d + y, d) == [x, y]
  {
    var s := x + d + y;
    assert OccursAt(s, d, |x|) by {
      assert s[|x|..|x| + |d|] == d;
    }
    FindFirst(s, d, 0, |x|);
    assert s[..|x|] == x;
    assert s[|x| + |d|..] == y;
    var e := |x| + |d|;
    FindNone(s, d, e);
    assert TokensFrom(s, d, e) == [y];
    assert Tokens(s, d) == [s[..|x|]] + TokensFrom(s, d, e);
  }

  /** Find returns an occurrence when none precedes it. */
  lemma {:induction false} FindFirst(s: string, d: string, start: nat, e: nat)
    requires start <= e && OccursAt(s, d, e)
    requires forall k :: start <= k < e ==> !OccursAt(s, d, k)
    ensures Find(s, d, start) == Some(e)
    decreases e - start
  {
    if start < e {
      assert !OccursAt(s, d, start);
      FindFirst(s, d, start + 1, e);
    }
  }

  /** Splitting a join over a one-character delimiter that no part contains gives back the parts. */
  lemma {:induction false} TokensOfJoin(parts: seq<string>, c: char)
    requires |parts| >= 1
    requires forall i :: 0 <= i < |parts| ==> c !in parts[i]
    ensures Tokens(Join(parts, [c]), [c]) == parts
  {
    if |parts| == 1 {
      var t := parts[0];
      forall k | 0 <= k < |t|
        ensures !OccursAt(t, [c], k)
      {
        if k + 1 <= |t| {
          assert t[k..k + 1] == [t[k]];
        }
      }
      TokensOfFree(parts[0], [c]);
    } else {
      var x, rest := parts[0], Join(parts[1..], [c]);
      var s := x + [c] + rest;
      assert Join(parts, [c]) == s;
      forall k | 0 <= k < |x|
        ensures !OccursAt(s, [c], k)
      {
        assert s[k] == x[k];
      }
      FindFirst(s, [c], 0, |x|);
      assert s[..|x|] == x;
      TokensOfJoin(parts[1..], c);
      TokensFromShift(x + [c], rest, [c]);
    }
  }

  /** Scanning past a prefix p scans the rest as a string of its own. */
  lemma TokensFromShift(p: string, t: string, d: string)
    requires |d| > 0
    ensures TokensFrom(p + t, d, |p|) == Tokens(t, d)
  {
    TokensFromShiftAt(p, t, d, 0);
  }

  lemma {:induction false} TokensFromShiftAt(p: string, t: string, d: string, j: nat)
    requires |d| > 0 && j <= |t|
    ensures TokensFrom(p + t, d, |p| + j) == TokensFrom(t, d, j)
    decreases |t| - j
  {
    var s := p + t;
    FindShift(p, t, d, j);
    match Find(t, d, j)
    case None =>
      AppendSuffix(p, t, j);
      TokensFromNotFound(s, d, |p| + j);
      TokensFromNotFound(t, d, j);
    case Some(e) =>
      TokensFromShiftAt(p, t, d, e + |d|);
      ShiftFound(p, t, d, j, e);
  }

  /** One piece of the shifted scan: both scans cut at the same occurrence, and what
      follows already agrees. */
  lemma ShiftFound(p: string, t: string, d: string, j: nat, e: nat)
    requires |d| > 0 && j <= |t| && Find(t, d, j) == Some(e)
    requires Find(p + t, d, |p| + j) == Some(|p| + e)
    requires TokensFrom(p + t, d, |p| + (e + |d|)) == TokensFrom(t, d, e + |d|)
    ensures TokensFrom(p + t, d, |p| + j) == TokensFrom(t, d, j)
  {
    AppendSlice(p, t, j, e);
    TokensFromFound(p + t, d, |p| + j, |p| + e);
    TokensFromFound(t, d, j, e);
  }

  /** A slice of the second part of p + t, counted from |p|, is that slice of t. */
  lemma AppendSlice(p: string, t: string, a: nat, b: nat)
    requires a <= b <= |t|
    ensures (p + t)[|p| + a..|p| + b] == t[a..b]
  {
    var s := p + t;
    forall i | 0 <= i < b - a
      ensures s[|p| + a..|p| + b][i] == t[a..b][i]
    {
      assert s[|p| + a + i] == t[a + i];
    }
  }

  lemma AppendSuffix(p: string, t: string, a: nat)
    requires a <= |t|
    ensures (p + t)[|p| + a..] == t[a..]
  {
    AppendSlice(p, t, a, |t|);
    assert (p + t)[|p| + a..] == (p + t)[|p| + a..|p| + |t|];
  }

  /** With no occurrence left the scan keeps the rest as its last piece. */
  lemma TokensFromNotFound(s: string, d: string, start: nat)
    requires |d| > 0 && start <= |s| && Find(s, d, start) == None
    ensures TokensFrom(s, d, start) == [s[start..]]
  {
  }

  /** The scan cuts the piece before the occurrence Find reports and goes on after it. */
  lemma TokensFromFound(s: string, d: string, start: nat, e: nat)
    requires |d| > 0 && start <= |s| && Find(s, d, start) == Some(e)
    ensures TokensFrom(s, d, start) == [s[start..e]] + TokensFrom(s, d, e + |d|)
  {
  }

  lemma {:induction false} FindShift(p: string, t: string, d: string, j: nat)
    ensures Find(t, d, j).None? ==> Find(p + t, d, |p| + j) == None
    ensures Find(t, d, j).Some? ==> Find(p + t, d, |p| + j) == Some(|p| + Find(t, d, j).value)
    decreases |t| - j
  {
    var s := p + t;
    if |p| + j + |d| <= |s| {
      assert s[|p| + j..|p| + j + |d|] == t[j..j + |d|];
      if t[j..j + |d|] != d {
        FindShift(p, t, d, j + 1);
      }
    }
  }

  /** The number of non-overlapping occurrences of d the scan meets, left to right. */
  function Occurrences(s: string, d: string): nat
    requires |d| > 0
    decreases |s|
  {
    if |s| < |d| then 0
    else if s[..|d|] == d then 1 + Occurrences(s[|d|..], d)
    else Occurrences(s[1..], d)
  }

  /** split yields one piece more than there are delimiter occurrences. */
  lemma TokensCount(s: string, d: string)
    requires |d| > 0
    ensures |Tokens(s, d)| == 1 + Occurrences(s, d)
  {
    TokensFromCount(s, d, 0);
  }

  lemma {:induction false} TokensFromCount(s: string, d: string, start: nat)
    requires |d| > 0 && start <= |s|
    ensures |TokensFrom(s, d, start)| == 1 + Occurrences(s[start..], d)
    decreases |s| - start
  {
    OccurrencesFrom(s, d, start);
    match Find(s, d, start)
    case None =>
    case Some(e) =>
      TokensFromFound(s, d, start, e);
      TokensFromCount(s, d, e + |d|);
  }

  /** What the count is at `start`, in terms of the next occurrence Find reports. */
  lemma {:induction false} OccurrencesFrom(s: string, d: string, start: nat)
    requires |d| > 0 && start <= |s|
    ensures Find(s, d, start).None? ==> Occurrences(s[start..], d) == 0
    ensures Find(s, d, start).Some? ==>
      Occurrences(s[start..], d) == 1 + Occurrences(s[Find(s, d, start).value + |d|..], d)
    decreases |s| - start
  {
    var t := s[start..];
    if |t| >= |d| {
      assert t[..|d|] == s[start..start + |d|];
      if t[..|d|] == d {
        assert t[|d|..] == s[start + |d|..];
      } else {
        assert t[1..] == s[start + 1..];
        OccurrencesFrom(s, d, start + 1);
      }
    }
  }
}
