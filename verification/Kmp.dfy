/** The Knuth-Morris-Pratt search of utstring.h: both table builders, which use
    the optimised ("strong") failure function, and both searchers. */
module Kmp {

  // ----- what the searches promise ------------------------------------------

  /** The needle p occurs in h at position s. */
  ghost predicate MatchAt(h: seq<char>, p: seq<char>, s: int)
  {
    0 <= s && s + |p| <= |h| && h[s..s + |p|] == p
  }

  /** r is the least position at which p occurs in h, or -1 when there is none. */
  ghost predicate IsFirstMatch(h: seq<char>, p: seq<char>, r: int)
  {
    if r == -1 then forall s :: !MatchAt(h, p, s)
    else MatchAt(h, p, r) && forall s :: s < r ==> !MatchAt(h, p, s)
  }

  /** r is the greatest position at which p occurs in h, or -1 when there is none. */
  ghost predicate IsLastMatch(h: seq<char>, p: seq<char>, r: int)
  {
    if r == -1 then forall s :: !MatchAt(h, p, s)
    else MatchAt(h, p, r) && forall s :: r < s ==> !MatchAt(h, p, s)
  }

  // ----- borders and the failure table --------------------------------------

  /** The first k symbols of p are also the last k symbols of p[..i], and k < i. */
  ghost predicate Border(p: seq<char>, i: int, k: int)
  {
    0 <= k < i <= |p| && p[..k] == p[i - k..i]
  }

  /** t is the longest proper border of p[..i], or -1 when i is 0. */
  ghost predicate IsLongestBorder(p: seq<char>, i: int, t: int)
  {
    && 0 <= i <= |p| && -1 <= t < i
    && (t >= 0 ==> Border(p, i, t))
    && forall k :: t < k ==> !Border(p, i, k)
  }

  /** t is the longest border k of p[..i] with p[k] != p[i], or -1 when there is none. */
  ghost predicate IsStrongBorder(p: seq<char>, i: int, t: int)
  {
    && 0 <= i < |p| && -1 <= t < i
    && (t >= 0 ==> Border(p, i, t) && p[t] != p[i])
    && forall k {:trigger Border(p, i, k)} :: t < k && Border(p, i, k) ==> p[k] == p[i]
  }

  /** The contents of a finished left-to-right table. */
  ghost predicate IsTable(p: seq<char>, t: seq<int>)
  {
    && |t| == |p| + 1
    && (forall i :: 0 <= i < |p| ==> IsStrongBorder(p, i, t[i]))
    && IsLongestBorder(p, |p|, t[|p|])
  }

  lemma BorderOfBorder(p: seq<char>, i: int, j: int, k: int)
    requires Border(p, i, j) && k < j
    ensures Border(p, i, k) <==> Border(p, j, k)
  {
    if 0 <= k {
      assert p[i - k..i] == p[i - j..i][j - k..];
      assert p[j - k..j] == p[..j][j - k..];
    }
  }

  lemma BorderExtends(p: seq<char>, i: int, k: int)
    requires 0 <= i < |p|
    ensures Border(p, i + 1, k + 1) <==> (k == -1 && 0 < i + 1) || (Border(p, i, k) && p[k] == p[i])
  {
    if 0 <= k < i {
      assert p[..k + 1] == p[..k] + [p[k]];
      assert p[i - k..i + 1] == p[i - k..i] + [p[i]];
      if p[..k + 1] == p[i - k..i + 1] {
        assert p[..k] == p[..k + 1][..k];
        assert p[i - k..i] == p[i - k..i + 1][..k];
        assert p[k] == p[..k + 1][k];
      }
    }
  }

  /** No two tables satisfy the specification: it says everything about the contents. */
  lemma {:induction false} TableIsUnique(p: seq<char>, t: seq<int>, u: seq<int>)
    requires IsTable(p, t) && IsTable(p, u)
    ensures t == u
  {
    forall i | 0 <= i <= |p| ensures t[i] == u[i] {
      if i < |p| {
        assert IsStrongBorder(p, i, t[i]) && IsStrongBorder(p, i, u[i]);
      }
    }
  }

  // ----- one step of the builders -------------------------------------------

  /** Every border of p[..i] that p[i] extends is at most j. */
  ghost predicate CandidatesUpTo(p: seq<char>, i: int, j: int)
  {
    && 0 <= i < |p| && -1 <= j < i
    && (j >= 0 ==> Border(p, i, j))
    && forall k {:trigger Border(p, i, k)} :: j < k && Border(p, i, k) ==> p[k] != p[i]
  }

  /** Falling back along the strong table skips no border that p[i] extends. */
  lemma FallbackKeepsCandidates(p: seq<char>, i: int, j: int, t: int)
    requires CandidatesUpTo(p, i, j) && 0 <= j && p[i] != p[j]
    requires IsStrongBorder(p, j, t)
    ensures CandidatesUpTo(p, i, t)
  {
    if t >= 0 { BorderOfBorder(p, i, j, t); }
    forall k | t < k && Border(p, i, k) ensures p[k] != p[i] {
      if k < j { BorderOfBorder(p, i, j, k); }
    }
  }

  /** When the fallback stops, one more symbol gives the longest border of the longer prefix. */
  lemma ExtendCandidate(p: seq<char>, i: int, j: int)
    requires CandidatesUpTo(p, i, j)
    requires j >= 0 ==> p[i] == p[j]
    ensures IsLongestBorder(p, i + 1, j + 1)
  {
    BorderExtends(p, i, j);
    var next := i + 1;
    forall k | j + 1 < k ensures !Border(p, next, k) {
      BorderExtends(p, i, k - 1);
    }
  }

  /** The entry stored for the prefix p[..i] whose longest border is j. */
  ghost function Entry(p: seq<char>, i: int, j: int, t: seq<int>): (v: int)
    requires 0 <= i <= |p| && 0 <= j < i && j < |t|
  {
    if i < |p| && p[i] == p[j] then t[j] else j
  }

  /** A table filled up to entry i, where j is the longest border of p[..i]. */
  ghost predicate TableSoFar(p: seq<char>, i: int, j: int, t: seq<int>)
  {
    && IsLongestBorder(p, i, j) && |t| == i + 1
    && (forall k :: 0 <= k <= i && k < |p| ==> IsStrongBorder(p, k, t[k]))
    && (i == |p| ==> t[i] == j)
  }

  /** The fallback loop ended at j: the next entry can be stored. */
  lemma ExtendTable(p: seq<char>, i: int, j0: int, j: int, t: seq<int>)
    requires TableSoFar(p, i, j0, t) && CandidatesUpTo(p, i, j)
    requires j >= 0 ==> p[i] == p[j]
    ensures TableSoFar(p, i + 1, j + 1, t + [Entry(p, i + 1, j + 1, t)])
  {
    ExtendCandidate(p, i, j);
    if i + 1 < |p| {
      StoredEntry(p, i + 1, j + 1, t);
    }
  }

  lemma StoredEntry(p: seq<char>, i: int, j: int, t: seq<int>)
    requires 0 < i < |p| && IsLongestBorder(p, i, j) && 0 <= j < |t|
    requires IsStrongBorder(p, j, t[j])
    ensures IsStrongBorder(p, i, Entry(p, i, j, t))
  {
    if p[i] == p[j] {
      if t[j] >= 0 { BorderOfBorder(p, i, j, t[j]); }
      forall k | t[j] < k && Border(p, i, k) ensures p[k] == p[i] {
        if k < j { BorderOfBorder(p, i, j, k); }
      }
    }
  }

  lemma EntrySoFar(p: seq<char>, i: int, j: int, t: seq<int>, k: nat)
    requires TableSoFar(p, i, j, t) && k <= i && k < |p|
    ensures |t| == i + 1 && IsStrongBorder(p, k, t[k]) && -1 <= t[k] < k
  {
  }

  /** Builds the failure table from left to right. The inner loop falls back at most
      |needle| times over the whole run. */
  method BuildTable(needle: seq<char>, table: array<int>) returns (ghost fallbacks: nat)
    requires table.Length == |needle| + 1
    modifies table
    ensures IsTable(needle, table[..])
    ensures fallbacks <= |needle|
  {
    hide Border, IsLongestBorder, IsStrongBorder, TableSoFar, IsTable;
    var n := |needle|;
    var i, j := 0, -1;
    table[i] := j;
    fallbacks := 0;
    BeginTable(needle, table[..1]);
    while i < n
      invariant -1 <= j < i <= n
      invariant TableSoFar(needle, i, j, table[..i + 1])
      invariant fallbacks + j + 1 <= i
    {
      ghost var j0, t := j, table[..i + 1];
      FirstCandidate(needle, i, j, t);
      while j > -1 && needle[i] != needle[j]
        invariant table[..i + 1] == t
        invariant CandidatesUpTo(needle, i, j)
        invariant fallbacks + j + 1 <= i
        decreases j
      {
        EntrySoFar(needle, i, j0, t, j);
        FallbackKeepsCandidates(needle, i, j, t[j]);
        j := table[j];
        fallbacks := fallbacks + 1;
      }
      ExtendTable(needle, i, j0, j, t);
      i, j := i + 1, j + 1;
      if i < n {
        if needle[i] == needle[j] {
          table[i] := table[j];
        } else {
          table[i] := j;
        }
      } else {
        table[i] := j;
      }
      assert table[..i + 1] == t + [table[i]];
    }
    assert table[..] == table[..n + 1];
    FinishTable(needle, j, table[..]);
  }

  lemma BeginTable(p: seq<char>, t: seq<int>)
    requires t == [-1]
    ensures TableSoFar(p, 0, -1, t)
  {
  }

  lemma FirstCandidate(p: seq<char>, i: int, j: int, t: seq<int>)
    requires TableSoFar(p, i, j, t) && i < |p|
    ensures CandidatesUpTo(p, i, j)
  {
  }

  lemma FinishTable(p: seq<char>, j: int, t: seq<int>)
    requires TableSoFar(p, |p|, j, t)
    ensures IsTable(p, t)
  {
  }

  // ----- one step of the searchers ------------------------------------------

  /** The searcher's state: the last i symbols before h[j] are p[..i], and no match starts earlier. */
  ghost predicate Scanned(h: seq<char>, p: seq<char>, i: int, j: int)
  {
    && -1 <= i < |p| && 0 <= j && i <= j <= |h|
    && (i >= 0 ==> h[j - i..j] == p[..i])
    && forall s :: s < j - i ==> !MatchAt(h, p, s)
  }

  /** Falling back along the strong table skips no match. */
  lemma FallbackSkipsNoMatch(h: seq<char>, p: seq<char>, i: int, j: int, t: int)
    requires Scanned(h, p, i, j) && 0 <= i && j < |h| && p[i] != h[j]
    requires IsStrongBorder(p, i, t)
    ensures Scanned(h, p, t, j)
  {
    if t >= 0 {
      assert h[j - t..j] == h[j - i..j][i - t..];
      assert p[i - t..i] == p[..i][i - t..];
    }
    forall s | s < j - t ensures !MatchAt(h, p, s) {
      if MatchAt(h, p, s) {
        var k := j - s;
        assert 0 <= k <= i;
        assert h[j] == h[s..s + |p|][k] == p[k];
        if k < i {
          assert p[..k] == h[s..s + |p|][..k] == h[j - k..j];
          assert h[j - k..j] == h[j - i..j][i - k..];
          assert p[i - k..i] == p[..i][i - k..];
          assert Border(p, i, k);
        }
        assert false;
      }
    }
  }

  /** Moving past a matching symbol (or restarting behind a hopeless one). */
  lemma AdvanceScan(h: seq<char>, p: seq<char>, i: int, j: int)
    requires Scanned(h, p, i, j) && j < |h|
    requires i >= 0 ==> p[i] == h[j]
    ensures i + 1 < |p| ==> Scanned(h, p, i + 1, j + 1)
    ensures i + 1 == |p| ==> IsFirstMatch(h, p, j + 1 - |p|)
  {
    if i >= 0 {
      assert h[j - i..j + 1] == h[j - i..j] + [h[j]] == p[..i] + [p[i]] == p[..i + 1];
      if i + 1 == |p| { assert p[..i + 1] == p; }
    } else {
      assert h[j + 1..j + 1] == p[..0];
    }
  }

  /** The search may stop as soon as the rest of the haystack is too short. */
  lemma NothingLeft(h: seq<char>, p: seq<char>, i: int, j: int)
    requires Scanned(h, p, i, j) && 0 <= i
    requires j >= |h| || |h| - j + i < |p|
    ensures IsFirstMatch(h, p, -1)
  {
    forall s ensures !MatchAt(h, p, s) {
    }
  }

  // ----- how long one symbol can take -----------------------------------------

  function Fib(n: nat): (f: nat)
  {
    if n < 2 then n else Fib(n - 1) + Fib(n - 2)
  }

  /** Within a prefix with border j, symbols i - j apart are equal. */
  lemma BorderIsPeriod(p: seq<char>, i: int, j: int, m: int)
    requires Border(p, i, j) && 0 <= m < j
    ensures p[m] == p[m + (i - j)]
  {
    assert p[..j][m] == p[i - j..i][m];
  }

  /** What the strong table is for: two fallbacks in a row more than use up the prefix. Otherwise its two
      periods would make p[j] equal to p[k], for which no fallback from j leads to k. */
  lemma TwoFallbacks(p: seq<char>, i: int, j: int, k: int)
    requires IsStrongBorder(p, i, j) && 0 <= j && IsStrongBorder(p, j, k) && 0 <= k
    ensures j + k < i
  {
    var a, b := i - j, j - k;
    if i <= j + k {
      BorderIsPeriod(p, i, j, j - a);
      BorderIsPeriod(p, j, k, j - a - b);
      BorderIsPeriod(p, i, j, j - a - b);
    }
  }

  /** r fallbacks along the table lead from i0 to i. */
  ghost predicate FallsTo(t: seq<int>, i0: int, i: int, r: nat)
    decreases r
  {
    if r == 0 then i == i0 else 0 <= i0 < |t| && FallsTo(t, t[i0], i, r - 1)
  }

  lemma {:induction false} FallsOnce(t: seq<int>, i0: int, i: int, r: nat)
    requires FallsTo(t, i0, i, r) && 0 <= i < |t|
    ensures FallsTo(t, i0, t[i], r + 1)
    decreases r
  {
    if r > 0 {
      FallsOnce(t, t[i0], i, r - 1);
    }
  }

  /** So the number of fallbacks in a row is logarithmic: r of them need a prefix of Fib(r + 1) - 1 symbols. */
  lemma {:induction false} FallsAreFew(p: seq<char>, t: seq<int>, i0: int, i: int, r: nat)
    requires IsTable(p, t) && FallsTo(t, i0, i, r) && 0 <= i0 < |p|
    ensures Fib(r + 1) <= i0 + 1
    decreases r
  {
    if r >= 2 {
      var j := t[i0];
      assert IsStrongBorder(p, i0, j) && FallsTo(t, t[j], i, r - 2);
      FallsAreFew(p, t, j, i, r - 1);
      if r >= 3 {
        assert IsStrongBorder(p, j, t[j]);
        FallsAreFew(p, t, t[j], i, r - 2);
        TwoFallbacks(p, i0, j, t[j]);
      }
    }
  }

  lemma TableEntry(p: seq<char>, t: seq<int>, k: nat)
    requires IsTable(p, t) && k < |p|
    ensures |t| == |p| + 1 && IsStrongBorder(p, k, t[k]) && -1 <= t[k] < k
  {
  }

  lemma FibStarts()
    ensures Fib(1) == 1
  {
  }

  lemma NoFalls(t: seq<int>, i: int)
    ensures FallsTo(t, i, i, 0)
  {
  }

  lemma StartScan(h: seq<char>, p: seq<char>)
    requires 0 < |p|
    ensures Scanned(h, p, 0, 0)
  {
  }

  lemma ScanRange(h: seq<char>, p: seq<char>, i: int, j: int)
    requires Scanned(h, p, i, j)
    ensures -1 <= i < |p| && 0 <= j <= |h| && i <= j
  {
  }

  /** The inner loop of the search: falls back until the symbol matches or nothing is left to match. */
  method Skip(haystack: seq<char>, needle: seq<char>, table: array<int>, i0: int, j: int, ghost done: nat)
    returns (i: int, ghost comparisons: nat, ghost rounds: nat)
    requires 0 <= i0 < |needle| && 0 <= j < |haystack|
    requires IsTable(needle, table[..]) && Scanned(haystack, needle, i0, j) && done <= 2 * j - i0
    ensures -1 <= i <= i0 && (0 <= i ==> needle[i] == haystack[j]) && Scanned(haystack, needle, i, j)
    ensures comparisons <= 2 * j - i + 1 && Fib(rounds + 1) <= |needle|
  {
    hide IsTable, Scanned, IsStrongBorder, FallsTo, Fib;
    i, comparisons, rounds := i0, done, 0;
    NoFalls(table[..], i);
    while i > -1 && needle[i] != haystack[j]
      invariant -1 <= i <= i0 && Scanned(haystack, needle, i, j)
      invariant comparisons <= 2 * j - i && FallsTo(table[..], i0, i, rounds)
      decreases i
    {
      comparisons := comparisons + 1;
      TableEntry(needle, table[..], i);
      FallsOnce(table[..], i0, i, rounds);
      FallbackSkipsNoMatch(haystack, needle, i, j, table[..][i]);
      i, rounds := table[i], rounds + 1;
    }
    FallsAreFew(needle, table[..], i0, i, rounds);
    if i > -1 { comparisons := comparisons + 1; }
  }

  /** Search from left to right, with at most two symbol comparisons per haystack symbol, and at most a
      logarithmic number of fallbacks at any one of them: delay is the largest. */
  method Find(haystack: seq<char>, needle: seq<char>, table: array<int>)
    returns (found: int, ghost comparisons: nat, ghost delay: nat)
    requires 0 < |needle|
    requires IsTable(needle, table[..])
    ensures IsFirstMatch(haystack, needle, found)
    ensures comparisons <= 2 * |haystack| && Fib(delay + 1) <= |needle|
  {
    hide IsTable, Scanned, IsFirstMatch, Fib;
    found, comparisons, delay := -1, 0, 0;
    FibStarts();
    StartScan(haystack, needle);
    var i, j := 0, 0;
    while j < |haystack| && |haystack| - j + i >= |needle|
      invariant 0 <= i < |needle| && 0 <= j <= |haystack| && Scanned(haystack, needle, i, j)
      invariant comparisons <= 2 * j - i && Fib(delay + 1) <= |needle|
    {
      ghost var rounds;
      i, comparisons, rounds := Skip(haystack, needle, table, i, j, comparisons);
      delay := if rounds > delay then rounds else delay;
      AdvanceScan(haystack, needle, i, j);
      i, j := i + 1, j + 1;
      if i >= |needle| {
        found := j - i;
        return;
      }
    }
    ScanRange(haystack, needle, i, j);
    NothingLeft(haystack, needle, i, j);
  }

  // ----- right to left, by reversal -----------------------------------------

  function Reverse<T>(s: seq<T>): (r: seq<T>)
  {
    seq(|s|, k requires 0 <= k < |s| => s[|s| - 1 - k])
  }

  /** A right-to-left table, renumbered from the right end of the needle. */
  function Renumber(t: seq<int>): (r: seq<int>)
    ensures |r| == |t|
  {
    seq(|t|, x requires 0 <= x < |t| => |t| - 2 - t[|t| - 1 - x])
  }

  /** The contents of a finished right-to-left table: renumbered, it is the left-to-right
      table of the reversed needle. */
  ghost predicate IsTableR(p: seq<char>, t: seq<int>)
  {
    IsTable(Reverse(p), Renumber(t))
  }

  /** A match, symbol by symbol. */
  ghost predicate AllEqual(h: seq<char>, p: seq<char>, s: int)
    requires 0 <= s && s + |p| <= |h|
  {
    forall k :: 0 <= k < |p| ==> p[k] == h[s + k]
  }

  lemma MatchIsEqual(h: seq<char>, p: seq<char>, s: int)
    ensures MatchAt(h, p, s) <==> 0 <= s && s + |p| <= |h| && AllEqual(h, p, s)
  {
    if MatchAt(h, p, s) {
      forall k | 0 <= k < |p| ensures p[k] == h[s + k] {
        assert h[s..s + |p|][k] == p[k];
      }
    }
  }

  lemma {:induction false} ReversedEqual(h: seq<char>, p: seq<char>, s: int, h': seq<char>, p': seq<char>)
    requires 0 <= s && s + |p| <= |h| == |h'| && |p| == |p'| && AllEqual(h, p, s)
    requires forall k :: 0 <= k < |p| ==> p'[k] == p[|p| - 1 - k]
    requires forall k :: 0 <= k < |h| ==> h'[k] == h[|h| - 1 - k]
    ensures AllEqual(h', p', |h| - |p| - s)
  {
    forall k | 0 <= k < |p| ensures p'[k] == h'[|h| - |p| - s + k] {
      assert p[|p| - 1 - k] == h[s + (|p| - 1 - k)];
    }
  }

  /** A match of the needle, read backwards, is a match of the reversed needle. */
  lemma ReversedMatch(h: seq<char>, p: seq<char>, s: int)
    ensures MatchAt(h, p, s) <==> MatchAt(Reverse(h), Reverse(p), |h| - |p| - s)
  {
    hide MatchAt, AllEqual;
    var s' := |h| - |p| - s;
    MatchIsEqual(h, p, s);
    MatchIsEqual(Reverse(h), Reverse(p), s');
    if 0 <= s && s + |p| <= |h| {
      if AllEqual(h, p, s) {
        ReversedEqual(h, p, s, Reverse(h), Reverse(p));
      }
      if AllEqual(Reverse(h), Reverse(p), s') {
        ReversedEqual(Reverse(h), Reverse(p), s', h, p);
      }
    }
  }

  /** The first match seen from the right is the last match seen from the left. */
  lemma FirstFromTheRight(h: seq<char>, p: seq<char>, r: int)
    requires IsFirstMatch(Reverse(h), Reverse(p), r) && -1 <= r
    ensures IsLastMatch(h, p, if r == -1 then -1 else |h| - |p| - r)
  {
    forall s | MatchAt(h, p, s)
      ensures r != -1 && s <= |h| - |p| - r
    {
      ReversedMatch(h, p, s);
    }
    if r != -1 {
      ReversedMatch(h, p, |h| - |p| - r);
    }
  }

  /** Entries i + 1 to n of the right-to-left table hold t, renumbered. */
  ghost predicate Holds(table: seq<int>, i: int, t: seq<int>)
  {
    && -1 <= i && |t| == |table| - 1 - i
    && forall k :: 0 <= k < |t| ==> table[|table| - 1 - k] == |table| - 2 - t[k]
  }

  lemma HoldsOneMore(table: seq<int>, i: int, t: seq<int>, v: int)
    requires Holds(table, i, t) && 0 <= i < |table|
    ensures Holds(table[i := |table| - 2 - v], i - 1, t + [v])
  {
  }

  /** The builder's state: entries i + 1 to n are t, renumbered, and t is the table of the
      reversed needle up to entry n - 1 - i, whose longest border is n - 1 - j. */
  ghost predicate BuiltR(needle: seq<char>, i: int, j: int, table: seq<int>, t: seq<int>)
  {
    && |table| == |needle| + 1 && Holds(table, i, t)
    && TableSoFar(Reverse(needle), |needle| - 1 - i, |needle| - 1 - j, t)
  }

  /** The fallback loop's state, in the order of the reversed needle. */
  ghost predicate CandidatesUpToR(needle: seq<char>, i: int, j: int)
  {
    CandidatesUpTo(Reverse(needle), |needle| - 1 - i, |needle| - 1 - j)
  }

  lemma ReverseAt<T>(s: seq<T>, k: nat)
    ensures |Reverse(s)| == |s|
    ensures k < |s| ==> Reverse(s)[|s| - 1 - k] == s[k]
  {
  }

  lemma HoldsAt(table: seq<int>, i: int, t: seq<int>, k: nat)
    requires Holds(table, i, t)
    ensures |t| == |table| - 1 - i
    ensures k < |t| ==> table[|table| - 1 - k] == |table| - 2 - t[k]
  {
  }

  lemma FallbackR(needle: seq<char>, i: int, j0: int, j: int, table: seq<int>, t: seq<int>)
    requires 0 <= i < j < |needle| && needle[i] != needle[j]
    requires BuiltR(needle, i, j0, table, t) && CandidatesUpToR(needle, i, j)
    ensures CandidatesUpToR(needle, i, table[j + 1]) && j < table[j + 1] <= |needle|
  {
    hide Reverse, TableSoFar, CandidatesUpTo, IsStrongBorder, Holds;
    var p, a, b := Reverse(needle), |needle| - 1 - i, |needle| - 1 - j;
    ReverseAt(needle, i);
    ReverseAt(needle, j);
    HoldsAt(table, i, t, b);
    EntrySoFar(p, a, |needle| - 1 - j0, t, b);
    FallbackKeepsCandidates(p, a, b, t[b]);
  }

  /** The value to store below entry i + 1: that of j when the symbols agree, j itself otherwise
      or at the left end. */
  function EntryR(needle: seq<char>, table: seq<int>, i: int, j: int): (v: int)
    requires -1 <= i < j <= |needle| && (i >= 0 ==> j < |needle|) && |table| == |needle| + 1
  {
    if i >= 0 && needle[i] == needle[j] then table[j + 1] else j
  }

  /** Storing it is the step of the left-to-right builder on the reversed needle. */
  lemma StoreR(needle: seq<char>, i: int, j0: int, j: int, table: seq<int>, t: seq<int>) returns (t': seq<int>)
    requires 0 <= i < j <= |needle| && (j < |needle| ==> needle[i] == needle[j])
    requires BuiltR(needle, i, j0, table, t) && CandidatesUpToR(needle, i, j)
    ensures BuiltR(needle, i - 1, j - 1, table[i := EntryR(needle, table, i - 1, j - 1)], t')
  {
    hide Reverse, TableSoFar, CandidatesUpTo, Holds, Entry;
    var p, a, b := Reverse(needle), |needle| - 1 - i, |needle| - 1 - j;
    ReverseAt(needle, i);
    ReverseAt(needle, j);
    HoldsAt(table, i, t, 0);
    ExtendTable(p, a, |needle| - 1 - j0, b, t);
    var v := Entry(p, a + 1, b + 1, t);
    t' := t + [v];
    EntryIsEntryR(needle, i, j, table, t);
    HoldsOneMore(table, i, t, v);
  }

  lemma EntryIsEntryR(needle: seq<char>, i: int, j: int, table: seq<int>, t: seq<int>)
    requires 0 <= i < j <= |needle| && |table| == |needle| + 1 && Holds(table, i, t)
    ensures |table| - 2 - Entry(Reverse(needle), |needle| - i, |needle| - j, t)
            == EntryR(needle, table, i - 1, j - 1)
  {
    hide Reverse, Holds;
    if i > 0 { ReverseAt(needle, i - 1); }
    ReverseAt(needle, j - 1);
    HoldsAt(table, i, t, |needle| - j);
  }

  lemma FinishR(needle: seq<char>, j: int, table: seq<int>, t: seq<int>)
    requires BuiltR(needle, -1, j, table, t)
    ensures IsTableR(needle, table)
  {
    assert Renumber(table) == t;
  }

  lemma BeginR(needle: seq<char>, table: seq<int>)
    requires |table| == |needle| + 1 && table[|needle|] == |needle|
    ensures BuiltR(needle, |needle| - 1, |needle|, table, [-1])
  {
  }

  lemma FirstCandidateR(needle: seq<char>, i: int, j: int, table: seq<int>, t: seq<int>)
    requires BuiltR(needle, i, j, table, t) && 0 <= i < j <= |needle|
    ensures CandidatesUpToR(needle, i, j)
  {
  }

  /** The inner loop of the builder. */
  method FittingR(needle: seq<char>, table: array<int>, i: int, j0: int, ghost t: seq<int>, ghost done: nat)
    returns (j: int, ghost fallbacks: nat)
    requires table.Length == |needle| + 1 && 0 <= i < j0 <= |needle| && BuiltR(needle, i, j0, table[..], t)
    requires done + i + 1 <= j0
    ensures i < j <= |needle| && CandidatesUpToR(needle, i, j) && (j < |needle| ==> needle[i] == needle[j])
    ensures fallbacks + i + 1 <= j
  {
    hide BuiltR, CandidatesUpToR;
    var n := |needle|;
    j, fallbacks := j0, done;
    FirstCandidateR(needle, i, j, table[..], t);
    while j < n && needle[i] != needle[j]
      invariant i < j <= n && CandidatesUpToR(needle, i, j)
      invariant fallbacks + i + 1 <= j
      decreases n - j
    {
      FallbackR(needle, i, j0, j, table[..], t);
      j, fallbacks := table[j + 1], fallbacks + 1;
    }
  }

  /** Builds the failure table from right to left. */
  method BuildTableR(needle: seq<char>, table: array<int>) returns (ghost fallbacks: nat)
    requires table.Length == |needle| + 1
    modifies table
    ensures IsTableR(needle, table[..])
    ensures fallbacks <= |needle|
  {
    hide BuiltR, CandidatesUpToR, IsTableR;
    var n := |needle|;
    var i := n - 1;
    var j := i + 1;
    table[i + 1] := j;
    fallbacks := 0;
    ghost var t := [-1];  // the entries stored so far, in the order of the reversed needle
    BeginR(needle, table[..]);
    while i >= 0
      invariant -1 <= i < j <= n && i < n && BuiltR(needle, i, j, table[..], t)
      invariant fallbacks + i + 1 <= j
    {
      ghost var j0, stored := j, table[..];
      j, fallbacks := FittingR(needle, table, i, j, t, fallbacks);
      t := StoreR(needle, i, j0, j, stored, t);
      i, j := i - 1, j - 1;
      if i >= 0 {
        if needle[i] == needle[j] {
          table[i + 1] := table[j + 1];
        } else {
          table[i + 1] := j;
        }
      } else {
        table[i + 1] := j;
      }
      assert table[..] == stored[i + 1 := EntryR(needle, stored, i, j)];
    }
    FinishR(needle, j, table[..], t);
  }

  /** The state of the search: that of the left-to-right search of the reversed haystack. */
  ghost predicate ScannedR(h: seq<char>, p: seq<char>, i: int, j: int)
  {
    Scanned(Reverse(h), Reverse(p), |p| - 1 - i, |h| - 1 - j)
  }

  lemma StartR(h: seq<char>, p: seq<char>)
    requires 0 < |p|
    ensures ScannedR(h, p, |p| - 1, |h| - 1)
  {
  }

  lemma RenumberAt(t: seq<int>, k: nat)
    ensures |Renumber(t)| == |t|
    ensures k < |t| ==> Renumber(t)[k] == |t| - 2 - t[|t| - 1 - k]
  {
  }

  lemma FallbackScanR(h: seq<char>, p: seq<char>, table: seq<int>, i: int, j: int)
    requires ScannedR(h, p, i, j) && IsTableR(p, table) && 0 <= i < |p| && 0 <= j < |h| && p[i] != h[j]
    ensures |table| == |p| + 1 && i < table[i + 1] <= |p| && ScannedR(h, p, table[i + 1], j)
  {
    hide MatchAt, Scanned, Reverse, Renumber, IsTable, IsStrongBorder;
    ReverseAt(p, i);
    ReverseAt(h, j);
    RenumberAt(table, |p| - 1 - i);
    TableEntry(Reverse(p), Renumber(table), |p| - 1 - i);
    var t, a := Renumber(table), |p| - 1 - i;
    FallbackSkipsNoMatch(Reverse(h), Reverse(p), a, |h| - 1 - j, t[a]);
  }

  lemma AdvanceScanR(h: seq<char>, p: seq<char>, i: int, j: int)
    requires ScannedR(h, p, i, j) && 0 <= i <= |p| && 0 <= j < |h| && (i < |p| ==> p[i] == h[j])
    ensures 0 < i ==> ScannedR(h, p, i - 1, j - 1)
    ensures i == 0 && 0 < |p| ==> IsLastMatch(h, p, j)
  {
    hide MatchAt, IsFirstMatch, IsLastMatch;
    AdvanceScan(Reverse(h), Reverse(p), |p| - 1 - i, |h| - 1 - j);
    if i == 0 && 0 < |p| {
      ScannedRange(h, p, i, j);
      FirstFromTheRight(h, p, |h| - j - |p|);
    }
  }

  lemma ScannedRange(h: seq<char>, p: seq<char>, i: int, j: int)
    requires ScannedR(h, p, i, j)
    ensures 0 <= i <= |p| && -1 <= j < |h| && |p| - 1 - i <= |h| - 1 - j
  {
  }

  lemma NothingLeftR(h: seq<char>, p: seq<char>, i: int, j: int)
    requires ScannedR(h, p, i, j) && i < |p| && (j < 0 || j < i)
    ensures IsLastMatch(h, p, -1)
  {
    hide MatchAt, IsFirstMatch, IsLastMatch;
    NothingLeft(Reverse(h), Reverse(p), |p| - 1 - i, |h| - 1 - j);
    FirstFromTheRight(h, p, -1);
  }

  lemma FallsAreFewR(needle: seq<char>, table: seq<int>, i0: int, i: int, r: nat)
    requires IsTableR(needle, table) && 0 <= i0 < |needle|
    requires FallsTo(Renumber(table), |needle| - 1 - i0, |needle| - 1 - i, r)
    ensures Fib(r + 1) <= |needle|
  {
    hide FallsTo, Fib, IsTable;
    ReverseAt(needle, 0);
    FallsAreFew(Reverse(needle), Renumber(table), |needle| - 1 - i0, |needle| - 1 - i, r);
  }

  /** The inner loop of the search: falls back until the symbol matches or nothing is left to match. */
  method SkipR(haystack: seq<char>, needle: seq<char>, table: array<int>, i0: int, j: int, ghost done: nat)
    returns (i: int, ghost comparisons: nat, ghost rounds: nat)
    requires 0 <= i0 < |needle| && 0 <= j < |haystack|
    requires IsTableR(needle, table[..]) && ScannedR(haystack, needle, i0, j)
    requires done <= 2 * (|haystack| - 1 - j) - (|needle| - 1 - i0)
    ensures i0 <= i <= |needle| && (i < |needle| ==> needle[i] == haystack[j])
    ensures ScannedR(haystack, needle, i, j)
    ensures comparisons <= 2 * (|haystack| - j) - (|needle| - i) && Fib(rounds + 1) <= |needle|
  {
    hide ScannedR, IsTableR, FallsTo, Fib, Renumber;
    var n := |needle|;
    i, comparisons, rounds := i0, done, 0;
    NoFalls(Renumber(table[..]), n - 1 - i0);
    while i < n && needle[i] != haystack[j]
      invariant i0 <= i <= n && ScannedR(haystack, needle, i, j)
      invariant comparisons <= 2 * (|haystack| - 1 - j) - (n - 1 - i)
      invariant FallsTo(Renumber(table[..]), n - 1 - i0, n - 1 - i, rounds)
      decreases n - i
    {
      FallbackScanR(haystack, needle, table[..], i, j);
      RenumberAt(table[..], n - 1 - i);
      FallsOnce(Renumber(table[..]), n - 1 - i0, n - 1 - i, rounds);
      i, comparisons, rounds := table[i + 1], comparisons + 1, rounds + 1;
    }
    FallsAreFewR(needle, table[..], i0, i, rounds);
    if i < n { comparisons := comparisons + 1; }
  }

  /** Search from right to left, with the same bounds. */
  method FindR(haystack: seq<char>, needle: seq<char>, table: array<int>)
    returns (found: int, ghost comparisons: nat, ghost delay: nat)
    requires 0 < |needle|
    requires IsTableR(needle, table[..])
    ensures IsLastMatch(haystack, needle, found)
    ensures comparisons <= 2 * |haystack| && Fib(delay + 1) <= |needle|
  {
    hide ScannedR, IsTableR, IsLastMatch, Fib;
    found, comparisons, delay := -1, 0, 0;
    FibStarts();
    var n, m := |needle|, |haystack|;
    var i, j := n - 1, m - 1;
    StartR(haystack, needle);
    while j >= 0 && j >= i
      invariant 0 <= i < n && -1 <= j < m && ScannedR(haystack, needle, i, j)
      invariant comparisons <= 2 * (m - 1 - j) - (n - 1 - i) && Fib(delay + 1) <= n
    {
      ghost var rounds;
      i, comparisons, rounds := SkipR(haystack, needle, table, i, j, comparisons);
      delay := if rounds > delay then rounds else delay;
      AdvanceScanR(haystack, needle, i, j);
      i, j := i - 1, j - 1;
      if i < 0 {
        found := j + 1;
        return;
      }
    }
    ScannedRange(haystack, needle, i, j);
    NothingLeftR(haystack, needle, i, j);
  }
}
