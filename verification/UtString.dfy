/** The dynamic string of utstring.h: a growing, always terminated character buffer, with the
    two one-time searches on top of the Knuth-Morris-Pratt routines. */
module UtStrings {
  import opened Kmp

  const INITIAL_SIZE := 100

  /** r is the least match position that is at least start, or -1; an empty needle is never found. */
  ghost predicate IsFirstMatchFrom(s: seq<char>, needle: seq<char>, start: int, r: int)
  {
    if needle == [] || r == -1 then
      r == -1 && (needle != [] ==> forall k :: start <= k ==> !MatchAt(s, needle, k))
    else
      start <= r && MatchAt(s, needle, r) && forall k :: start <= k < r ==> !MatchAt(s, needle, k)
  }

  /** r is the greatest position of a match that ends at or before last, or -1; an empty needle
      is never found. */
  ghost predicate IsLastMatchUpTo(s: seq<char>, needle: seq<char>, last: int, r: int)
  {
    if needle == [] || r == -1 then
      r == -1 && (needle != [] ==> forall k :: k + |needle| <= last + 1 ==> !MatchAt(s, needle, k))
    else
      && r + |needle| <= last + 1 && MatchAt(s, needle, r)
      && forall k :: r < k && k + |needle| <= last + 1 ==> !MatchAt(s, needle, k)
  }

  /** Searching a suffix is searching from a start position. */
  lemma MatchInSuffix(s: seq<char>, needle: seq<char>, start: int, k: int)
    requires 0 <= start <= |s| && 0 <= k
    ensures MatchAt(s[start..], needle, k) <==> MatchAt(s, needle, start + k)
  {
    if k + |needle| <= |s| - start {
      assert s[start..][k..k + |needle|] == s[start + k..start + k + |needle|];
    }
  }

  /** Searching a prefix is searching up to an end position. */
  lemma MatchInPrefix(s: seq<char>, needle: seq<char>, len: int, k: int)
    requires 0 <= len <= |s|
    ensures MatchAt(s[..len], needle, k) <==> MatchAt(s, needle, k) && k + |needle| <= len
  {
    if 0 <= k && k + |needle| <= len {
      assert s[..len][k..k + |needle|] == s[k..k + |needle|];
    }
  }

  lemma FirstMatchFromSuffix(s: seq<char>, needle: seq<char>, start: int, r: int)
    requires 0 <= start <= |s| && needle != [] && -1 <= r
    requires IsFirstMatch(s[start..], needle, r)
    ensures IsFirstMatchFrom(s, needle, start, if r >= 0 then r + start else -1)
  {
    if r >= 0 { MatchInSuffix(s, needle, start, r); }
    forall k | start <= k && (r >= 0 ==> k < r + start) ensures !MatchAt(s, needle, k) {
      MatchInSuffix(s, needle, start, k - start);
    }
  }

  lemma LastMatchFromPrefix(s: seq<char>, needle: seq<char>, last: int, r: int)
    requires 0 <= last + 1 <= |s| && needle != [] && -1 <= r
    requires IsLastMatch(s[..last + 1], needle, r)
    ensures IsLastMatchUpTo(s, needle, last, r)
  {
    MatchInPrefix(s, needle, last + 1, r);
    forall k | r < k && k + |needle| <= last + 1 ensures !MatchAt(s, needle, k) {
      MatchInPrefix(s, needle, last + 1, k);
    }
  }

  class UtString {
    var d: array<char>
    var n: nat  // allocated size
    var i: nat  // index of the first unused byte

    /** The buffer always has room for, and holds, a terminator behind the contents. */
    ghost predicate Valid()
      reads this, d
    {
      n == d.Length && i < n && d[i] == '\0'
    }

    ghost function Contents(): (s: seq<char>)
      requires Valid()
      reads this, d
    {
      d[..i]
    }

    constructor ()
      ensures Valid() && fresh(d) && Contents() == [] && n == 100
    {
      d := new char[INITIAL_SIZE](_ => '\0');
      n := INITIAL_SIZE;
      i := 0;
    }

    /** Makes room for amt more bytes; the buffer moves only when it has to grow. */
    method Reserve(amt: nat)
      requires Valid()
      modifies this`d, this`n
      ensures Valid() && Contents() == old(Contents()) && n - i >= amt
      ensures n == if old(n) - i < amt then old(n) + amt else old(n)
      ensures d == old(d) || fresh(d)
    {
      if n - i < amt {
        var grown := new char[n + amt];
        forall k | 0 <= k < n { grown[k] := d[k]; }
        d := grown;
        n := n + amt;
      }
    }

    /** Appends the bytes and a terminator. */
    method Bincpy(b: seq<char>)
      requires Valid()
      modifies this, d
      ensures Valid() && Contents() == old(Contents()) + b
      ensures n == if old(n) - old(i) < |b| + 1 then old(n) + |b| + 1 else old(n)
      ensures d == old(d) || fresh(d)
    {
      Reserve(|b| + 1);
      ghost var before := Contents();
      forall k | 0 <= k < |b| { d[i + k] := b[k]; }
      Terminate(|b|, b, before);
    }

    /** Appends src, which may be this very string. */
    method Concat(src: UtString)
      requires Valid() && src.Valid() && (src != this ==> src.d != d)
      modifies this, d
      ensures Valid() && Contents() == old(Contents()) + old(src.Contents())
      ensures n == if old(n) - old(i) < old(src.i) + 1 then old(n) + old(src.i) + 1 else old(n)
      ensures src != this ==> src.Valid() && src.Contents() == old(src.Contents())
      ensures d == old(d) || fresh(d)
    {
      Reserve(src.i + 1);
      ghost var before := Contents();
      var len := src.i;
      forall k | 0 <= k < len { d[i + k] := src.d[k]; }
      assert src.d[..len] == old(src.Contents());
      Terminate(len, src.d[..len], before);
    }

    /** The end of both: the bytes b are stored behind the contents. */
    method Terminate(len: nat, ghost b: seq<char>, ghost before: seq<char>)
      requires n == d.Length && i + len < n && len == |b| && before == d[..i]
      requires forall k :: 0 <= k < |b| ==> d[i + k] == b[k]
      modifies this`i, d
      ensures Valid() && Contents() == before + b && i == old(i) + |b|
      ensures forall k :: 0 <= k < i ==> d[k] == old(d[k])
    {
      i := i + len;
      d[i] := '\0';
    }

    method Clear()
      requires Valid()
      modifies this`i, d
      ensures Valid() && Contents() == [] && n == old(n) && d == old(d)
    {
      i := 0;
      d[0] := '\0';
    }

    /** The first match at or after a start position; a negative one counts from the end. */
    method Find(start: int, needle: seq<char>) returns (found: int)
      requires Valid() && 0 <= i + start
      ensures IsFirstMatchFrom(Contents(), needle, if start < 0 then i + start else start, found)
    {
      var from := if start < 0 then i + start else start;
      var len := i - from;
      found := -1;
      if len >= |needle| && |needle| > 0 {
        var table := new int[|needle| + 1];
        var fallbacks := BuildTable(needle, table);
        var hit, comparisons, delay := Kmp.Find(d[from..i], needle, table);
        assert d[from..i] == Contents()[from..];
        FirstMatchFromSuffix(Contents(), needle, from, hit);
        found := hit;
        if found >= 0 {
          found := found + from;
        }
      }
    }

    /** The last match that ends at or before a start position; a negative one counts from the end. */
    method FindR(start: int, needle: seq<char>) returns (found: int)
      requires Valid() && start < i
      ensures IsLastMatchUpTo(Contents(), needle, if start < 0 then i + start else start, found)
    {
      var last := if start < 0 then i + start else start;
      var len := last + 1;
      found := -1;
      if len >= |needle| && |needle| > 0 {
        var table := new int[|needle| + 1];
        var fallbacks := BuildTableR(needle, table);
        ghost var comparisons, delay;
        found, comparisons, delay := Kmp.FindR(d[..len], needle, table);
        assert d[..len] == Contents()[..len];
        LastMatchFromPrefix(Contents(), needle, last, found);
      }
    }
  }
}
