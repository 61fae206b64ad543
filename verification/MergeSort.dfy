/** What the bottom-up mergesort of utlist.h and uthash.h computes, on sequences: the merge of two
    runs, a pass over all runs, the sort; and what that is worth. The loops of the list code are
    proved to compute these functions. */
module MergeSort {

  import opened Arith

  // ----- comparators ---------------------------------------------------------

  /** cmp orders the elements of dom: any two are comparable, and the order is transitive. */
  ghost predicate TotalPreorder<T>(cmp: (T, T) -> int, dom: set<T>)
  {
    && (forall a, b | a in dom && b in dom :: cmp(a, b) <= 0 || cmp(b, a) <= 0)
    && (forall a, b, c | a in dom && b in dom && c in dom :: cmp(a, b) <= 0 && cmp(b, c) <= 0 ==> cmp(a, c) <= 0)
  }

  ghost function Elements<T>(s: seq<T>): (dom: set<T>)
  {
    set x | x in s
  }

  ghost predicate Within<T>(s: seq<T>, dom: set<T>)
  {
    forall i :: 0 <= i < |s| ==> s[i] in dom
  }

  ghost predicate Sorted<T>(cmp: (T, T) -> int, s: seq<T>)
  {
    forall i, j :: 0 <= i < j < |s| ==> cmp(s[i], s[j]) <= 0
  }

  /** x is at most every element of s. */
  ghost predicate AtMostAll<T>(cmp: (T, T) -> int, x: T, s: seq<T>)
  {
    forall j :: 0 <= j < |s| ==> cmp(x, s[j]) <= 0
  }

  predicate Alike<T>(cmp: (T, T) -> int, x: T, y: T)
  {
    cmp(x, y) <= 0 && cmp(y, x) <= 0
  }

  /** The elements of s that compare equal to x, in their order in s. */
  function Filter<T>(cmp: (T, T) -> int, x: T, s: seq<T>): (r: seq<T>)
  {
    if s == [] then []
    else (if Alike(cmp, x, s[0]) then [s[0]] else []) + Filter(cmp, x, s[1..])
  }

  /** t has the elements of s, and elements that compare equal keep their order. */
  ghost predicate StablePermutation<T>(cmp: (T, T) -> int, s: seq<T>, t: seq<T>)
  {
    multiset(t) == multiset(s) && forall x | x in Elements(s) :: Filter(cmp, x, t) == Filter(cmp, x, s)
  }

  lemma Prepend<T>(s: seq<T>, t: seq<T>, u: seq<T>)
    ensures s + (t + u) == (s + t) + u
  {
  }

  /** One of s and t is empty, so they may change places. */
  lemma Overtake<T>(s: seq<T>, t: seq<T>, u: seq<T>)
    requires s == [] || t == []
    ensures s + (t + u) == t + (s + u)
  {
    if s == [] {
      assert s + (t + u) == t + u && s + u == u;
    } else {
      assert t + (s + u) == s + u && t + u == u;
    }
  }

  lemma {:induction false} FilterConcat<T>(cmp: (T, T) -> int, x: T, s: seq<T>, t: seq<T>)
    ensures Filter(cmp, x, s + t) == Filter(cmp, x, s) + Filter(cmp, x, t)
  {
    hide Filter;
    FilterNone(cmp, x, []);
    if s == [] {
      assert s + t == t;
    } else {
      var a, s' := s[0], s[1..];
      assert s == [a] + s' && s + t == [a] + (s' + t);
      FilterConcat(cmp, x, s', t);
      FilterCons(cmp, x, a, s');
      FilterCons(cmp, x, a, s' + t);
      Prepend(if Alike(cmp, x, a) then [a] else [], Filter(cmp, x, s'), Filter(cmp, x, t));
    }
  }

  lemma FilterConcat3<T>(cmp: (T, T) -> int, x: T, s: seq<T>, t: seq<T>, u: seq<T>)
    ensures Filter(cmp, x, s + t + u) == Filter(cmp, x, s) + Filter(cmp, x, t) + Filter(cmp, x, u)
  {
    FilterConcat(cmp, x, s, t);
    FilterConcat(cmp, x, s + t, u);
  }

  lemma FilterCons<T>(cmp: (T, T) -> int, x: T, a: T, s: seq<T>)
    ensures Filter(cmp, x, [a] + s) == (if Alike(cmp, x, a) then [a] else []) + Filter(cmp, x, s)
  {
    assert ([a] + s)[1..] == s;
  }

  lemma {:induction false} FilterNone<T>(cmp: (T, T) -> int, x: T, s: seq<T>)
    ensures Filter(cmp, x, s) == [] <==> forall i :: 0 <= i < |s| ==> !Alike(cmp, x, s[i])
  {
    if s != [] {
      FilterNone(cmp, x, s[1..]);
      forall i | 0 < i < |s| ensures s[i] == s[1..][i - 1] {}
    }
  }

  lemma SortedTail<T>(cmp: (T, T) -> int, x: T, s: seq<T>)
    ensures Sorted(cmp, [x] + s) <==> Sorted(cmp, s) && AtMostAll(cmp, x, s)
  {
    var t := [x] + s;
    if Sorted(cmp, t) {
      forall i, j | 0 <= i < j < |s| ensures cmp(s[i], s[j]) <= 0 {
        assert cmp(t[i + 1], t[j + 1]) <= 0;
      }
      forall j | 0 <= j < |s| ensures cmp(x, s[j]) <= 0 {
        assert cmp(t[0], t[j + 1]) <= 0;
      }
    }
  }

  lemma SameElements<T>(s: seq<T>, t: seq<T>)
    requires multiset(s) == multiset(t)
    ensures Elements(s) == Elements(t)
  {
    forall x ensures x in s <==> x in t {
      assert x in s <==> x in multiset(s);
      assert x in t <==> x in multiset(t);
    }
  }

  lemma Slices<T>(s: seq<T>, m: nat, e: nat)
    requires m <= e <= |s|
    ensures s[..m] + s[m..e] + s[e..] == s
  {
  }

  lemma MultisetCons<T>(x: T, s: seq<T>)
    ensures multiset([x] + s) == multiset{x} + multiset(s)
  {
  }

  lemma MultisetOfConcat<T>(s: seq<T>, t: seq<T>, u: seq<T>)
    ensures multiset(s + t + u) == multiset(s) + multiset(t) + multiset(u)
  {
  }

  // ----- merging two runs ----------------------------------------------------

  /** Takes from xs while its first element is not greater than that of ys. */
  function Merge<T>(cmp: (T, T) -> int, xs: seq<T>, ys: seq<T>): (r: seq<T>)
    ensures |r| == |xs| + |ys|
    decreases |xs| + |ys|
  {
    if xs == [] then ys
    else if ys == [] then xs
    else if cmp(xs[0], ys[0]) <= 0 then [xs[0]] + Merge(cmp, xs[1..], ys)
    else [ys[0]] + Merge(cmp, xs, ys[1..])
  }

  lemma {:induction false} MergePermutes<T>(cmp: (T, T) -> int, xs: seq<T>, ys: seq<T>)
    ensures multiset(Merge(cmp, xs, ys)) == multiset(xs) + multiset(ys)
    decreases |xs| + |ys|
  {
    if xs != [] && ys != [] {
      var x, y := xs[0], ys[0];
      assert xs == [x] + xs[1..] && ys == [y] + ys[1..];
      if cmp(x, y) <= 0 {
        MergePermutes(cmp, xs[1..], ys);
        MultisetCons(x, xs[1..]);
        MultisetCons(x, Merge(cmp, xs[1..], ys));
      } else {
        MergePermutes(cmp, xs, ys[1..]);
        MultisetCons(y, ys[1..]);
        MultisetCons(y, Merge(cmp, xs, ys[1..]));
      }
    }
  }

  lemma {:induction false} AtMostMerge<T>(cmp: (T, T) -> int, z: T, xs: seq<T>, ys: seq<T>)
    requires AtMostAll(cmp, z, xs) && AtMostAll(cmp, z, ys)
    ensures AtMostAll(cmp, z, Merge(cmp, xs, ys))
    decreases |xs| + |ys|
  {
    if xs != [] && ys != [] {
      if cmp(xs[0], ys[0]) <= 0 {
        AtMostMerge(cmp, z, xs[1..], ys);
      } else {
        AtMostMerge(cmp, z, xs, ys[1..]);
      }
    }
  }

  /** The first of a sorted sequence bounds it; so does everything below the first. */
  lemma BelowFirst<T>(cmp: (T, T) -> int, dom: set<T>, x: T, s: seq<T>)
    requires TotalPreorder(cmp, dom) && Within(s, dom) && x in dom && Sorted(cmp, s) && s != []
    ensures cmp(x, s[0]) <= 0 ==> AtMostAll(cmp, x, s)
    ensures !(cmp(s[0], x) <= 0) ==> Filter(cmp, x, s) == []
  {
    forall j | 0 <= j < |s|
      ensures cmp(x, s[0]) <= 0 ==> cmp(x, s[j]) <= 0
      ensures !(cmp(s[0], x) <= 0) ==> !Alike(cmp, x, s[j])
    {
      assert j == 0 || cmp(s[0], s[j]) <= 0;
    }
    FilterNone(cmp, x, s);
  }

  /** Nothing in a sorted sequence compares equal to an element below its first. */
  lemma NothingAlike<T>(cmp: (T, T) -> int, dom: set<T>, x: T, s: seq<T>, b: T)
    requires TotalPreorder(cmp, dom) && Within(s, dom) && x in dom && b in dom && Sorted(cmp, s) && s != []
    requires Alike(cmp, x, b) && !(cmp(s[0], b) <= 0)
    ensures Filter(cmp, x, s) == []
  {
    assert !(cmp(s[0], x) <= 0);
    BelowFirst(cmp, dom, x, s);
  }

  lemma {:induction false} MergeSorts<T>(cmp: (T, T) -> int, dom: set<T>, xs: seq<T>, ys: seq<T>)
    requires TotalPreorder(cmp, dom) && Within(xs, dom) && Within(ys, dom)
    requires Sorted(cmp, xs) && Sorted(cmp, ys)
    ensures Sorted(cmp, Merge(cmp, xs, ys))
    decreases |xs| + |ys|
  {
    if xs != [] && ys != [] {
      var x, y := xs[0], ys[0];
      if cmp(x, y) <= 0 {
        MergeSorts(cmp, dom, xs[1..], ys);
        BelowFirst(cmp, dom, x, ys);
        AtMostMerge(cmp, x, xs[1..], ys);
        SortedTail(cmp, x, Merge(cmp, xs[1..], ys));
      } else {
        MergeSorts(cmp, dom, xs, ys[1..]);
        BelowFirst(cmp, dom, y, xs);
        AtMostMerge(cmp, y, xs, ys[1..]);
        SortedTail(cmp, y, Merge(cmp, xs, ys[1..]));
      }
    }
  }

  /** What the merge of two runs, both not empty, begins with. */
  lemma MergeBegins<T>(cmp: (T, T) -> int, xs: seq<T>, ys: seq<T>)
    requires xs != [] && ys != []
    ensures xs == [xs[0]] + xs[1..] && ys == [ys[0]] + ys[1..]
    ensures Merge(cmp, xs, ys) == if cmp(xs[0], ys[0]) <= 0 then [xs[0]] + Merge(cmp, xs[1..], ys)
                                  else [ys[0]] + Merge(cmp, xs, ys[1..])
  {
  }

  lemma MergeWithNothing<T>(cmp: (T, T) -> int, xs: seq<T>, ys: seq<T>)
    requires xs == [] || ys == []
    ensures Merge(cmp, xs, ys) == xs + ys
  {
  }

  /** The element that comes first in xs comes first in the merge m. */
  lemma TakenFromFirst<T>(cmp: (T, T) -> int, x: T, a: T, xs: seq<T>, ys: seq<T>, m: seq<T>)
    requires Filter(cmp, x, m) == Filter(cmp, x, xs) + Filter(cmp, x, ys)
    ensures Filter(cmp, x, [a] + m) == Filter(cmp, x, [a] + xs) + Filter(cmp, x, ys)
  {
    hide Filter, Alike;
    FilterCons(cmp, x, a, m);
    FilterCons(cmp, x, a, xs);
    Prepend(if Alike(cmp, x, a) then [a] else [], Filter(cmp, x, xs), Filter(cmp, x, ys));
  }

  /** The element that comes first in ys comes first in the merge m: no element of xs is equal to it. */
  lemma TakenFromSecond<T>(cmp: (T, T) -> int, x: T, b: T, xs: seq<T>, ys: seq<T>, m: seq<T>)
    requires Filter(cmp, x, m) == Filter(cmp, x, xs) + Filter(cmp, x, ys)
    requires Alike(cmp, x, b) ==> Filter(cmp, x, xs) == []
    ensures Filter(cmp, x, [b] + m) == Filter(cmp, x, xs) + Filter(cmp, x, [b] + ys)
  {
    hide Filter, Alike;
    FilterCons(cmp, x, b, m);
    FilterCons(cmp, x, b, ys);
    Overtake(if Alike(cmp, x, b) then [b] else [], Filter(cmp, x, xs), Filter(cmp, x, ys));
  }

  lemma TailOfRun<T>(cmp: (T, T) -> int, dom: set<T>, xs: seq<T>)
    requires xs != [] && Within(xs, dom)
    ensures Within(xs[1..], dom) && xs[0] in dom && (Sorted(cmp, xs) ==> Sorted(cmp, xs[1..]))
  {
  }

  lemma {:induction false} MergeIsStable<T>(cmp: (T, T) -> int, dom: set<T>, x: T, xs: seq<T>, ys: seq<T>)
    requires TotalPreorder(cmp, dom) && Within(xs, dom) && Within(ys, dom) && x in dom
    requires Sorted(cmp, xs)
    ensures Filter(cmp, x, Merge(cmp, xs, ys)) == Filter(cmp, x, xs) + Filter(cmp, x, ys)
    decreases |xs| + |ys|
  {
    hide Filter, Merge, TotalPreorder, Sorted, Within, Alike;
    if xs == [] || ys == [] {
      MergeWithNothing(cmp, xs, ys);
      FilterConcat(cmp, x, xs, ys);
    } else {
      MergeBegins(cmp, xs, ys);
      TailOfRun(cmp, dom, xs);
      TailOfRun(cmp, dom, ys);
      if cmp(xs[0], ys[0]) <= 0 {
        MergeIsStable(cmp, dom, x, xs[1..], ys);
        TakenFromFirst(cmp, x, xs[0], xs[1..], ys, Merge(cmp, xs[1..], ys));
      } else {
        MergeIsStable(cmp, dom, x, xs, ys[1..]);
        if Alike(cmp, x, ys[0]) {
          NothingAlike(cmp, dom, x, xs, ys[0]);
        }
        TakenFromSecond(cmp, x, ys[0], xs, ys[1..], Merge(cmp, xs, ys[1..]));
      }
    }
  }

  // ----- one pass over the list ----------------------------------------------

  /** Merges the runs of length k pairwise. */
  function Pass<T>(cmp: (T, T) -> int, s: seq<T>, k: nat): (r: seq<T>)
    requires 0 < k
    ensures |r| == |s|
    decreases |s|
  {
    if s == [] then []
    else
      var m, e := Min(k, |s|), Min(2 * k, |s|);
      Merge(cmp, s[..m], s[m..e]) + Pass(cmp, s[e..], k)
  }

  /** The stretches of length k that start at multiples of k are sorted. */
  ghost predicate SortedRuns<T>(cmp: (T, T) -> int, s: seq<T>, k: nat)
    requires 0 < k
    decreases |s|
  {
    s != [] ==> Sorted(cmp, s[..Min(k, |s|)]) && SortedRuns(cmp, s[Min(k, |s|)..], k)
  }

  lemma {:induction false} SingletonRuns<T>(cmp: (T, T) -> int, s: seq<T>)
    ensures SortedRuns(cmp, s, 1)
    decreases |s|
  {
    if s != [] { SingletonRuns(cmp, s[1..]); }
  }

  lemma {:induction false} PassPermutes<T>(cmp: (T, T) -> int, s: seq<T>, k: nat)
    requires 0 < k
    ensures multiset(Pass(cmp, s, k)) == multiset(s)
    decreases |s|
  {
    if s != [] {
      var m, e := Min(k, |s|), Min(2 * k, |s|);
      var xs, ys, rest := s[..m], s[m..e], s[e..];
      MergePermutes(cmp, xs, ys);
      PassPermutes(cmp, rest, k);
      Slices(s, m, e);
      MultisetOfConcat(xs, ys, rest);
      MultisetOfConcat(Merge(cmp, xs, ys), [], Pass(cmp, rest, k));
      assert Merge(cmp, xs, ys) + [] == Merge(cmp, xs, ys);
    }
  }

  lemma SecondRun<T>(cmp: (T, T) -> int, s: seq<T>, k: nat)
    requires 0 < k && s != [] && SortedRuns(cmp, s, k)
    ensures Sorted(cmp, s[Min(k, |s|)..Min(2 * k, |s|)]) && SortedRuns(cmp, s[Min(2 * k, |s|)..], k)
  {
    var m, e := Min(k, |s|), Min(2 * k, |s|);
    var t := s[m..];
    if t != [] {
      assert t[..Min(k, |t|)] == s[m..e];
      assert t[Min(k, |t|)..] == s[e..];
    }
  }

  lemma {:induction false} PassDoublesRuns<T>(cmp: (T, T) -> int, dom: set<T>, s: seq<T>, k: nat)
    requires 0 < k && TotalPreorder(cmp, dom) && Within(s, dom)
    requires SortedRuns(cmp, s, k)
    ensures SortedRuns(cmp, Pass(cmp, s, k), 2 * k)
    decreases |s|
  {
    if s != [] {
      var m, e := Min(k, |s|), Min(2 * k, |s|);
      var xs, ys, rest := s[..m], s[m..e], s[e..];
      SecondRun(cmp, s, k);
      MergeSorts(cmp, dom, xs, ys);
      PassDoublesRuns(cmp, dom, rest, k);
      var t := Pass(cmp, s, k);
      assert t[..e] == Merge(cmp, xs, ys);
      assert t[e..] == Pass(cmp, rest, k);
    }
  }

  /** What a pass over a list that is not empty begins with. */
  lemma FirstMerge<T>(cmp: (T, T) -> int, s: seq<T>, k: nat, m: nat, e: nat)
    requires 0 < k && s != [] && m == Min(k, |s|) && e == Min(2 * k, |s|)
    ensures Pass(cmp, s, k) == Merge(cmp, s[..m], s[m..e]) + Pass(cmp, s[e..], k)
  {
  }

  lemma FirstRuns<T>(cmp: (T, T) -> int, dom: set<T>, s: seq<T>, k: nat, m: nat, e: nat)
    requires 0 < k && s != [] && m == Min(k, |s|) && e == Min(2 * k, |s|)
    requires SortedRuns(cmp, s, k) && Within(s, dom)
    ensures Sorted(cmp, s[..m]) && SortedRuns(cmp, s[e..], k)
    ensures Within(s[..m], dom) && Within(s[m..e], dom) && Within(s[e..], dom)
  {
    SecondRun(cmp, s, k);
  }

  lemma {:induction false} PassIsStable<T>(cmp: (T, T) -> int, dom: set<T>, x: T, s: seq<T>, k: nat)
    requires 0 < k && TotalPreorder(cmp, dom) && Within(s, dom) && x in dom
    requires SortedRuns(cmp, s, k)
    ensures Filter(cmp, x, Pass(cmp, s, k)) == Filter(cmp, x, s)
    decreases |s|
  {
    hide Filter, TotalPreorder, Within, Merge, Pass, Sorted, SortedRuns;
    if s == [] {
      assert Pass(cmp, s, k) == s;
    } else {
      var m, e := Min(k, |s|), Min(2 * k, |s|);
      var xs, ys, rest := s[..m], s[m..e], s[e..];
      FirstRuns(cmp, dom, s, k, m, e);
      MergeIsStable(cmp, dom, x, xs, ys);
      PassIsStable(cmp, dom, x, rest, k);
      PassStep(cmp, x, s, k, m, e);
    }
  }

  lemma PassStep<T>(cmp: (T, T) -> int, x: T, s: seq<T>, k: nat, m: nat, e: nat)
    requires 0 < k && s != [] && m == Min(k, |s|) && e == Min(2 * k, |s|)
    requires Filter(cmp, x, Merge(cmp, s[..m], s[m..e])) == Filter(cmp, x, s[..m]) + Filter(cmp, x, s[m..e])
    requires Filter(cmp, x, Pass(cmp, s[e..], k)) == Filter(cmp, x, s[e..])
    ensures Filter(cmp, x, Pass(cmp, s, k)) == Filter(cmp, x, s)
  {
    hide Filter, Merge, Pass;
    FirstMerge(cmp, s, k, m, e);
    FilterConcat(cmp, x, Merge(cmp, s[..m], s[m..e]), Pass(cmp, s[e..], k));
    FilterSplit(cmp, x, s, m, e);
  }

  lemma FilterSplit<T>(cmp: (T, T) -> int, x: T, s: seq<T>, m: nat, e: nat)
    requires m <= e <= |s|
    ensures Filter(cmp, x, s) == Filter(cmp, x, s[..m]) + Filter(cmp, x, s[m..e]) + Filter(cmp, x, s[e..])
  {
    Slices(s, m, e);
    FilterConcat3(cmp, x, s[..m], s[m..e], s[e..]);
  }

  // ----- the sort ------------------------------------------------------------

  /** Passes over ever longer runs, until a pass needs at most one merge. */
  function SortFrom<T>(cmp: (T, T) -> int, s: seq<T>, k: nat): (r: seq<T>)
    requires 0 < k
    ensures |r| == |s|
    decreases |s| - k
  {
    if |s| <= 2 * k then Pass(cmp, s, k) else SortFrom(cmp, Pass(cmp, s, k), 2 * k)
  }

  function Sort<T>(cmp: (T, T) -> int, s: seq<T>): (r: seq<T>)
    ensures |r| == |s|
  {
    SortFrom(cmp, s, 1)
  }

  lemma {:induction false} SortFromIsCorrect<T>(cmp: (T, T) -> int, dom: set<T>, s: seq<T>, k: nat)
    requires 0 < k && TotalPreorder(cmp, dom) && dom == Elements(s) && SortedRuns(cmp, s, k)
    ensures Sorted(cmp, SortFrom(cmp, s, k)) && StablePermutation(cmp, s, SortFrom(cmp, s, k))
    decreases |s| - k
  {
    var t := Pass(cmp, s, k);
    PassPermutes(cmp, s, k);
    SameElements(s, t);
    PassDoublesRuns(cmp, dom, s, k);
    forall x | x in dom ensures Filter(cmp, x, t) == Filter(cmp, x, s) {
      PassIsStable(cmp, dom, x, s, k);
    }
    if |s| <= 2 * k {
      if t != [] { assert t[..|t|] == t; }
    } else {
      SortFromIsCorrect(cmp, dom, t, 2 * k);
    }
  }

  /** The sort is what it should be: sorted, a permutation, and stable. */
  lemma SortIsCorrect<T>(cmp: (T, T) -> int, s: seq<T>)
    requires TotalPreorder(cmp, Elements(s))
    ensures Sorted(cmp, Sort(cmp, s)) && StablePermutation(cmp, s, Sort(cmp, s))
  {
    SingletonRuns(cmp, s);
    SortFromIsCorrect(cmp, Elements(s), s, 1);
  }

  /** Whatever the comparator does, sorting only rearranges. */
  lemma {:induction false} SortFromPermutes<T>(cmp: (T, T) -> int, s: seq<T>, k: nat)
    requires 0 < k
    ensures multiset(SortFrom(cmp, s, k)) == multiset(s)
    decreases |s| - k
  {
    PassPermutes(cmp, s, k);
    if |s| > 2 * k { SortFromPermutes(cmp, Pass(cmp, s, k), 2 * k); }
  }

  // ----- the cost ------------------------------------------------------------

  /** The number of passes that a list of n nodes needs from run length k on. */
  function Passes(n: nat, k: nat): (r: nat)
    requires 0 < k
    ensures 0 < r
    decreases n - k
  {
    if n <= 2 * k then 1 else 1 + Passes(n, 2 * k)
  }

  lemma {:induction false} PassesFrom(n: nat, k: nat)
    requires 0 < k
    ensures n <= k * Pow2(Passes(n, k))
    ensures k < n ==> k * Pow2(Passes(n, k) - 1) < n
    decreases n - k
  {
    if n > 2 * k {
      PassesFrom(n, 2 * k);
      var p := Passes(n, 2 * k);
      Reassociate(k, Pow2(p));
      Reassociate(k, Pow2(p - 1));
    } else {
      assert Pow2(1) == 2 * Pow2(0);
    }
  }

  lemma Reassociate(k: nat, x: nat)
    ensures (2 * k) * x == k * (2 * x)
  {
  }

  /** For two nodes or more, the number of passes is the least p with n <= 2^p: log2 n, rounded up. */
  lemma PassesIsLog2(n: nat)
    ensures n <= Pow2(Passes(n, 1))
    ensures n >= 2 ==> Pow2(Passes(n, 1) - 1) < n
  {
    PassesFrom(n, 1);
  }

  // ----- sorted insertion ----------------------------------------------------

  /** The position of the first element greater than x: the end when there is none. */
  function UpperBound<T>(cmp: (T, T) -> int, s: seq<T>, x: T): (i: nat)
    ensures i <= |s|
    ensures forall j :: 0 <= j < i ==> cmp(s[j], x) <= 0
    ensures i < |s| ==> cmp(s[i], x) > 0
  {
    if s == [] || cmp(s[0], x) > 0 then 0 else 1 + UpperBound(cmp, s[1..], x)
  }

  /** The position of the first element not less than x: the end when there is none. */
  function LowerBound<T>(cmp: (T, T) -> int, s: seq<T>, x: T): (i: nat)
    ensures i <= |s|
    ensures forall j :: 0 <= j < i ==> cmp(s[j], x) < 0
    ensures i < |s| ==> cmp(s[i], x) >= 0
  {
    if s == [] || cmp(s[0], x) >= 0 then 0 else 1 + LowerBound(cmp, s[1..], x)
  }

  function InsertAt<T>(s: seq<T>, i: nat, x: T): (r: seq<T>)
    requires i <= |s|
    ensures |r| == |s| + 1
  {
    s[..i] + [x] + s[i..]
  }

  /** What adding x in order makes of s. */
  function Insert<T>(cmp: (T, T) -> int, s: seq<T>, x: T): (r: seq<T>)
  {
    InsertAt(s, UpperBound(cmp, s, x), x)
  }

  /** Inserting between smaller and greater elements keeps a sequence sorted. */
  lemma InsertAtKeepsSorted<T>(cmp: (T, T) -> int, dom: set<T>, s: seq<T>, i: nat, x: T)
    requires TotalPreorder(cmp, dom) && Within(s, dom) && x in dom
    requires Sorted(cmp, s) && i <= |s|
    requires forall j :: 0 <= j < i ==> cmp(s[j], x) <= 0
    requires i < |s| ==> cmp(x, s[i]) <= 0
    ensures Sorted(cmp, InsertAt(s, i, x))
  {
    hide Sorted;
    var t := InsertAt(s, i, x);
    if i < |s| {
      SortedSuffix(cmp, s, i);
      BelowFirst(cmp, dom, x, s[i..]);
    }
    forall a, b | 0 <= a < b < |t| ensures cmp(t[a], t[b]) <= 0 {
      InsertedPair(cmp, s, i, x, a, b);
    }
    SortedByPairs(cmp, t);
  }

  lemma SortedByPairs<T>(cmp: (T, T) -> int, s: seq<T>)
    requires forall a, b :: 0 <= a < b < |s| ==> cmp(s[a], s[b]) <= 0
    ensures Sorted(cmp, s)
  {
  }

  lemma InsertedPair<T>(cmp: (T, T) -> int, s: seq<T>, i: nat, x: T, a: nat, b: nat)
    requires Sorted(cmp, s) && i <= |s| && a < b <= |s|
    requires forall j :: 0 <= j < i ==> cmp(s[j], x) <= 0
    requires AtMostAll(cmp, x, s[i..])
    ensures cmp(InsertAt(s, i, x)[a], InsertAt(s, i, x)[b]) <= 0
  {
    if a == i {
      assert InsertAt(s, i, x)[b] == s[i..][b - 1 - i];
    }
  }

  lemma InsertIsStable<T>(cmp: (T, T) -> int, dom: set<T>, s: seq<T>, x: T, z: T)
    requires TotalPreorder(cmp, dom) && Within(s, dom) && x in dom && z in dom
    requires Sorted(cmp, s)
    ensures Filter(cmp, z, Insert(cmp, s, x)) == Filter(cmp, z, s) + Filter(cmp, z, [x])
  {
    hide Filter, UpperBound, Sorted, TotalPreorder;
    var i := UpperBound(cmp, s, x);
    var low, mid, high := Filter(cmp, z, s[..i]), Filter(cmp, z, [x]), Filter(cmp, z, s[i..]);
    FilterConcat3(cmp, z, s[..i], [x], s[i..]);
    FilterConcat(cmp, z, s[..i], s[i..]);
    assert s == s[..i] + s[i..];
    FilterSingleton(cmp, z, x);
    if Alike(cmp, z, x) && i < |s| {
      SortedSuffix(cmp, s, i);
      NothingAlike(cmp, dom, z, s[i..], x);
    } else if i == |s| {
      FilterNone(cmp, z, s[i..]);
    }
    SwapWithEmpty(low, mid, high);
  }

  lemma SortedSuffix<T>(cmp: (T, T) -> int, s: seq<T>, i: nat)
    requires Sorted(cmp, s) && i <= |s|
    ensures Sorted(cmp, s[i..])
  {
  }

  lemma FilterSingleton<T>(cmp: (T, T) -> int, x: T, a: T)
    ensures Filter(cmp, x, [a]) == if Alike(cmp, x, a) then [a] else []
  {
  }

  lemma SwapWithEmpty<T>(s: seq<T>, t: seq<T>, u: seq<T>)
    requires t == [] || u == []
    ensures s + t + u == s + u + t
  {
  }

  /** The list that results from adding the elements of s in order, one by one. */
  function InsertAll<T>(cmp: (T, T) -> int, s: seq<T>): (r: seq<T>)
  {
    if s == [] then [] else Insert(cmp, InsertAll(cmp, s[..|s| - 1]), s[|s| - 1])
  }

  lemma {:induction false} InsertAllPermutes<T>(cmp: (T, T) -> int, s: seq<T>)
    ensures multiset(InsertAll(cmp, s)) == multiset(s)
  {
    hide UpperBound, InsertAt;
    if s != [] {
      var s', x := s[..|s| - 1], s[|s| - 1];
      var t := InsertAll(cmp, s');
      InsertAllPermutes(cmp, s');
      InsertAtPermutes(t, UpperBound(cmp, t, x), x);
      assert s == s' + [x];
    }
  }

  lemma SortedTiny<T>(cmp: (T, T) -> int, s: seq<T>)
    requires |s| <= 1
    ensures Sorted(cmp, s)
  {
  }

  lemma InsertStep<T>(cmp: (T, T) -> int, dom: set<T>, t: seq<T>, x: T)
    requires TotalPreorder(cmp, dom) && Within(t, dom) && x in dom && Sorted(cmp, t)
    ensures Sorted(cmp, Insert(cmp, t, x)) && Within(Insert(cmp, t, x), dom)
    ensures forall z | z in dom :: Filter(cmp, z, Insert(cmp, t, x)) == Filter(cmp, z, t) + Filter(cmp, z, [x])
  {
    hide Filter, Sorted, TotalPreorder, Within;
    UpperBoundSplits(cmp, dom, t, x);
    InsertAtKeepsSorted(cmp, dom, t, UpperBound(cmp, t, x), x);
    InsertAtWithin(t, UpperBound(cmp, t, x), x, dom);
    forall z | z in dom ensures Filter(cmp, z, Insert(cmp, t, x)) == Filter(cmp, z, t) + Filter(cmp, z, [x]) {
      InsertIsStable(cmp, dom, t, x, z);
    }
  }

  lemma UpperBoundSplits<T>(cmp: (T, T) -> int, dom: set<T>, s: seq<T>, x: T)
    requires TotalPreorder(cmp, dom) && Within(s, dom) && x in dom
    ensures UpperBound(cmp, s, x) < |s| ==> cmp(x, s[UpperBound(cmp, s, x)]) <= 0
  {
  }

  lemma InsertAtWithin<T>(s: seq<T>, i: nat, x: T, dom: set<T>)
    requires Within(s, dom) && x in dom && i <= |s|
    ensures Within(InsertAt(s, i, x), dom)
  {
  }

  lemma WithoutLast<T>(s: seq<T>, dom: set<T>)
    requires s != [] && Within(s, dom)
    ensures Within(s[..|s| - 1], dom) && s[|s| - 1] in dom && s == s[..|s| - 1] + [s[|s| - 1]]
  {
  }

  lemma {:induction false} InsertAllIsCorrect<T>(cmp: (T, T) -> int, dom: set<T>, s: seq<T>)
    requires TotalPreorder(cmp, dom) && Within(s, dom)
    ensures Sorted(cmp, InsertAll(cmp, s))
    ensures Within(InsertAll(cmp, s), dom)
    ensures forall z | z in dom :: Filter(cmp, z, InsertAll(cmp, s)) == Filter(cmp, z, s)
  {
    hide Filter, Sorted, Insert, TotalPreorder, Within;
    if s == [] {
      SortedTiny(cmp, s);
    } else {
      var s', x := s[..|s| - 1], s[|s| - 1];
      WithoutLast(s, dom);
      InsertAllIsCorrect(cmp, dom, s');
      InsertStep(cmp, dom, InsertAll(cmp, s'), x);
      forall z | z in dom ensures Filter(cmp, z, InsertAll(cmp, s)) == Filter(cmp, z, s) {
        FilterConcat(cmp, z, s', [x]);
      }
    }
  }

  lemma InsertAtPermutes<T>(s: seq<T>, i: nat, x: T)
    requires i <= |s|
    ensures multiset(InsertAt(s, i, x)) == multiset(s) + multiset{x}
  {
    assert s == s[..i] + s[i..];
    assert multiset(s) == multiset(s[..i]) + multiset(s[i..]);
  }

  // ----- a stable sorted permutation is unique --------------------------------

  lemma {:induction false} StableSortIsUnique<T>(cmp: (T, T) -> int, dom: set<T>, s: seq<T>, t: seq<T>)
    requires TotalPreorder(cmp, dom) && Within(s, dom) && Within(t, dom)
    requires Sorted(cmp, s) && Sorted(cmp, t)
    requires forall x | x in dom :: Filter(cmp, x, s) == Filter(cmp, x, t)
    ensures s == t
  {
    hide Filter, TotalPreorder, Sorted, Within, Alike;
    if s == [] || t == [] {
      NoClasses(cmp, dom, s, t);
    } else {
      SameFirst(cmp, dom, s, t);
      TailOfRun(cmp, dom, s);
      TailOfRun(cmp, dom, t);
      assert s == [s[0]] + s[1..] && t == [s[0]] + t[1..];
      forall x | x in dom ensures Filter(cmp, x, s[1..]) == Filter(cmp, x, t[1..]) {
        SameRest(cmp, x, s[0], s[1..], t[1..]);
      }
      StableSortIsUnique(cmp, dom, s[1..], t[1..]);
    }
  }

  lemma FilterFirst<T>(cmp: (T, T) -> int, dom: set<T>, s: seq<T>)
    requires TotalPreorder(cmp, dom) && Within(s, dom) && s != []
    ensures s[0] in dom && Filter(cmp, s[0], s) != [] && Filter(cmp, s[0], s)[0] == s[0]
  {
    assert Alike(cmp, s[0], s[0]);
  }

  lemma NoClasses<T>(cmp: (T, T) -> int, dom: set<T>, s: seq<T>, t: seq<T>)
    requires TotalPreorder(cmp, dom) && Within(s, dom) && Within(t, dom) && (s == [] || t == [])
    requires forall x | x in dom :: Filter(cmp, x, s) == Filter(cmp, x, t)
    ensures s == t
  {
    if s != [] {
      FilterFirst(cmp, dom, s);
    } else if t != [] {
      FilterFirst(cmp, dom, t);
    }
  }

  /** Two sorted sequences with the same classes start with the same element. */
  lemma SameFirst<T>(cmp: (T, T) -> int, dom: set<T>, s: seq<T>, t: seq<T>)
    requires TotalPreorder(cmp, dom) && Within(s, dom) && Within(t, dom)
    requires Sorted(cmp, s) && Sorted(cmp, t) && s != [] && t != []
    requires forall x | x in dom :: Filter(cmp, x, s) == Filter(cmp, x, t)
    ensures s[0] == t[0]
  {
    hide TotalPreorder, Sorted, Within, Filter;
    FirstOfClass(cmp, dom, s, t);
    FilterFirst(cmp, dom, s);
    FilterHead(cmp, s[0], t);
  }

  lemma FilterHead<T>(cmp: (T, T) -> int, x: T, t: seq<T>)
    requires t != [] && Alike(cmp, x, t[0])
    ensures Filter(cmp, x, t) != [] && Filter(cmp, x, t)[0] == t[0]
  {
  }

  lemma SameRest<T>(cmp: (T, T) -> int, x: T, a: T, s: seq<T>, t: seq<T>)
    requires Filter(cmp, x, [a] + s) == Filter(cmp, x, [a] + t)
    ensures Filter(cmp, x, s) == Filter(cmp, x, t)
  {
    FilterCons(cmp, x, a, s);
    FilterCons(cmp, x, a, t);
    if Alike(cmp, x, a) {
      assert Filter(cmp, x, s) == ([a] + Filter(cmp, x, s))[1..];
      assert Filter(cmp, x, t) == ([a] + Filter(cmp, x, t))[1..];
    }
  }

  /** Two sorted sequences with the same classes start with elements that compare equal. */
  lemma FirstOfClass<T>(cmp: (T, T) -> int, dom: set<T>, s: seq<T>, t: seq<T>)
    requires TotalPreorder(cmp, dom) && Within(s, dom) && Within(t, dom)
    requires Sorted(cmp, s) && Sorted(cmp, t) && s != [] && t != []
    requires forall x | x in dom :: Filter(cmp, x, s) == Filter(cmp, x, t)
    ensures Alike(cmp, s[0], t[0])
  {
    var a, b := s[0], t[0];
    assert a in dom && b in dom && Alike(cmp, a, a) && Alike(cmp, b, b);
    if !(cmp(a, b) <= 0) { BelowFirst(cmp, dom, b, s); }
    if !(cmp(b, a) <= 0) { BelowFirst(cmp, dom, a, t); }
  }

  /** Adding elements in order, one by one, gives the list that sorting them afterwards gives. */
  lemma InsertingIsSorting<T>(cmp: (T, T) -> int, s: seq<T>)
    requires TotalPreorder(cmp, Elements(s))
    ensures InsertAll(cmp, s) == Sort(cmp, s)
  {
    hide Filter;
    var dom, t, u := Elements(s), InsertAll(cmp, s), Sort(cmp, s);
    InsertAllIsCorrect(cmp, dom, s);
    SortIsCorrect(cmp, s);
    SameElements(s, u);
    WithinElements(u);
    SameClasses(cmp, dom, s, t, u);
    StableSortIsUnique(cmp, dom, t, u);
  }

  lemma WithinElements<T>(s: seq<T>)
    ensures Within(s, Elements(s))
  {
  }

  lemma SameClasses<T>(cmp: (T, T) -> int, dom: set<T>, s: seq<T>, t: seq<T>, u: seq<T>)
    requires forall x | x in dom :: Filter(cmp, x, t) == Filter(cmp, x, s)
    requires forall x | x in dom :: Filter(cmp, x, u) == Filter(cmp, x, s)
    ensures forall x | x in dom :: Filter(cmp, x, t) == Filter(cmp, x, u)
  {
  }

  // ----- insertion before equal elements ----------------------------------------

  /** A comparator whose sign changes when its arguments are exchanged, as strcmp's does. */
  ghost predicate Antisymmetric<T>(cmp: (T, T) -> int, dom: set<T>)
  {
    forall a, b | a in dom && b in dom :: cmp(a, b) < 0 <==> cmp(b, a) > 0
  }

  /** What inserting x before the first element that is not less than it makes of s. */
  function InsertLower<T>(cmp: (T, T) -> int, s: seq<T>, x: T): (r: seq<T>)
  {
    InsertAt(s, LowerBound(cmp, s, x), x)
  }

  /** The list that results from inserting the elements of s one by one in this way. */
  function InsertAllLower<T>(cmp: (T, T) -> int, s: seq<T>): (r: seq<T>)
  {
    if s == [] then [] else InsertLower(cmp, InsertAllLower(cmp, s[..|s| - 1]), s[|s| - 1])
  }

  function Reversed<T>(s: seq<T>): (r: seq<T>)
  {
    if s == [] then [] else [s[|s| - 1]] + Reversed(s[..|s| - 1])
  }

  lemma InsertLowerIsStable<T>(cmp: (T, T) -> int, dom: set<T>, s: seq<T>, x: T, z: T)
    requires TotalPreorder(cmp, dom) && Antisymmetric(cmp, dom)
    requires Within(s, dom) && x in dom && z in dom && Sorted(cmp, s)
    ensures Filter(cmp, z, InsertLower(cmp, s, x)) == Filter(cmp, z, [x]) + Filter(cmp, z, s)
  {
    hide Filter, LowerBound, Sorted, TotalPreorder, Antisymmetric;
    var i := LowerBound(cmp, s, x);
    var low, mid, high := Filter(cmp, z, s[..i]), Filter(cmp, z, [x]), Filter(cmp, z, s[i..]);
    FilterConcat3(cmp, z, s[..i], [x], s[i..]);
    FilterConcat(cmp, z, s[..i], s[i..]);
    assert s == s[..i] + s[i..];
    FilterSingleton(cmp, z, x);
    SmallerAreUnlike(cmp, dom, s[..i], x, z);
    Prepend(low, mid, high);
    Overtake(low, mid, high);
  }

  lemma SmallerAreUnlike<T>(cmp: (T, T) -> int, dom: set<T>, s: seq<T>, x: T, z: T)
    requires TotalPreorder(cmp, dom) && Antisymmetric(cmp, dom)
    requires Within(s, dom) && x in dom && z in dom
    requires forall j :: 0 <= j < |s| ==> cmp(s[j], x) < 0
    ensures Alike(cmp, z, x) ==> Filter(cmp, z, s) == []
  {
    forall j | 0 <= j < |s| && Alike(cmp, z, x) ensures !Alike(cmp, z, s[j]) {
      assert cmp(s[j], x) < 0 && s[j] in dom;
    }
    FilterNone(cmp, z, s);
  }

  lemma InsertLowerStep<T>(cmp: (T, T) -> int, dom: set<T>, t: seq<T>, x: T)
    requires TotalPreorder(cmp, dom) && Antisymmetric(cmp, dom) && Within(t, dom) && x in dom && Sorted(cmp, t)
    ensures Sorted(cmp, InsertLower(cmp, t, x)) && Within(InsertLower(cmp, t, x), dom)
    ensures forall z | z in dom :: Filter(cmp, z, InsertLower(cmp, t, x)) == Filter(cmp, z, [x]) + Filter(cmp, z, t)
  {
    hide Filter, Sorted;
    InsertAtKeepsSorted(cmp, dom, t, LowerBound(cmp, t, x), x);
    forall z | z in dom ensures Filter(cmp, z, InsertLower(cmp, t, x)) == Filter(cmp, z, [x]) + Filter(cmp, z, t) {
      InsertLowerIsStable(cmp, dom, t, x, z);
    }
  }

  lemma {:induction false} InsertAllLowerIsCorrect<T>(cmp: (T, T) -> int, dom: set<T>, s: seq<T>)
    requires TotalPreorder(cmp, dom) && Antisymmetric(cmp, dom) && Within(s, dom)
    ensures Sorted(cmp, InsertAllLower(cmp, s)) && Within(InsertAllLower(cmp, s), dom)
    ensures forall z | z in dom :: Filter(cmp, z, InsertAllLower(cmp, s)) == Filter(cmp, z, Reversed(s))
  {
    hide Filter, Sorted, InsertLower, TotalPreorder, Antisymmetric, Within;
    if s == [] {
      SortedTiny(cmp, s);
    } else {
      var s', x := s[..|s| - 1], s[|s| - 1];
      WithoutLast(s, dom);
      InsertAllLowerIsCorrect(cmp, dom, s');
      InsertLowerStep(cmp, dom, InsertAllLower(cmp, s'), x);
      forall z | z in dom ensures Filter(cmp, z, InsertAllLower(cmp, s)) == Filter(cmp, z, Reversed(s)) {
        FilterConcat(cmp, z, [x], Reversed(s'));
      }
    }
  }

  lemma {:induction false} ReversedWithin<T>(s: seq<T>, dom: set<T>)
    requires Within(s, dom)
    ensures Within(Reversed(s), dom)
  {
    if s != [] { ReversedWithin(s[..|s| - 1], dom); }
  }

  lemma {:induction false} ReversedElements<T>(s: seq<T>)
    ensures multiset(Reversed(s)) == multiset(s)
  {
    if s != [] {
      var s', x := s[..|s| - 1], s[|s| - 1];
      ReversedElements(s');
      assert s == s' + [x];
      MultisetCons(x, Reversed(s'));
    }
  }

  /** Inserting elements one by one before their equals gives the stable sort of the reversed input. */
  lemma LowerInsertingIsSortingBackwards<T>(cmp: (T, T) -> int, s: seq<T>)
    requires TotalPreorder(cmp, Elements(s)) && Antisymmetric(cmp, Elements(s))
    ensures InsertAllLower(cmp, s) == Sort(cmp, Reversed(s))
  {
    hide Filter, Sorted;
    var dom, r := Elements(s), Reversed(s);
    var t, u := InsertAllLower(cmp, s), Sort(cmp, r);
    WithinElements(s);
    InsertAllLowerIsCorrect(cmp, dom, s);
    ReversedElements(s);
    SameElements(s, r);
    SortIsCorrect(cmp, r);
    SameElements(r, u);
    WithinElements(u);
    SameClasses(cmp, dom, r, t, u);
    StableSortIsUnique(cmp, dom, t, u);
  }

  /** Inserting before equals builds the stable sort itself exactly when every class of equal elements
      reads the same backwards. */
  lemma LowerInsertingIsSorting<T>(cmp: (T, T) -> int, s: seq<T>)
    requires TotalPreorder(cmp, Elements(s)) && Antisymmetric(cmp, Elements(s))
    ensures InsertAllLower(cmp, s) == Sort(cmp, s) <==>
              forall x | x in Elements(s) :: Filter(cmp, x, s) == Filter(cmp, x, Reversed(s))
  {
    hide Filter, Sorted, TotalPreorder, Antisymmetric, Sort;
    var dom, t, u := Elements(s), InsertAllLower(cmp, s), Sort(cmp, s);
    WithinElements(s);
    InsertAllLowerIsCorrect(cmp, dom, s);
    SortIsCorrect(cmp, s);
    SameElements(s, u);
    WithinElements(u);
    if forall x | x in dom :: Filter(cmp, x, s) == Filter(cmp, x, Reversed(s)) {
      StableSortIsUnique(cmp, dom, t, u);
    }
  }

  /** So two different elements that compare equal come out the other way round. */
  lemma LowerInsertingTurnsEquals<T>(cmp: (T, T) -> int, x: T, y: T)
    requires x != y && cmp(x, y) == 0 == cmp(y, x)
    ensures InsertAllLower(cmp, [x, y]) == [y, x] && Sort(cmp, [x, y]) == [x, y]
  {
    assert [x, y][..1] == [x] && [x][..0] == [];
    assert InsertAllLower(cmp, [x]) == [x];
    assert Merge(cmp, [x], [y]) == [x] + Merge(cmp, [], [y]);
    assert [x, y][1..2] == [y] && [x, y][2..] == [];
    assert Pass(cmp, [x, y], 1) == [x, y];
  }
}
