/** The loops that uthash.h and utlist.h share: Simon Tatham's in-place bottom-up mergesort of a
    linked list. The macros differ in how they recognise the end of the list (a null link, or
    for a circular list a link to the old head), in whether there are links back, and in how they
    close the list after a pass. */
module LinkSort {
  import opened Arith
  import opened Nodes
  import opened MergeSort
  import opened Shapes

  /** A list under construction: linked, with the link behind the tail still open. */
  ghost predicate OpenList(shape: Shape, list: Node?, tail: Node?, s: seq<Node>)
    reads s`next, s`prev
  {
    && list == At(s, 0) && tail == At(s, |s| - 1)
    && (shape != Single ==> forall i {:trigger s[i].prev} :: 0 <= i < |s| ==> s[i].prev == At(s, i - 1))
    && (forall i {:trigger s[i].next} :: 0 <= i < |s| - 1 ==> s[i].next == At(s, i + 1))
  }

  /** The node behind x, or null at the end of the list. */
  method Advance(x: Node, stop: Node?) returns (y: Node?)
    ensures y == if x.next == stop then null else x.next
  {
    y := x.next;
    if y == stop {
      y := null;
    }
  }

  /** Appends e to the list under construction. */
  method Emit(shape: Shape, e: Node, list: Node?, tail: Node?, ghost s: seq<Node>) returns (list': Node?)
    requires OpenList(shape, list, tail, s) && Distinct(s + [e])
    modifies s`next, e`prev
    ensures OpenList(shape, list', e, s + [e])
  {
    list' := list;
    assert (s + [e])[|s|] == e;
    forall i | 0 <= i < |s| ensures s[i] != e && (i < |s| - 1 ==> s[i] != s[|s| - 1]) {
      assert (s + [e])[i] == s[i];
      if i < |s| - 1 { assert (s + [e])[|s| - 1] == s[|s| - 1]; }
    }
    if tail != null {
      tail.next := e;
    } else {
      list' := e;
    }
    if shape != Single {
      e.prev := tail;
    }
  }

  // ----- merging two adjacent runs --------------------------------------------

  /** What is left of the two runs s[..m] and s[m..], from a and b on, is still linked as in s. */
  ghost predicate StillLinked(s: seq<Node>, a: int, m: int, b: int, stop: Node?)
    reads s`next
  {
    && 0 <= a <= m <= b <= |s|
    && forall i {:trigger s[i].next} :: a <= i < m || b <= i < |s| ==> s[i].next == NextOf(s, i, stop)
  }

  /** The nodes emitted so far and the nodes left. */
  ghost function AllNodes(out: seq<Node>, s: seq<Node>, a: int, m: int, b: int): (all: seq<Node>)
    requires 0 <= a <= m <= b <= |s|
  {
    out + s[a..m] + s[b..]
  }

  lemma LeftNodesAreNotOut(out: seq<Node>, s: seq<Node>, a: int, m: int, b: int)
    requires 0 <= a <= m <= b <= |s| && Distinct(AllNodes(out, s, a, m, b))
    ensures forall i :: a <= i < m || b <= i < |s| ==> s[i] !in out
  {
    var all := AllNodes(out, s, a, m, b);
    forall i | a <= i < m || b <= i < |s| ensures s[i] !in out {
      assert s[i] == all[|out| + if i < m then i - a else m - a + i - b];
      assert forall k :: 0 <= k < |out| ==> out[k] == all[k];
    }
  }

  lemma TakeFirst(out: seq<Node>, s: seq<Node>, a: int, m: int, b: int)
    requires 0 <= a < m <= b <= |s| && Distinct(AllNodes(out, s, a, m, b))
    ensures Distinct(out + [s[a]]) && Distinct(AllNodes(out + [s[a]], s, a + 1, m, b))
  {
    var all := AllNodes(out, s, a, m, b);
    assert out + [s[a]] == all[..|out| + 1];
    assert AllNodes(out + [s[a]], s, a + 1, m, b) == all;
  }

  lemma TakeSecond(out: seq<Node>, s: seq<Node>, a: int, m: int, b: int)
    requires 0 <= a <= m <= b < |s| && Distinct(AllNodes(out, s, a, m, b))
    ensures Distinct(out + [s[b]]) && Distinct(AllNodes(out + [s[b]], s, a, m, b + 1))
  {
    hide Distinct;
    var t, u := s[a..m], s[b + 1..];
    assert s[b..] == [s[b]] + u;
    Prepend(out + t, [s[b]], u);
    MoveForward(out, t, s[b], u);
    DistinctPrefix(out + [s[b]], t + u);
    Prepend(out + [s[b]], t, u);
  }

  lemma DistinctPrefix(s: seq<Node>, t: seq<Node>)
    ensures Distinct(s + t) ==> Distinct(s)
  {
    if Distinct(s + t) {
      forall i, j | 0 <= i < j < |s| ensures s[i] != s[j] {
        assert (s + t)[i] == s[i] && (s + t)[j] == s[j];
      }
    }
  }

  lemma MoveForward(s: seq<Node>, t: seq<Node>, x: Node, u: seq<Node>)
    requires Distinct(s + t + [x] + u)
    ensures Distinct(s + [x] + t + u)
  {
    hide Distinct;
    var v, w := s + t + [x] + u, s + [x] + t + u;
    assert multiset(v) == multiset(s) + multiset(t) + multiset{x} + multiset(u);
    assert multiset(w) == multiset(s) + multiset{x} + multiset(t) + multiset(u);
    DistinctPermutation(v, w);
  }

  /** Which node the merge takes next: one of the first run when there is one and it is not
      greater than the next of the second. */
  ghost predicate FromFirst(cmp: (Node, Node) -> int, s: seq<Node>, a: int, m: int, b: int, e: int)
    requires 0 <= a <= m <= b <= e <= |s|
  {
    a < m && (b == e || cmp(s[a], s[b]) <= 0)
  }

  lemma MergeTakesFirst(cmp: (Node, Node) -> int, x: Node, xs: seq<Node>, ys: seq<Node>)
    requires ys == [] || cmp(x, ys[0]) <= 0
    ensures Merge(cmp, [x] + xs, ys) == [x] + Merge(cmp, xs, ys)
  {
    hide Merge;
    if ys == [] {
      MergeWithNothing(cmp, [x] + xs, ys);
      MergeWithNothing(cmp, xs, ys);
    } else {
      MergeBegins(cmp, [x] + xs, ys);
      assert ([x] + xs)[1..] == xs;
    }
  }

  lemma MergeTakesSecond(cmp: (Node, Node) -> int, y: Node, xs: seq<Node>, ys: seq<Node>)
    requires xs == [] || !(cmp(xs[0], y) <= 0)
    ensures Merge(cmp, xs, [y] + ys) == [y] + Merge(cmp, xs, ys)
  {
    hide Merge;
    if xs == [] {
      MergeWithNothing(cmp, xs, [y] + ys);
      MergeWithNothing(cmp, xs, ys);
    } else {
      MergeBegins(cmp, xs, [y] + ys);
      assert ([y] + ys)[1..] == ys;
    }
  }

  lemma FirstOfSlice(s: seq<Node>, a: int, m: int)
    requires 0 <= a < m <= |s|
    ensures s[a..m] == [s[a]] + s[a + 1..m] && s[a..m][0] == s[a]
  {
  }

  /** One step of the merge, when the node comes from the first run. */
  lemma StepFromFirst(cmp: (Node, Node) -> int, out: seq<Node>, s: seq<Node>, a: int, m: int, b: int, e: int)
    requires 0 <= a <= m <= b <= e <= |s| && FromFirst(cmp, s, a, m, b, e)
    requires Distinct(AllNodes(out, s, a, m, b))
    ensures out + Merge(cmp, s[a..m], s[b..e]) == out + [s[a]] + Merge(cmp, s[a + 1..m], s[b..e])
    ensures Distinct(out + [s[a]]) && Distinct(AllNodes(out + [s[a]], s, a + 1, m, b))
  {
    hide Merge, Distinct, AllNodes;
    TakeFirst(out, s, a, m, b);
    FirstOfSlice(s, a, m);
    if b < e { FirstOfSlice(s, b, e); }
    MergeTakesFirst(cmp, s[a], s[a + 1..m], s[b..e]);
    Prepend(out, [s[a]], Merge(cmp, s[a + 1..m], s[b..e]));
  }

  /** One step of the merge, when the node comes from the second run. */
  lemma StepFromSecond(cmp: (Node, Node) -> int, out: seq<Node>, s: seq<Node>, a: int, m: int, b: int, e: int)
    requires 0 <= a <= m <= b < e <= |s| && !FromFirst(cmp, s, a, m, b, e)
    requires Distinct(AllNodes(out, s, a, m, b))
    ensures out + Merge(cmp, s[a..m], s[b..e]) == out + [s[b]] + Merge(cmp, s[a..m], s[b + 1..e])
    ensures Distinct(out + [s[b]]) && Distinct(AllNodes(out + [s[b]], s, a, m, b + 1))
  {
    hide Merge, Distinct, AllNodes;
    TakeSecond(out, s, a, m, b);
    FirstOfSlice(s, b, e);
    if a < m { FirstOfSlice(s, a, m); }
    MergeTakesSecond(cmp, s[b], s[a..m], s[b + 1..e]);
    Prepend(out, [s[b]], Merge(cmp, s[a..m], s[b + 1..e]));
  }

  /** The merge takes x and has then got to a1 and b1. */
  ghost predicate Takes(cmp: (Node, Node) -> int, s: seq<Node>, a: int, m: int, b: int, e: int,
                        x: Node?, a1: int, b1: int)
  {
    && 0 <= a <= m <= b <= e <= |s| && (a < m || b < e)
    && if FromFirst(cmp, s, a, m, b, e) then x == s[a] && a1 == a + 1 && b1 == b
       else x == s[b] && a1 == a && b1 == b + 1
  }

  /** Unlinks the next node of the merge from what is left of the two runs. */
  method Take(cmp: (Node, Node) -> int, stop: Node?, p0: Node?, q0: Node?, psize0: nat, qsize0: nat,
              ghost s: seq<Node>, ghost a: nat, ghost m: nat, ghost b: nat, ghost e: nat)
    returns (x: Node, p: Node?, q: Node?, psize: nat, qsize: nat, ghost a1: nat, ghost b1: nat, ghost compared: nat)
    requires Distinct(s) && (stop == null || (s != [] && stop == s[0]))
    requires a <= m <= b <= e <= |s| && 0 < m && StillLinked(s, a, m, b, stop)
    requires psize0 == m - a && (psize0 != 0 || (qsize0 != 0 && q0 != null))
    requires q0 == At(s, b) && (a < m ==> p0 == s[a]) && e == Min(b + qsize0, |s|)
    ensures Takes(cmp, s, a, m, b, e, x, a1, b1)
    ensures psize == m - a1 && qsize == qsize0 - (b1 - b)
    ensures q == At(s, b1) && (a1 < m ==> p == s[a1])
    ensures compared <= 1 && (a1 == m && b1 == e ==> compared == 0)
  {
    p, q, psize, qsize, a1, b1, compared := p0, q0, psize0, qsize0, a, b, 0;
    if psize == 0 {
      x := q; q := Advance(q, stop); qsize := qsize - 1;
      b1 := b1 + 1;
    } else if qsize == 0 || q == null {
      x := p; p := Advance(p, stop); psize := psize - 1;
      a1 := a1 + 1;
    } else {
      compared := 1;
      if cmp(p, q) <= 0 {
        x := p; p := Advance(p, stop); psize := psize - 1;
        a1 := a1 + 1;
      } else {
        x := q; q := Advance(q, stop); qsize := qsize - 1;
        b1 := b1 + 1;
      }
    }
  }

  /** Appends x, already taken from the runs, to the list under construction. */
  method EmitTaken(shape: Shape, x: Node, list: Node?, tail: Node?, ghost out: seq<Node>, ghost stop: Node?,
                   ghost s: seq<Node>, ghost a: nat, ghost m: nat, ghost b: nat)
    returns (list': Node?)
    requires StillLinked(s, a, m, b, stop) && OpenList(shape, list, tail, out)
    requires Distinct(out + [x]) && Distinct(AllNodes(out + [x], s, a, m, b))
    modifies out`next, x`prev
    ensures StillLinked(s, a, m, b, stop) && OpenList(shape, list', x, out + [x])
  {
    LeftNodesAreNotOut(out + [x], s, a, m, b);
    assert forall y | y in out :: y in out + [x];
    list' := Emit(shape, x, list, tail, out);
  }

  /** The merge of s[a0..m] and s[m..e] behind out0 has got to a, b and out. */
  ghost predicate Merging(cmp: (Node, Node) -> int, s: seq<Node>, a0: int, m: int, e: int, out0: seq<Node>,
                          a: int, b: int, out: seq<Node>, dom: set<Node>)
  {
    && Within(s, dom) && Within(out, dom)
    && 0 <= a0 <= a <= m <= b <= e <= |s| && Distinct(AllNodes(out, s, a, m, b))
    && out + Merge(cmp, s[a..m], s[b..e]) == out0 + Merge(cmp, s[a0..m], s[m..e])
  }

  lemma MergingStep(cmp: (Node, Node) -> int, s: seq<Node>, a0: int, m: int, e: int, out0: seq<Node>,
                    a: int, b: int, out: seq<Node>, dom: set<Node>, x: Node, a1: int, b1: int)
    requires Merging(cmp, s, a0, m, e, out0, a, b, out, dom)
    requires Takes(cmp, s, a, m, b, e, x, a1, b1)
    ensures Merging(cmp, s, a0, m, e, out0, a1, b1, out + [x], dom) && Distinct(out + [x])
    ensures Distinct(AllNodes(out + [x], s, a1, m, b1)) && Within(out + [x], dom)
    ensures a <= a1 <= m && b <= b1 <= e && a1 - a + b1 - b == 1
  {
    hide Merge, Distinct, AllNodes;
    if FromFirst(cmp, s, a, m, b, e) {
      StepFromFirst(cmp, out, s, a, m, b, e);
    } else {
      StepFromSecond(cmp, out, s, a, m, b, e);
    }
  }

  /** Merges the runs s[a0..m] and s[m..e] behind the list under construction. */
  method MergeRuns(shape: Shape, cmp: (Node, Node) -> int, stop: Node?, p0: Node, q0: Node?, psize0: nat, insize: nat,
                   list0: Node?, tail0: Node?, ghost s: seq<Node>, ghost a0: nat, ghost m: nat, ghost e: nat,
                   ghost out0: seq<Node>, ghost dom: set<Node>)
    returns (q: Node?, list: Node?, tail: Node?, ghost out: seq<Node>, ghost cmps: nat)
    requires stop == null || (s != [] && stop == s[0])
    requires 0 <= a0 < m <= e == Min(m + insize, |s|) && psize0 == m - a0
    requires Distinct(s) && Distinct(AllNodes(out0, s, a0, m, m))
    requires p0 == s[a0] && q0 == At(s, m)
    requires StillLinked(s, a0, m, m, stop) && OpenList(shape, list0, tail0, out0)
    requires Within(s, dom) && Within(out0, dom)
    modifies dom`next, dom`prev
    ensures out == out0 + Merge(cmp, s[a0..m], s[m..e]) && OpenList(shape, list, tail, out)
    ensures Distinct(AllNodes(out, s, m, m, e)) && StillLinked(s, e, e, e, stop) && q == At(s, e)
    ensures Within(out, dom) && cmps < e - a0
  {
    hide Merging, OpenList, StillLinked, Distinct, Merge, AllNodes;
    var p: Node?, psize, qsize := p0, psize0, insize;
    q, list, tail, out, cmps := q0, list0, tail0, out0, 0;
    ghost var a, b := a0, m;
    MergingStart(cmp, s, a0, m, e, out0, dom);
    while psize != 0 || (qsize != 0 && q != null)
      invariant a0 <= a <= m <= b <= e && Within(out, dom)
      invariant Merging(cmp, s, a0, m, e, out0, a, b, out, dom)
      invariant psize == m - a && qsize == insize - (b - m)
      invariant q == At(s, b) && (a < m ==> p == s[a])
      invariant StillLinked(s, a, m, b, stop) && OpenList(shape, list, tail, out)
      invariant cmps <= (a - a0) + (b - m)
      invariant a == m && b == e ==> cmps < e - a0
      decreases (m - a) + (e - b)
    {
      ghost var a1, b1, compared;
      var x;
      x, p, q, psize, qsize, a1, b1, compared := Take(cmp, stop, p, q, psize, qsize, s, a, m, b, e);
      MergingStep(cmp, s, a0, m, e, out0, a, b, out, dom, x, a1, b1);
      StillLinkedLess(s, a, m, b, a1, b1, stop);
      list := EmitTaken(shape, x, list, tail, out, stop, s, a1, m, b1);
      tail, out := x, out + [x];
      a, b, cmps := a1, b1, cmps + compared;
    }
    MergingEnd(cmp, s, a0, m, e, out0, out, dom);
    NothingLeftLinked(s, m, e, stop);
  }

  lemma MergingStart(cmp: (Node, Node) -> int, s: seq<Node>, a0: int, m: int, e: int, out0: seq<Node>, dom: set<Node>)
    requires Within(s, dom) && Within(out0, dom)
    requires 0 <= a0 <= m <= e <= |s| && Distinct(AllNodes(out0, s, a0, m, m))
    ensures Merging(cmp, s, a0, m, e, out0, a0, m, out0, dom)
  {
  }

  lemma MergingEnd(cmp: (Node, Node) -> int, s: seq<Node>, a0: int, m: int, e: int, out0: seq<Node>,
                   out: seq<Node>, dom: set<Node>)
    requires Merging(cmp, s, a0, m, e, out0, m, e, out, dom)
    ensures out == out0 + Merge(cmp, s[a0..m], s[m..e]) && Distinct(AllNodes(out, s, m, m, e))
  {
    hide Distinct, AllNodes;
    MergeWithNothing(cmp, s[m..m], s[e..e]);
    assert out + [] == out;
  }

  lemma StillLinkedLess(s: seq<Node>, a: int, m: int, b: int, a1: int, b1: int, stop: Node?)
    requires StillLinked(s, a, m, b, stop) && a <= a1 <= m && b <= b1 <= |s|
    ensures StillLinked(s, a1, m, b1, stop)
  {
  }

  lemma NothingLeftLinked(s: seq<Node>, m: int, e: int, stop: Node?)
    requires StillLinked(s, m, m, e, stop)
    ensures StillLinked(s, e, e, e, stop)
  {
  }

  // ----- one pass ---------------------------------------------------------------

  /** Steps over the run that starts at p: at most insize nodes. */
  method SkipRun(p: Node, insize: nat, stop: Node?, ghost s: seq<Node>, ghost a: nat)
    returns (q: Node?, psize: nat)
    requires Distinct(s) && a < |s| && p == s[a] && 0 < insize
    requires stop == null || stop == s[0]
    requires StillLinked(s, a, a, a, stop)
    ensures psize == Min(insize, |s| - a) && q == At(s, a + psize)
  {
    q, psize := p, 0;
    var i := 0;
    while i < insize
      invariant i <= insize && psize == i && a + i < |s| && q == s[a + i]
    {
      psize := psize + 1;
      q := Advance(q, stop);
      if q == null { break; }
      i := i + 1;
    }
  }

  /** The pass has merged the runs of s up to a into out. */
  ghost predicate Passing(cmp: (Node, Node) -> int, s: seq<Node>, k: nat, a: int, out: seq<Node>, dom: set<Node>)
    requires 0 < k
  {
    && Within(s, dom) && Within(out, dom)
    && 0 <= a <= |s| && Distinct(AllNodes(out, s, a, a, a))
    && out + Pass(cmp, s[a..], k) == Pass(cmp, s, k)
  }

  lemma PassingStep(cmp: (Node, Node) -> int, s: seq<Node>, k: nat, a: int, out: seq<Node>, dom: set<Node>,
                    m: int, e: int, out1: seq<Node>)
    requires 0 < k && Passing(cmp, s, k, a, out, dom)
    requires a < m == a + Min(k, |s| - a) && e == Min(m + k, |s|)
    requires out1 == out + Merge(cmp, s[a..m], s[m..e]) && Within(out1, dom)
    requires Distinct(AllNodes(out1, s, m, m, e))
    ensures Passing(cmp, s, k, e, out1, dom)
    ensures e == Min(a + 2 * k, |s|)
  {
    hide Pass, Merge;
    PassFrom(cmp, s, k, a, m, e);
    assert AllNodes(out1, s, m, m, e) == AllNodes(out1, s, e, e, e);
    Prepend(out, Merge(cmp, s[a..m], s[m..e]), Pass(cmp, s[e..], k));
  }

  lemma PassFrom<T>(cmp: (T, T) -> int, s: seq<T>, k: nat, a: nat, m: nat, e: nat)
    requires 0 < k && a < |s| && m == a + Min(k, |s| - a) && e == Min(m + k, |s|)
    ensures Pass(cmp, s[a..], k) == Merge(cmp, s[a..m], s[m..e]) + Pass(cmp, s[e..], k)
  {
    hide Pass, Merge;
    SuffixSlices(s, a, m, e);
    FirstMerge(cmp, s[a..], k, m - a, e - a);
  }

  lemma SuffixSlices<T>(s: seq<T>, a: nat, m: nat, e: nat)
    requires a <= m <= e <= |s|
    ensures s[a..][..m - a] == s[a..m] && s[a..][m - a..e - a] == s[m..e] && s[a..][e - a..] == s[e..]
  {
  }

  lemma PassingEnd(cmp: (Node, Node) -> int, s: seq<Node>, k: nat, out: seq<Node>, dom: set<Node>)
    requires 0 < k && Passing(cmp, s, k, |s|, out, dom)
    ensures out == Pass(cmp, s, k)
  {
  }

  lemma PassingStart(shape: Shape, cmp: (Node, Node) -> int, s: seq<Node>, k: nat, dom: set<Node>, stop: Node?)
    requires 0 < k && Distinct(s) && Within(s, dom) && NextLinked(s, stop)
    ensures Passing(cmp, s, k, 0, [], dom) && StillLinked(s, 0, 0, 0, stop) && OpenList(shape, null, null, [])
  {
    assert AllNodes([], s, 0, 0, 0) == s && s[0..] == s;
  }

  /** The two runs of a merge are the next two stretches of the list. */
  lemma NextRuns(cmp: (Node, Node) -> int, stop: Node?, out: seq<Node>, s: seq<Node>, k: nat, a: int, m: int, dom: set<Node>)
    requires 0 < k && 0 <= a <= m <= |s| && Passing(cmp, s, k, a, out, dom) && StillLinked(s, a, a, a, stop)
    ensures Distinct(AllNodes(out, s, a, m, m)) && Within(out, dom) && StillLinked(s, a, m, m, stop)
  {
    assert s[a..m] + s[m..] == s[a..];
    assert AllNodes(out, s, a, m, m) == AllNodes(out, s, a, a, a);
  }

  /** One pass: merges the runs of length insize pairwise, leaving the list open at its tail. */
  method MergePass(shape: Shape, cmp: (Node, Node) -> int, stop: Node?, list0: Node, insize: nat, ghost s: seq<Node>, ghost dom: set<Node>)
    returns (list: Node?, tail: Node?, nmerges: nat, ghost cmps: nat)
    requires 0 < insize && s != [] && list0 == s[0]
    requires Distinct(s) && Within(s, dom)
    requires stop == null || stop == s[0]
    requires NextLinked(s, stop)
    modifies dom`next, dom`prev
    ensures OpenList(shape, list, tail, Pass(cmp, s, insize))
    ensures (nmerges <= 1 <==> |s| <= 2 * insize) && cmps < |s|
  {
    hide Passing, StillLinked, OpenList, Pass, Merge, NextLinked, Distinct;
    var p: Node? := list0;
    list, tail, nmerges, cmps := null, null, 0, 0;
    ghost var a, out: seq<Node> := 0, [];
    PassingStart(shape, cmp, s, insize, dom, stop);
    while p != null
      invariant a <= |s| && Passing(cmp, s, insize, a, out, dom) && p == At(s, a)
      invariant StillLinked(s, a, a, a, stop) && OpenList(shape, list, tail, out)
      invariant if nmerges == 0 then a == 0 else if nmerges == 1 then a == Min(2 * insize, |s|) else 2 * insize < a
      invariant if a == 0 then cmps == 0 else cmps < a
      decreases |s| - a
    {
      nmerges := nmerges + 1;
      var q, psize := SkipRun(p, insize, stop, s, a);
      ghost var m := a + psize;
      ghost var e := Min(m + insize, |s|);
      NextRuns(cmp, stop, out, s, insize, a, m, dom);
      ghost var out1, more;
      p, list, tail, out1, more := MergeRuns(shape, cmp, stop, p, q, psize, insize, list, tail, s, a, m, e, out, dom);
      PassingStep(cmp, s, insize, a, out, dom, m, e, out1);
      a, out, cmps := e, out1, cmps + more;
    }
    PassingEnd(cmp, s, insize, out, dom);
  }

  // ----- the sort ----------------------------------------------------------------

  /** Closes the list after a pass. */
  method Close(shape: Shape, list: Node, tail: Node, ghost s: seq<Node>)
    requires OpenList(shape, list, tail, s) && Distinct(s)
    modifies s`next, s`prev
    ensures Linked(shape, list, s)
  {
    assert tail == s[|s| - 1];
    match shape {
      case Single =>
        tail.next := null;
      case Plain =>
        tail.next := null;
      case Headed =>
        list.prev := tail;
        tail.next := null;
      case Ring =>
        list.prev := tail;
        tail.next := list;
    }
  }

  lemma PassKeepsNodes(cmp: (Node, Node) -> int, s: seq<Node>, k: nat, dom: set<Node>)
    requires 0 < k && Distinct(s) && dom == Elements(s)
    ensures Distinct(Pass(cmp, s, k)) && Elements(Pass(cmp, s, k)) == dom
    ensures Within(Pass(cmp, s, k), dom)
  {
    PassPermutes(cmp, s, k);
    DistinctPermutation(s, Pass(cmp, s, k));
    SameElements(s, Pass(cmp, s, k));
    var t := Pass(cmp, s, k);
    assert forall i :: 0 <= i < |t| ==> t[i] in Elements(t);
  }

  lemma OnePassMore(n: nat, c: nat, c1: nat, done: nat)
    requires 0 < n && c <= (n - 1) * done && c1 < n
    ensures c + c1 <= (n - 1) * (done + 1)
  {
  }

  /** One pass over a closed list: afterwards it is closed again. */
  method SortPass(shape: Shape, cmp: (Node, Node) -> int, head: Node, insize: nat, ghost s: seq<Node>, ghost dom: set<Node>)
    returns (list: Node, tail: Node, nmerges: nat, ghost cmps: nat)
    requires 0 < insize && s != [] && Linked(shape, head, s) && Elements(s) == dom
    modifies dom`next, dom`prev
    ensures Linked(shape, list, Pass(cmp, s, insize)) && tail == Pass(cmp, s, insize)[|s| - 1]
    ensures Elements(Pass(cmp, s, insize)) == dom
    ensures (nmerges <= 1 <==> |s| <= 2 * insize) && cmps < |s|
  {
    PassKeepsNodes(cmp, s, insize, dom);
    var first, last;
    first, last, nmerges, cmps := MergePass(shape, cmp, if shape == Ring then head else null, head, insize, s, dom);
    list, tail := first, last;
    Close(shape, list, tail, Pass(cmp, s, insize));
  }

  /** Sorts the list in place: passes with run lengths 1, 2, 4, ... until one merge is enough. No
      pass compares as often as there are nodes. */
  method SortLinks(shape: Shape, cmp: (Node, Node) -> int, head: Node, ghost s: seq<Node>)
    returns (list: Node, tail: Node, ghost cmps: nat)
    requires s != [] && Linked(shape, head, s)
    modifies s`next, s`prev
    ensures Linked(shape, list, Sort(cmp, s)) && tail == Sort(cmp, s)[|s| - 1]
    ensures cmps <= (|s| - 1) * Passes(|s|, 1)
  {
    hide Linked, Pass;
    var insize, looping := 1, true;
    ghost var n, dom, t, done := |s|, Elements(s), s, 0;
    list, tail, cmps := head, head, 0;
    while looping
      invariant 0 < insize && |t| == n && Linked(shape, list, t) && Elements(t) == dom
      invariant if looping then SortFrom(cmp, t, insize) == Sort(cmp, s) else t == Sort(cmp, s) && tail == t[n - 1]
      invariant cmps <= (n - 1) * done
      invariant done + (if looping then Passes(n, insize) else 0) == Passes(n, 1)
      decreases looping, n - insize
    {
      var nmerges;
      ghost var more;
      list, tail, nmerges, more := SortPass(shape, cmp, list, insize, t, dom);
      t := Pass(cmp, t, insize);
      if nmerges <= 1 {
        looping := false;
      }
      OnePassMore(n, cmps, more, done);
      insize, cmps, done := insize * 2, cmps + more, done + 1;
    }
  }
}
