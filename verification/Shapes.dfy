/** The shapes of a linked list in uthash.h and utlist.h. */
module Shapes {
  import opened Nodes
  import opened MergeSort

  /** Following next from s[0] visits s and ends in stop. */
  ghost predicate NextLinked(s: seq<Node>, stop: Node?)
    reads s`next
  {
    forall i {:trigger s[i].next} :: 0 <= i < |s| ==> s[i].next == NextOf(s, i, stop)
  }

  ghost function NextOf(s: seq<Node>, i: int, stop: Node?): (next: Node?)
  {
    if 0 <= i < |s| - 1 then s[i + 1] else stop
  }

  /** Single: linked forwards only (LL_ macros). Plain: null at both ends (the application order of
      uthash.h). Headed: the head's prev is the tail (DL_ macros). Ring: closed both ways (CDL_ macros). */
  datatype Shape = Single | Plain | Headed | Ring

  ghost function EndOf(shape: Shape, s: seq<Node>): (end: Node?)
  {
    if shape == Ring then At(s, 0) else null
  }

  ghost function PrevOf(shape: Shape, s: seq<Node>, i: int): (prev: Node?)
  {
    if i == 0 && shape != Plain then At(s, |s| - 1) else At(s, i - 1)
  }

  /** head leads to exactly the nodes of s, in order, linked in the given shape. */
  ghost predicate Linked(shape: Shape, head: Node?, s: seq<Node>)
    reads s`next, s`prev
  {
    && Distinct(s) && head == At(s, 0)
    && NextLinked(s, EndOf(shape, s))
    && (shape != Single ==> forall i {:trigger s[i].prev} :: 0 <= i < |s| ==> s[i].prev == PrevOf(shape, s, i))
  }

  /** The links of a list, spelled out. */
  lemma Links(shape: Shape, head: Node?, s: seq<Node>)
    requires Linked(shape, head, s)
    ensures forall i {:trigger s[i].next} :: 0 <= i < |s| ==> s[i].next == NextOf(s, i, EndOf(shape, s))
    ensures shape != Single ==> forall i {:trigger s[i].prev} :: 0 <= i < |s| ==> s[i].prev == PrevOf(shape, s, i)
    ensures Distinct(s) && head == At(s, 0)
  {
  }

  lemma MakeLinked(shape: Shape, head: Node?, s: seq<Node>)
    requires Distinct(s) && head == At(s, 0)
    requires forall i :: 0 <= i < |s| ==> LinksAt(shape, s, i)
    ensures Linked(shape, head, s)
  {
    forall i | 0 <= i < |s|
      ensures s[i].next == NextOf(s, i, EndOf(shape, s)) && (shape != Single ==> s[i].prev == PrevOf(shape, s, i))
    {
      assert LinksAt(shape, s, i);
    }
  }

  /** After a change, node i of t has the links that the shape asks for. */
  ghost predicate LinksAt(shape: Shape, t: seq<Node>, i: int)
    requires 0 <= i < |t|
    reads t`next, t`prev
  {
    t[i].next == NextOf(t, i, EndOf(shape, t)) && (shape != Single ==> t[i].prev == PrevOf(shape, t, i))
  }

  function Without<T>(c: seq<T>, i: nat): (r: seq<T>)
    requires i < |c|
    ensures |r| == |c| - 1
  {
    c[..i] + c[i + 1..]
  }

  lemma WithoutDistinct<T>(c: seq<T>, i: nat, dom: set<T>)
    requires i < |c| && Distinct(c) && Within(c, dom)
    ensures Distinct(Without(c, i)) && Within(Without(c, i), dom - {c[i]})
    ensures Elements(Without(c, i)) == Elements(c) - {c[i]}
  {
    var d := Without(c, i);
    assert forall k :: 0 <= k < |d| ==> d[k] == c[if k < i then k else k + 1];
    forall y | y in c ensures y == c[i] || y in d {
      var m :| 0 <= m < |c| && c[m] == y;
      if m < i { assert d[m] == y; } else if m > i { assert d[m - 1] == y; }
    }
  }

  lemma AppendDistinct(s: seq<Node>, i: nat, x: Node)
    requires Distinct(s) && x !in s && i <= |s|
    ensures Distinct(InsertAt(s, i, x))
  {
    var t := InsertAt(s, i, x);
    forall a, b | 0 <= a < b < |t| ensures t[a] != t[b] {
      assert a != i ==> t[a] == s[if a < i then a else a - 1];
      assert b != i ==> t[b] == s[if b < i then b else b - 1];
    }
  }

  /** Node k is bypassed: every link that led to it now leads where its own link leads. */
  ghost predicate Redirected(shape: Shape, s: seq<Node>, k: nat)
    reads s`next, s`prev
  {
    var end := EndOf(shape, s);
    && k < |s|
    && (forall i {:trigger s[i].next} :: 0 <= i < |s| && i != k ==>
          s[i].next == if NextOf(s, i, end) == s[k] then NextOf(s, k, end) else NextOf(s, i, end))
    && (shape != Single ==> forall i {:trigger s[i].prev} :: 0 <= i < |s| && i != k ==>
          s[i].prev == if PrevOf(shape, s, i) == s[k] then PrevOf(shape, s, k) else PrevOf(shape, s, i))
  }

  lemma RedirectedIsLinked(shape: Shape, head: Node, s: seq<Node>, k: nat)
    requires 2 <= |s| && k < |s| && head == s[if k == 0 then 1 else 0]
    requires Distinct(s) && Redirected(shape, s, k)
    ensures Linked(shape, head, Without(s, k))
  {
    hide NextLinked, Redirected, Without, Distinct;
    var t := Without(s, k);
    WithinElements(s);
    WithoutDistinct(s, k, Elements(s));
    forall i | 0 <= i < |t| ensures LinksAt(shape, t, i) {
      RedirectedAt(shape, s, k, i);
    }
    FirstOfWithout(s, k);
    MakeLinked(shape, head, t);
  }

  lemma FirstOfWithout<T>(s: seq<T>, k: nat)
    requires k < |s| && 2 <= |s|
    ensures |Without(s, k)| == |s| - 1 && Without(s, k)[0] == s[if k == 0 then 1 else 0]
  {
  }

  lemma WithoutAt<T>(s: seq<T>, k: nat, i: nat)
    requires k < |s| && i < |s| - 1
    ensures Without(s, k)[i] == s[if i < k then i else i + 1]
  {
  }

  /** Taking out node k turns the link to node k of the node that is then at i into the link of node k. */
  lemma NextWithout(shape: Shape, s: seq<Node>, k: nat, i: nat)
    requires Distinct(s) && 2 <= |s| && k < |s| && i < |s| - 1
    ensures var m, end := if i < k then i else i + 1, EndOf(shape, s);
            NextOf(Without(s, k), i, EndOf(shape, Without(s, k))) ==
            if NextOf(s, m, end) == s[k] then NextOf(s, k, end) else NextOf(s, m, end)
  {
    hide Without;
    WithoutAt(s, k, 0);
    if i < |s| - 2 { WithoutAt(s, k, i + 1); }
    if i + 1 < k {
      assert s[i + 1] != s[k];
    } else if i + 1 == k {
      assert NextOf(s, i, EndOf(shape, s)) == s[k];
    } else if i + 1 < |s| - 1 {
      assert s[i + 2] != s[k];
    } else {
      assert k > 0 ==> s[0] != s[k];
    }
  }

  lemma PrevWithout(shape: Shape, s: seq<Node>, k: nat, i: nat)
    requires Distinct(s) && 2 <= |s| && k < |s| && i < |s| - 1
    ensures var m := if i < k then i else i + 1;
            PrevOf(shape, Without(s, k), i) ==
            if PrevOf(shape, s, m) == s[k] then PrevOf(shape, s, k) else PrevOf(shape, s, m)
  {
    hide Without;
    WithoutAt(s, k, |s| - 2);
    if i > 0 { WithoutAt(s, k, i - 1); }
    if 0 < i < k {
      assert s[i - 1] != s[k];
    } else if k < i {
      assert s[i] != s[k];
    } else if i == 0 && k > 0 {
      assert k < |s| - 1 ==> s[|s| - 1] != s[k];
    }
  }

  lemma RedirectedAt(shape: Shape, s: seq<Node>, k: nat, i: nat)
    requires Distinct(s) && Redirected(shape, s, k) && 2 <= |s| && i < |s| - 1
    ensures LinksAt(shape, Without(s, k), i)
  {
    hide Without, Distinct, NextOf, PrevOf, EndOf;
    var m := if i < k then i else i + 1;
    WithoutAt(s, k, i);
    NextWithout(shape, s, k, i);
    PrevWithout(shape, s, k, i);
    assert s[m].next == s[m].next && s[m].prev == s[m].prev;
  }
}
