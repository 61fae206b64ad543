/** The application-order list of uthash.h: a plain doubly linked list with a cached tail. */
module HashOrder {
  import opened Nodes
  import opened MergeSort
  import opened Shapes

  /** HASH_APPEND_LIST. */
  method Append(head: Node, tail: Node, add: Node, ghost s: seq<Node>)
    requires s != [] && Linked(Plain, head, s) && tail == s[|s| - 1] && add !in s
    modifies s`next, add`next, add`prev
    ensures Linked(Plain, head, s + [add])
  {
    add.next := null;
    add.prev := tail;
    tail.next := add;
    ghost var t := s + [add];
    AppendDistinct(s, |s|, add);
    assert t == InsertAt(s, |s|, add);
    forall i | 0 <= i < |t| ensures t[i].next == NextOf(t, i, null) && t[i].prev == At(t, i - 1) {
      if i < |s| {
        assert t[i] == s[i] && s[i].prev == At(s, i - 1);
        if i < |s| - 1 { assert s[i].next == NextOf(s, i, null); }
      }
    }
  }

  /** HASH_AKBI_INNER_LOOP: the first node greater than add, or null. */
  method FirstGreater(cmp: (Node, Node) -> int, head: Node, add: Node, ghost s: seq<Node>) returns (iter: Node?)
    requires s != [] && Linked(Plain, head, s)
    ensures iter == At(s, UpperBound(cmp, s, add))
  {
    iter := head;
    ghost var i := 0;
    BoundFrom(cmp, s, add, 0);
    while iter != null
      invariant 0 <= i <= |s| && iter == At(s, i)
      invariant UpperBound(cmp, s, add) == i + UpperBound(cmp, s[i..], add)
      decreases |s| - i
    {
      BoundFrom(cmp, s, add, i);
      if cmp(iter, add) > 0 {
        break;
      }
      iter := iter.next;
      i := i + 1;
    }
  }

  lemma BoundFrom(cmp: (Node, Node) -> int, s: seq<Node>, x: Node, i: nat)
    requires i <= |s|
    ensures s[0..] == s
    ensures i == |s| ==> UpperBound(cmp, s[i..], x) == 0
    ensures i < |s| ==> UpperBound(cmp, s[i..], x) == if cmp(s[i], x) > 0 then 0 else 1 + UpperBound(cmp, s[i + 1..], x)
  {
    if i < |s| { assert s[i..][1..] == s[i + 1..]; }
  }

  /** Links add in before the node iter at position k. */
  method InsertBefore(head: Node, iter: Node, add: Node, ghost s: seq<Node>, ghost k: nat) returns (head': Node)
    requires k < |s| && Linked(Plain, head, s) && iter == s[k] && add !in s
    modifies s`next, s`prev, add`next, add`prev
    ensures Linked(Plain, head', InsertAt(s, k, add))
  {
    head' := head;
    add.next := iter;
    add.prev := iter.prev;
    if add.prev != null {
      add.prev.next := add;
    } else {
      head' := add;
    }
    iter.prev := add;
    ghost var t := InsertAt(s, k, add);
    AppendDistinct(s, k, add);
    forall i | 0 <= i < |t| ensures t[i].next == NextOf(t, i, null) && t[i].prev == At(t, i - 1) {
      if i != k {
        var m := if i < k then i else i - 1;
        assert t[i] == s[m];
        if m != k - 1 { assert s[m].next == NextOf(s, m, null); }
        if m != k { assert s[m].prev == At(s, m - 1); }
      }
    }
  }

  /** Links add in before the first node greater than it, or at the end. */
  method InsertInOrder(cmp: (Node, Node) -> int, head: Node, tail: Node, add: Node, ghost s: seq<Node>)
    returns (head': Node, tail': Node)
    requires s != [] && Linked(Plain, head, s) && tail == s[|s| - 1] && add !in s
    modifies s`next, s`prev, add`next, add`prev
    ensures Linked(Plain, head', Insert(cmp, s, add)) && tail' == Insert(cmp, s, add)[|s|]
  {
    hide Linked, UpperBound, Distinct;
    head', tail' := head, tail;
    InsertedWhere(cmp, s, add);
    var iter := FirstGreater(cmp, head, add, s);
    if iter != null {
      head' := InsertBefore(head, iter, add, s, UpperBound(cmp, s, add));
    } else {
      Append(head, tail, add, s);
      tail' := add;
    }
  }

  lemma InsertedWhere(cmp: (Node, Node) -> int, s: seq<Node>, x: Node)
    requires s != []
    ensures var i, t := UpperBound(cmp, s, x), Insert(cmp, s, x);
            i <= |s| && |t| == |s| + 1 && t == InsertAt(s, i, x) && t[|s|] == if i == |s| then x else s[|s| - 1]
    ensures UpperBound(cmp, s, x) == |s| ==> Insert(cmp, s, x) == s + [x]
  {
    LastOfInsertAt(s, UpperBound(cmp, s, x), x);
  }

  lemma LastOfInsertAt(s: seq<Node>, i: nat, x: Node)
    requires i <= |s| && s != []
    ensures InsertAt(s, i, x)[|s|] == if i == |s| then x else s[|s| - 1]
    ensures i == |s| ==> InsertAt(s, i, x) == s + [x]
  {
  }

  /** Unlinks the node at position k; it was not the only one. */
  method Remove(head: Node, tail: Node, del: Node, ghost s: seq<Node>, ghost k: nat) returns (head': Node, tail': Node)
    requires k < |s| && 2 <= |s| && Linked(Plain, head, s) && del == s[k] && tail == s[|s| - 1]
    modifies s`next, s`prev
    ensures Linked(Plain, head', Without(s, k)) && tail' == Without(s, k)[|s| - 2]
  {
    hide Without, NextLinked;
    Links(Plain, head, s);
    head', tail' := head, tail;
    if del == tail {
      tail' := del.prev;
    }
    if del.prev != null {
      del.prev.next := del.next;
    } else {
      head' := del.next;
    }
    if del.next != null {
      del.next.prev := del.prev;
    }
    RedirectedIsLinked(Plain, head', s, k);
    LastOfWithout(s, k);
  }

  lemma LastOfWithout(s: seq<Node>, k: nat)
    requires k < |s| && 2 <= |s|
    ensures Without(s, k)[|s| - 2] == s[if k == |s| - 1 then k - 1 else |s| - 1]
  {
  }
}
