/** The lists of utlist.h: singly linked LL_ lists, doubly linked DL_ lists, whose head's prev is the
    tail, and circular CDL_ lists. */
module UtLists {
  import opened Nodes
  import opened MergeSort
  import opened Shapes
  import opened LinkSort

  /** The node behind which like belongs (null: before the head): DL_LOWER_BOUND stops at a null link,
      CDL_LOWER_BOUND at a link to the head. */
  method LowerBoundElem(shape: Shape, cmp: (Node, Node) -> int, head: Node?, like: Node, ghost s: seq<Node>)
    returns (elt: Node?)
    requires shape != Plain && Linked(shape, head, s)
    ensures elt == At(s, LowerBound(cmp, s, like) - 1)
  {
    hide LowerBound, NextLinked;
    Links(shape, head, s);
    if head == null || cmp(head, like) >= 0 {
      elt := null;
      IsLowerBound(cmp, s, like, 0);
    } else {
      elt := head;
      ghost var i := 0;
      var stop := if shape == Ring then head else null;
      while elt.next != stop
        invariant 0 <= i < |s| && elt == s[i]
        invariant forall j :: 0 <= j <= i ==> cmp(s[j], like) < 0
        decreases |s| - i
      {
        if cmp(elt.next, like) >= 0 {
          break;
        }
        elt := elt.next;
        i := i + 1;
      }
      IsLowerBound(cmp, s, like, i + 1);
    }
  }

  lemma IsLowerBound(cmp: (Node, Node) -> int, s: seq<Node>, x: Node, b: nat)
    requires b <= |s| && forall j :: 0 <= j < b ==> cmp(s[j], x) < 0
    requires b < |s| ==> cmp(s[b], x) >= 0
    ensures LowerBound(cmp, s, x) == b
  {
  }

  /** x was linked in behind node k - 1 of s. */
  lemma InsertedLinks(shape: Shape, s: seq<Node>, k: nat, x: Node)
    requires shape != Plain && 0 < k <= |s| && Distinct(s) && x !in s
    requires forall i {:trigger s[i].next} :: 0 <= i < |s| ==>
               s[i].next == if i == k - 1 then x else NextOf(s, i, EndOf(shape, s))
    requires forall i {:trigger s[i].prev} :: 0 <= i < |s| ==>
               s[i].prev == if i == (if k == |s| then 0 else k) then x else PrevOf(shape, s, i)
    requires x.next == NextOf(s, k - 1, EndOf(shape, s)) && x.prev == s[k - 1]
    ensures forall i :: 0 <= i <= |s| ==> LinksAt(shape, InsertAt(s, k, x), i)
  {
    forall i | 0 <= i <= |s| ensures LinksAt(shape, InsertAt(s, k, x), i) {
      InsertedLinksAt(shape, s, k, x, i);
    }
  }

  lemma InsertedLinksAt(shape: Shape, s: seq<Node>, k: nat, x: Node, i: nat)
    requires shape != Plain && 0 < k <= |s| && i <= |s|
    requires forall i {:trigger s[i].next} :: 0 <= i < |s| ==>
               s[i].next == if i == k - 1 then x else NextOf(s, i, EndOf(shape, s))
    requires forall i {:trigger s[i].prev} :: 0 <= i < |s| ==>
               s[i].prev == if i == (if k == |s| then 0 else k) then x else PrevOf(shape, s, i)
    requires x.next == NextOf(s, k - 1, EndOf(shape, s)) && x.prev == s[k - 1]
    ensures LinksAt(shape, InsertAt(s, k, x), i)
  {
    if i != k {
      var m := if i < k then i else i - 1;
      assert InsertAt(s, k, x)[i] == s[m] && s[m].next == s[m].next && s[m].prev == s[m].prev;
    }
  }

  /** x was linked in between the tail and the head of a ring: the ring can be read from either. */
  lemma SeamLinks(s: seq<Node>, x: Node)
    requires Distinct(s) && x !in s
    requires forall i {:trigger s[i].next} :: 0 <= i < |s| ==> s[i].next == if i == |s| - 1 then x else s[i + 1]
    requires forall i {:trigger s[i].prev} :: 0 <= i < |s| ==> s[i].prev == if i == 0 then x else s[i - 1]
    requires x.next == (if s == [] then x else s[0]) && x.prev == (if s == [] then x else s[|s| - 1])
    ensures forall i :: 0 <= i <= |s| ==> LinksAt(Ring, s + [x], i) && LinksAt(Ring, [x] + s, i)
  {
    var t, u := s + [x], [x] + s;
    forall i | 0 <= i < |t| ensures LinksAt(Ring, t, i) {
      if i < |s| { assert t[i] == s[i] && s[i].next == s[i].next && s[i].prev == s[i].prev; }
    }
    forall i | 0 <= i < |u| ensures LinksAt(Ring, u, i) {
      if i > 0 { assert u[i] == s[i - 1] && s[i - 1].next == s[i - 1].next && s[i - 1].prev == s[i - 1].prev; }
    }
  }

  /** x took the place of node k of s: every link to node k now leads to x, which has node k's links. */
  lemma ReplacedLinks(shape: Shape, head: Node, s: seq<Node>, k: nat, x: Node)
    requires shape != Plain && k < |s| && Distinct(s) && x !in s && head == (if k == 0 then x else s[0])
    requires forall i {:trigger s[i].next} :: 0 <= i < |s| && i != k ==>
               s[i].next == Renamed(NextOf(s, i, EndOf(shape, s)), s[k], x)
    requires forall i {:trigger s[i].prev} :: 0 <= i < |s| && i != k ==>
               s[i].prev == Renamed(PrevOf(shape, s, i), s[k], x)
    requires x.next == Renamed(NextOf(s, k, EndOf(shape, s)), s[k], x)
    requires x.prev == Renamed(PrevOf(shape, s, k), s[k], x)
    ensures Linked(shape, head, s[k := x])
  {
    var t := s[k := x];
    forall i | 0 <= i < |t| ensures LinksAt(shape, t, i) {
      assert i != k ==> t[i] == s[i] && s[i].next == s[i].next && s[i].prev == s[i].prev;
    }
    forall i, j | 0 <= i < j < |t| ensures t[i] != t[j] {
      assert s[i] in s && s[j] in s;
    }
    MakeLinked(shape, head, t);
  }

  ghost function Renamed(n: Node?, from: Node, to: Node): (m: Node?)
  {
    if n == from then to else n
  }

  lemma ConcatDistinct(s: seq<Node>, t: seq<Node>)
    requires Distinct(s) && Distinct(t) && forall n | n in s :: n !in t
    ensures Distinct(s + t)
    ensures forall i, j :: 0 <= i < |s| && 0 <= j < |t| ==> s[i] != t[j]
  {
    forall i, j | 0 <= i < |s| && 0 <= j < |t| ensures s[i] != t[j] {
      assert s[i] in s && t[j] in t;
    }
  }

  lemma NothingLeft(shape: Shape, s: seq<Node>, k: nat)
    requires |s| == 1 && k == 0
    ensures Linked(shape, null, Without(s, k))
  {
  }

  /** Walks to the node in front of target, or to the last node. */
  method WalkTo(head: Node, target: Node?, ghost s: seq<Node>) returns (tmp: Node, ghost i: nat)
    requires Linked(Single, head, s) && s != []
    ensures i < |s| && tmp == s[i] && (i == |s| - 1 || s[i + 1] == target)
    ensures forall j :: 0 < j <= i ==> s[j] != target
  {
    tmp, i := head, 0;
    while tmp.next != null && tmp.next != target
      invariant i < |s| && tmp == s[i]
      invariant forall j :: 0 < j <= i ==> s[j] != target
      decreases |s| - i
    {
      tmp := tmp.next;
      i := i + 1;
    }
  }

  lemma SingleLinked(head: Node?, s: seq<Node>)
    requires Distinct(s) && head == At(s, 0)
    requires forall i {:trigger s[i].next} :: 0 <= i < |s| ==> s[i].next == NextOf(s, i, null)
    ensures Linked(Single, head, s)
  {
  }

  class LList {
    var head: Node?
    ghost var nodes: seq<Node>

    ghost predicate Valid()
      reads this, nodes`next, nodes`prev
    {
      Linked(Single, head, nodes)
    }

    constructor ()
      ensures Valid() && nodes == []
    {
      head, nodes := null, [];
    }

    /** LL_PREPEND. */
    method Prepend(add: Node)
      requires Valid() && add !in nodes
      modifies this, add`next
      ensures Valid() && nodes == [add] + old(nodes)
    {
      ghost var s, t := nodes, [add] + nodes;
      AppendDistinct(s, 0, add);
      assert t == InsertAt(s, 0, add);
      add.next := head;
      head := add;
      nodes := t;
      forall i | 0 <= i < |t| ensures t[i].next == NextOf(t, i, null) {
        if i > 0 { assert t[i] == s[i - 1] && s[i - 1].next == NextOf(s, i - 1, null); }
      }
      SingleLinked(head, t);
    }

    /** Links add in behind el, the node at position k - 1. */
    method AppendBehind(el: Node, add: Node, ghost k: nat)
      requires Valid() && add !in nodes && 0 < k <= |nodes| && el == nodes[k - 1]
      modifies this`nodes, nodes`next, add`next
      ensures Valid() && nodes == InsertAt(old(nodes), k, add)
    {
      ghost var s, t := nodes, InsertAt(nodes, k, add);
      AppendDistinct(s, k, add);
      assert el.next == NextOf(s, k - 1, null);
      add.next := el.next;
      el.next := add;
      nodes := t;
      forall i | 0 <= i < |t| ensures t[i].next == NextOf(t, i, null) {
        if i != k {
          var m := if i < k then i else i - 1;
          assert t[i] == s[m] && (m != k - 1 ==> s[m].next == NextOf(s, m, null));
        }
      }
      SingleLinked(head, t);
    }

    /** LL_APPEND_ELEM: links add in behind el, the node at position k - 1, or before the head. */
    method AppendElem(el: Node?, add: Node, ghost k: nat)
      requires Valid() && add !in nodes && k <= |nodes| && el == At(nodes, k - 1)
      modifies this, nodes`next, add`next
      ensures Valid() && nodes == InsertAt(old(nodes), k, add)
    {
      if el != null {
        AppendBehind(el, add, k);
      } else {
        Prepend(add);
      }
    }

    /** LL_APPEND. */
    method Append(add: Node)
      requires Valid() && add !in nodes
      modifies this, nodes`next, add`next
      ensures Valid() && nodes == old(nodes) + [add]
    {
      ghost var s, t := nodes, nodes + [add];
      AppendDistinct(s, |s|, add);
      assert t == InsertAt(s, |s|, add);
      add.next := null;
      if head != null {
        var tmp;
        ghost var i;
        tmp, i := WalkTo(head, null, s);
        tmp.next := add;
      } else {
        head := add;
      }
      nodes := t;
      forall i | 0 <= i < |t| ensures t[i].next == NextOf(t, i, null) {
        if i < |s| { assert t[i] == s[i] && (i < |s| - 1 ==> s[i].next == NextOf(s, i, null)); }
      }
      SingleLinked(head, t);
    }

    /** LL_DELETE: unlinks the first node that is del; without one, nothing changes. */
    method Delete(del: Node) returns (ghost k: nat)
      requires Valid() && head != null
      modifies this, nodes`next
      ensures Valid() && if del in old(nodes) then k < |old(nodes)| && old(nodes)[k] == del && nodes == Without(old(nodes), k)
                         else nodes == old(nodes)
    {
      hide Without;
      ghost var s := nodes;
      k := 0;
      if head == del {
        head := head.next;
        Bypassed(head, s, 0);
        nodes := Without(s, 0);
      } else {
        var tmp;
        tmp, k := WalkTo(head, del, s);
        if tmp.next != null {
          k := k + 1;
          tmp.next := del.next;
          Bypassed(head, s, k);
          nodes := Without(s, k);
        }
      }
    }

    /** LL_CONCAT: moves all nodes of other behind these. */
    method Concat(other: LList)
      requires Valid() && other.Valid() && other != this
      requires forall n | n in nodes :: n !in other.nodes
      modifies this, nodes`next
      ensures Valid() && nodes == old(nodes) + old(other.nodes)
    {
      ghost var s, u, t := nodes, other.nodes, nodes + other.nodes;
      ConcatDistinct(s, u);
      if head != null {
        var tmp;
        ghost var i;
        tmp, i := WalkTo(head, null, s);
        tmp.next := other.head;
      } else {
        head := other.head;
      }
      nodes := t;
      forall i | 0 <= i < |t| ensures t[i].next == NextOf(t, i, null) {
        if i < |s| {
          assert t[i] == s[i] && (i < |s| - 1 ==> s[i].next == NextOf(s, i, null));
        } else {
          assert t[i] == u[i - |s|] && u[i - |s|].next == NextOf(u, i - |s|, null);
        }
      }
      SingleLinked(head, t);
    }

    /** LL_INSERT_INORDER. */
    method InsertInOrder(add: Node, cmp: (Node, Node) -> int)
      requires Valid() && add !in nodes
      modifies this, nodes`next, add`next
      ensures Valid() && nodes == InsertLower(cmp, old(nodes), add)
    {
      hide Linked, LowerBound;
      var elt := LowerBoundElem(Single, cmp, head, add, nodes);
      AppendElem(elt, add, LowerBound(cmp, nodes, add));
    }

    /** LL_SORT. */
    method Sort(cmp: (Node, Node) -> int) returns (ghost cmps: nat)
      requires Valid()
      modifies this, nodes`next, nodes`prev
      ensures Valid() && nodes == MergeSort.Sort(cmp, old(nodes))
      ensures nodes != [] ==> cmps <= (|nodes| - 1) * Passes(|nodes|, 1)
    {
      hide MergeSort.Sort, Passes, NextLinked;
      cmps := 0;
      if head != null {
        var tail;
        head, tail, cmps := SortLinks(Single, cmp, head, nodes);
      }
      nodes := MergeSort.Sort(cmp, nodes);
    }
  }

  /** Node k is bypassed in a singly linked list. */
  lemma Bypassed(head: Node?, s: seq<Node>, k: nat)
    requires Distinct(s) && k < |s| && head == if k == 0 then At(s, 1) else s[0]
    requires forall i {:trigger s[i].next} :: 0 <= i < |s| && i != k ==>
               s[i].next == if i + 1 == k then NextOf(s, k, null) else NextOf(s, i, null)
    ensures Linked(Single, head, Without(s, k))
  {
    var t := Without(s, k);
    WithoutDistinct(s, k, Elements(s));
    forall i | 0 <= i < |t| ensures t[i].next == NextOf(t, i, null) {
      assert t[i] == s[if i < k then i else i + 1];
    }
    SingleLinked(head, t);
  }

  class DList {
    var head: Node?
    ghost var nodes: seq<Node>

    ghost predicate Valid()
      reads this, nodes`next, nodes`prev
    {
      Linked(Headed, head, nodes)
    }

    constructor ()
      ensures Valid() && nodes == []
    {
      head, nodes := null, [];
    }

    /** DL_PREPEND. */
    method Prepend(add: Node)
      requires Valid() && add !in nodes
      modifies this, nodes`prev, add`next, add`prev
      ensures Valid() && nodes == [add] + old(nodes)
    {
      hide NextLinked;
      ghost var s, t := nodes, [add] + nodes;
      Links(Headed, head, s);
      add.next := head;
      if head != null {
        add.prev := head.prev;
        head.prev := add;
      } else {
        add.prev := add;
      }
      head := add;
      nodes := t;
      forall i | 0 <= i < |t| ensures LinksAt(Headed, t, i) {
        if i > 0 { assert t[i] == s[i - 1] && s[i - 1].next == s[i - 1].next && s[i - 1].prev == s[i - 1].prev; }
      }
      AppendDistinct(s, 0, add);
      assert t == InsertAt(s, 0, add);
      MakeLinked(Headed, head, t);
    }

    /** DL_APPEND. */
    method Append(add: Node)
      requires Valid() && add !in nodes
      modifies this, nodes`next, nodes`prev, add`next, add`prev
      ensures Valid() && nodes == old(nodes) + [add]
    {
      hide NextLinked;
      ghost var s, t := nodes, nodes + [add];
      Links(Headed, head, s);
      if head != null {
        add.prev := head.prev;
        head.prev.next := add;
        head.prev := add;
        add.next := null;
      } else {
        head := add;
        head.prev := head;
        head.next := null;
      }
      nodes := t;
      forall i | 0 <= i < |t| ensures LinksAt(Headed, t, i) {
        if i < |s| { assert t[i] == s[i] && s[i].next == s[i].next && s[i].prev == s[i].prev; }
      }
      AppendDistinct(s, |s|, add);
      assert t == InsertAt(s, |s|, add);
      MakeLinked(Headed, head, t);
    }

    /** DL_APPEND_ELEM: links add in behind el, the node at position k - 1, or before the head. */
    method AppendElem(el: Node?, add: Node, ghost k: nat)
      requires Valid() && add !in nodes && k <= |nodes| && el == At(nodes, k - 1)
      modifies this, nodes`next, nodes`prev, add`next, add`prev
      ensures Valid() && nodes == InsertAt(old(nodes), k, add)
    {
      if el != null {
        AppendBehind(el, add, k);
      } else {
        Prepend(add);
      }
    }

    method AppendBehind(el: Node, add: Node, ghost k: nat)
      requires Valid() && add !in nodes && 0 < k <= |nodes| && el == nodes[k - 1]
      modifies this, nodes`next, nodes`prev, add`next, add`prev
      ensures Valid() && nodes == InsertAt(old(nodes), k, add)
    {
      hide NextLinked;
      ghost var s, t := nodes, InsertAt(nodes, k, add);
      Links(Headed, head, s);
      AppendDistinct(s, k, add);
      add.next := el.next;
      add.prev := el;
      el.next := add;
      if add.next != null {
        add.next.prev := add;
      } else {
        head.prev := add;
      }
      nodes := t;
      InsertedLinks(Headed, s, k, add);
      MakeLinked(Headed, head, t);
    }

    /** DL_DELETE. */
    method Delete(del: Node, ghost k: nat)
      requires Valid() && k < |nodes| && del == nodes[k]
      modifies this, nodes`next, nodes`prev
      ensures Valid() && nodes == Without(old(nodes), k)
    {
      hide NextLinked, Without;
      ghost var s, t := nodes, Without(nodes, k);
      Links(Headed, head, s);
      if del.prev == del {
        head := null;
        NothingLeft(Headed, s, k);
      } else {
        if del == head {
          del.next.prev := del.prev;
          head := del.next;
        } else {
          del.prev.next := del.next;
          if del.next != null {
            del.next.prev := del.prev;
          } else {
            head.prev := del.prev;
          }
        }
        RedirectedIsLinked(Headed, head, s, k);
      }
      nodes := t;
    }

    /** DL_REPLACE_ELEM. */
    method ReplaceElem(el: Node, add: Node, ghost k: nat)
      requires Valid() && k < |nodes| && el == nodes[k] && add !in nodes
      modifies this, nodes`next, nodes`prev, add`next, add`prev
      ensures Valid() && nodes == old(nodes)[k := add]
    {
      hide NextLinked;
      ghost var s := nodes;
      Links(Headed, head, s);
      if head == el {
        head := add;
        add.next := el.next;
        if el.next == null {
          add.prev := add;
        } else {
          add.prev := el.prev;
          add.next.prev := add;
        }
      } else {
        add.next := el.next;
        add.prev := el.prev;
        add.prev.next := add;
        if el.next == null {
          head.prev := add;
        } else {
          add.next.prev := add;
        }
      }
      nodes := s[k := add];
      ReplacedLinks(Headed, head, s, k, add);
    }

    /** DL_CONCAT: moves all nodes of other behind these. */
    method Concat(other: DList)
      requires Valid() && other.Valid() && other != this
      requires forall n | n in nodes :: n !in other.nodes
      modifies this, nodes`next, nodes`prev, other.nodes`prev
      ensures Valid() && nodes == old(nodes) + old(other.nodes)
    {
      hide NextLinked;
      ghost var s, u, t := nodes, other.nodes, nodes + other.nodes;
      ConcatDistinct(s, u);
      Links(Headed, head, s);
      Links(Headed, other.head, u);
      if other.head != null {
        if head != null {
          var tmp := other.head.prev;
          other.head.prev := head.prev;
          head.prev.next := other.head;
          head.prev := tmp;
        } else {
          head := other.head;
        }
      }
      nodes := t;
      forall i | 0 <= i < |t| ensures LinksAt(Headed, t, i) {
        if i < |s| {
          assert t[i] == s[i] && s[i].next == s[i].next && s[i].prev == s[i].prev;
        } else {
          var m := i - |s|;
          assert t[i] == u[m] && u[m].next == u[m].next && u[m].prev == u[m].prev;
        }
      }
      MakeLinked(Headed, head, t);
    }

    /** DL_INSERT_INORDER. */
    method InsertInOrder(add: Node, cmp: (Node, Node) -> int)
      requires Valid() && add !in nodes
      modifies this, nodes`next, nodes`prev, add`next, add`prev
      ensures Valid() && nodes == InsertLower(cmp, old(nodes), add)
    {
      hide Linked, LowerBound;
      var elt := LowerBoundElem(Headed, cmp, head, add, nodes);
      AppendElem(elt, add, LowerBound(cmp, nodes, add));
    }

    /** DL_SORT. */
    method Sort(cmp: (Node, Node) -> int) returns (ghost cmps: nat)
      requires Valid()
      modifies this, nodes`next, nodes`prev
      ensures Valid() && nodes == MergeSort.Sort(cmp, old(nodes))
      ensures nodes != [] ==> cmps <= (|nodes| - 1) * Passes(|nodes|, 1)
    {
      hide MergeSort.Sort, Passes, NextLinked;
      cmps := 0;
      if head != null {
        var tail;
        head, tail, cmps := SortLinks(Headed, cmp, head, nodes);
      }
      nodes := MergeSort.Sort(cmp, nodes);
    }
  }

  class CList {
    var head: Node?
    ghost var nodes: seq<Node>

    ghost predicate Valid()
      reads this, nodes`next, nodes`prev
    {
      Linked(Ring, head, nodes)
    }

    constructor ()
      ensures Valid() && nodes == []
    {
      head, nodes := null, [];
    }

    /** The common part of CDL_APPEND and CDL_PREPEND: links add in between the tail and the head. */
    method LinkAtSeam(add: Node)
      requires Valid() && add !in nodes
      modifies nodes`next, nodes`prev, add`next, add`prev
      ensures Linked(Ring, if head == null then add else head, nodes + [add])
      ensures Linked(Ring, add, [add] + nodes)
    {
      hide NextLinked, Distinct;
      ghost var s, t, u := nodes, nodes + [add], [add] + nodes;
      Links(Ring, head, s);
      if head != null {
        add.prev := head.prev;
        add.next := head;
        head.prev := add;
        add.prev.next := add;
      } else {
        add.prev := add;
        add.next := add;
      }
      SeamLinks(s, add);
      AppendDistinct(s, 0, add);
      AppendDistinct(s, |s|, add);
      assert u == InsertAt(s, 0, add) && t == InsertAt(s, |s|, add);
      MakeLinked(Ring, add, u);
      MakeLinked(Ring, if head == null then add else head, t);
    }

    /** CDL_APPEND. */
    method Append(add: Node)
      requires Valid() && add !in nodes
      modifies this, nodes`next, nodes`prev, add`next, add`prev
      ensures Valid() && nodes == old(nodes) + [add]
    {
      hide Linked;
      LinkAtSeam(add);
      if head == null {
        head := add;
      }
      nodes := nodes + [add];
    }

    /** CDL_PREPEND. */
    method Prepend(add: Node)
      requires Valid() && add !in nodes
      modifies this, nodes`next, nodes`prev, add`next, add`prev
      ensures Valid() && nodes == [add] + old(nodes)
    {
      hide Linked;
      LinkAtSeam(add);
      head := add;
      nodes := [add] + nodes;
    }

    /** CDL_APPEND_ELEM: links add in behind el, the node at position k - 1, or before the head. */
    method AppendElem(el: Node?, add: Node, ghost k: nat)
      requires Valid() && add !in nodes && k <= |nodes| && el == At(nodes, k - 1)
      modifies this, nodes`next, nodes`prev, add`next, add`prev
      ensures Valid() && nodes == InsertAt(old(nodes), k, add)
    {
      if el != null {
        AppendBehind(el, add, k);
      } else {
        Prepend(add);
      }
    }

    method AppendBehind(el: Node, add: Node, ghost k: nat)
      requires Valid() && add !in nodes && 0 < k <= |nodes| && el == nodes[k - 1]
      modifies this, nodes`next, nodes`prev, add`next, add`prev
      ensures Valid() && nodes == InsertAt(old(nodes), k, add)
    {
      hide NextLinked, Distinct;
      ghost var s, t := nodes, InsertAt(nodes, k, add);
      Links(Ring, head, s);
      AppendDistinct(s, k, add);
      add.next := el.next;
      add.prev := el;
      el.next := add;
      add.next.prev := add;
      nodes := t;
      InsertedLinks(Ring, s, k, add);
      MakeLinked(Ring, head, t);
    }

    /** CDL_DELETE. */
    method Delete(del: Node, ghost k: nat)
      requires Valid() && k < |nodes| && del == nodes[k]
      modifies this, nodes`next, nodes`prev
      ensures Valid() && nodes == Without(old(nodes), k)
    {
      hide NextLinked, Without;
      ghost var s, t := nodes, Without(nodes, k);
      Links(Ring, head, s);
      if head == del && head.next == head {
        head := null;
        NothingLeft(Ring, s, k);
      } else {
        del.next.prev := del.prev;
        del.prev.next := del.next;
        if del == head {
          head := del.next;
        }
        RedirectedIsLinked(Ring, head, s, k);
      }
      nodes := t;
    }

    /** CDL_REPLACE_ELEM. */
    method ReplaceElem(el: Node, add: Node, ghost k: nat)
      requires Valid() && k < |nodes| && el == nodes[k] && add !in nodes
      modifies this, nodes`next, nodes`prev, add`next, add`prev
      ensures Valid() && nodes == old(nodes)[k := add]
    {
      hide NextLinked;
      ghost var s := nodes;
      Links(Ring, head, s);
      if el.next == el {
        add.next := add;
        add.prev := add;
        head := add;
      } else {
        add.next := el.next;
        add.prev := el.prev;
        add.next.prev := add;
        add.prev.next := add;
        if head == el {
          head := add;
        }
      }
      nodes := s[k := add];
      ReplacedLinks(Ring, head, s, k, add);
    }

    /** CDL_INSERT_INORDER. */
    method InsertInOrder(add: Node, cmp: (Node, Node) -> int)
      requires Valid() && add !in nodes
      modifies this, nodes`next, nodes`prev, add`next, add`prev
      ensures Valid() && nodes == InsertLower(cmp, old(nodes), add)
    {
      hide Linked, LowerBound;
      var elt := LowerBoundElem(Ring, cmp, head, add, nodes);
      AppendElem(elt, add, LowerBound(cmp, nodes, add));
    }

    /** CDL_SORT. */
    method Sort(cmp: (Node, Node) -> int) returns (ghost cmps: nat)
      requires Valid()
      modifies this, nodes`next, nodes`prev
      ensures Valid() && nodes == MergeSort.Sort(cmp, old(nodes))
      ensures nodes != [] ==> cmps <= (|nodes| - 1) * Passes(|nodes|, 1)
    {
      hide MergeSort.Sort, Passes, NextLinked;
      cmps := 0;
      if head != null {
        var tail;
        head, tail, cmps := SortLinks(Ring, cmp, head, nodes);
      }
      nodes := MergeSort.Sort(cmp, nodes);
    }
  }
}
