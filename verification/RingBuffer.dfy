/** The ring buffer of utringbuffer.h. A pointer to an element is modelled by the number of its slot. */
module RingBuffers {
  import opened Options
  import opened Arith

  /** The last n elements of s, or all of them if there are fewer. */
  function LastOf<T>(s: seq<T>, n: nat): (r: seq<T>)
  {
    if |s| <= n then s else s[|s| - n..]
  }

  lemma LastOfMore<T>(s: seq<T>, x: T, n: nat)
    requires 0 < n
    ensures LastOf(LastOf(s, n) + [x], n) == LastOf(s + [x], n)
  {
  }

  function Ring<T>(d: seq<T>, i: nat, f: bool): (s: seq<T>)
    requires i <= |d|
  {
    if f then d[i..] + d[..i] else d[..i]
  }

  /** Writing to slot i and advancing i, with the wrap at the end, appends an element and drops the
      oldest one from a full ring. */
  lemma RingPush<T>(d: seq<T>, i: nat, f: bool, p: T)
    requires i < |d|
    ensures f ==> Ring(d, i, f)[0] == d[i] && |Ring(d, i, f)| == |d|
    ensures Ring(d[i := p], if i + 1 == |d| then 0 else i + 1, f || i + 1 == |d|) == LastOf(Ring(d, i, f) + [p], |d|)
    ensures LastOf(Ring(d, i, f) + [p], |d|) == if f then Ring(d, i, f)[1..] + [p] else Ring(d, i, f) + [p]
  {
    var d' := d[i := p];
    assert d'[..i + 1] == d[..i] + [p] && d'[i + 1..] == d[i + 1..];
    if f {
      assert Ring(d, i, f)[1..] == d[i + 1..] + d[..i];
      assert (d[i + 1..] + d[..i]) + [p] == d'[i + 1..] + d'[..i + 1];
    }
  }

  /** What leaves a full ring when an element is appended is what is destroyed. */
  lemma Conserved<T>(pushed: seq<T>, destroyed: seq<T>, was: seq<T>, full: bool, p: T, n: nat)
    requires pushed == destroyed + was && 0 < n && (if full then |was| == n else |was| < n)
    ensures pushed + [p] == (destroyed + if full then was[..1] else []) + LastOf(was + [p], n)
    ensures full ==> was[..1] == [was[0]]
  {
    if full {
      assert was == was[..1] + was[1..];
      assert LastOf(was + [p], n) == was[1..] + [p];
    }
  }

  class RingBuffer<T(0)> {
    var i: nat
    const n: nat
    var f: bool
    const d: array<T>
    ghost var pushed: seq<T>    // everything that was pushed
    ghost var recent: seq<T>    // what was pushed since the last clear
    var destroyed: seq<T>       // the elements the destructor was called for, in this order

    ghost predicate Shaped()
      reads this, d
    {
      d.Length == n && if n == 0 then i == 0 && !f else i < n
    }

    /** The buffer holds the last n elements pushed since it was cleared, and every element pushed is
        either in the buffer or was destroyed, once and in order. */
    ghost predicate Valid()
      reads this, d
    {
      Shaped() && Contents() == LastOf(recent, n) && pushed == destroyed + Contents()
    }

    /** The elements, oldest first. */
    ghost function Contents(): (s: seq<T>)
      requires d.Length == n && i <= n
      reads this, d
      ensures |s| == if f then n else i
    {
      Ring(d[..], i, f)
    }

    /** utringbuffer_init. */
    constructor (n: nat)
      ensures Valid() && this.n == n && Contents() == [] && destroyed == [] && fresh(d)
    {
      i, this.n, f := 0, n, false;
      d := new T[n];
      pushed, recent, destroyed := [], [], [];
    }

    function Len(): (len: nat)
      reads this
    {
      if f then n else i
    }

    // ----- slots and positions -------------------------------------------------------

    /** _utringbuffer_real_idx: the slot of the element at position j. */
    function RealIdx(j: nat): (slot: nat)
      requires f ==> 0 < n
      reads this
    {
      if f then (j + i) % n else j
    }

    /** _utringbuffer_fake_idx: the position of the element in a slot. */
    function FakeIdx(slot: nat): (j: nat)
      requires f ==> i < n
      reads this
    {
      if f then (slot + n - i) % n else slot
    }

    /** utringbuffer_eltptr. */
    function EltPtr(j: int): (e: Option<nat>)
      requires f ==> 0 < n
      reads this
    {
      if 0 <= j < Len() then Some(RealIdx(j)) else None
    }

    lemma SlotOf(j: nat)
      requires Shaped() && j < Len()
      ensures RealIdx(j) == (if !f || j + i < n then (if f then j + i else j) else j + i - n) < n
      ensures d[RealIdx(j)] == Contents()[j]
      ensures FakeIdx(RealIdx(j)) == j
    {
      if f {
        if j + i < n {
          DivModUnique(j + i, n, 0, j + i);
          DivModUnique(j + i + n - i, n, 1, j);
        } else {
          DivModUnique(j + i, n, 1, j + i - n);
          DivModUnique(j + i - n + n - i, n, 0, j);
        }
      }
    }

    /** eltptr and eltidx are inverse to each other, across the wrap-around: position j is the slot that
        holds element j, and every slot in use is that of exactly one position. */
    lemma PointersAndPositions(j: nat, slot: nat)
      requires Shaped()
      ensures j < Len() ==> RealIdx(j) < n && d[RealIdx(j)] == Contents()[j] && FakeIdx(RealIdx(j)) == j
      ensures slot < Len() ==> FakeIdx(slot) < Len() && RealIdx(FakeIdx(slot)) == slot
    {
      if j < Len() {
        SlotOf(j);
      }
      if slot < Len() && f {
        if slot < i {
          DivModUnique(slot + n - i, n, 0, slot + n - i);
        } else {
          DivModUnique(slot + n - i, n, 1, slot - i);
        }
        SlotOf(FakeIdx(slot));
      }
    }

    // ----- traversal -------------------------------------------------------------------

    function Front(): (e: Option<nat>)
      requires f ==> 0 < n
      reads this
    {
      EltPtr(0)
    }

    function Back(): (e: Option<nat>)
      requires f ==> 0 < n
      reads this
    {
      if i == 0 && !f then None else EltPtr(Len() - 1)
    }

    function Next(e: Option<nat>): (e': Option<nat>)
      requires f ==> i < n
      reads this
    {
      if e.None? then Front() else EltPtr(FakeIdx(e.value) + 1)
    }

    function Prev(e: Option<nat>): (e': Option<nat>)
      requires f ==> i < n
      reads this
    {
      if e.None? then Back() else EltPtr(FakeIdx(e.value) - 1)
    }

    /** Where k calls of next lead from the null pointer. */
    function Forward(k: nat): (e: Option<nat>)
      requires f ==> i < n
      reads this
    {
      if k == 0 then None else Next(Forward(k - 1))
    }

    function Backward(k: nat): (e: Option<nat>)
      requires f ==> i < n
      reads this
    {
      if k == 0 then None else Prev(Backward(k - 1))
    }

    /** next and prev lead from a position to its neighbours, and to null from either end. */
    lemma Neighbours(j: nat)
      requires Shaped() && j < Len()
      ensures EltPtr(j).Some?
      ensures Next(EltPtr(j)) == EltPtr(j + 1) && Prev(EltPtr(j)) == EltPtr(j - 1)
    {
      hide RealIdx, FakeIdx;
      SlotOf(j);
    }

    lemma {:induction false} TraversalAt(k: nat)
      requires Shaped() && 0 < k <= Len() + 1
      ensures Forward(k) == EltPtr(k - 1) && Backward(k) == EltPtr(Len() - k)
      decreases k
    {
      hide RealIdx, FakeIdx;
      if k == 1 {
        assert Forward(0) == None && Backward(0) == None;
      } else {
        TraversalAt(k - 1);
        Neighbours(k - 2);
        Neighbours(Len() - (k - 1));
      }
    }

    /** Calling next, from null, visits the elements oldest first, calling prev newest first; either ends
        in null after the last of them. */
    lemma Traversal(k: nat)
      requires Shaped() && 0 < k <= Len() + 1
      ensures k <= Len() ==>
                && Forward(k).Some? && Forward(k).value < n && d[Forward(k).value] == Contents()[k - 1]
                && Backward(k).Some? && Backward(k).value < n && d[Backward(k).value] == Contents()[Len() - k]
      ensures k == Len() + 1 ==> Forward(k).None? && Backward(k).None?
    {
      hide RealIdx, FakeIdx, Forward, Backward, Contents;
      TraversalAt(k);
      if k <= Len() {
        SlotOf(k - 1);
        SlotOf(Len() - k);
      }
    }

    // ----- changes -----------------------------------------------------------------------

    /** utringbuffer_push_back. */
    method PushBack(p: T)
      requires Valid() && 0 < n
      modifies this, d
      ensures Valid() && pushed == old(pushed) + [p] && recent == old(recent) + [p]
      ensures Contents() == LastOf(old(Contents()) + [p], n)
      ensures destroyed == old(destroyed) + if old(f) then old(Contents())[..1] else []
    {
      hide Ring, LastOf;
      ghost var was := Contents();
      RingPush(d[..], i, f, p);
      LastOfMore(recent, p, n);
      Conserved(pushed, destroyed, was, f, p, n);
      pushed, recent := pushed + [p], recent + [p];
      if f {
        destroyed := destroyed + [d[i]];
      }
      d[i] := p;
      i := i + 1;
      if i == n {
        i := 0;
        f := true;
      }
    }

    /** utringbuffer_clear: destroys what is left, oldest first. */
    method Clear()
      requires Valid()
      modifies this
      ensures Valid() && Contents() == []
      ensures destroyed == old(destroyed) + old(Contents()) && pushed == old(pushed) && recent == []
    {
      ghost var was := Contents();
      var k := 0;
      var len := if f then n else i;
      while k < len
        invariant 0 <= k <= len == Len() == |was|
        invariant i == old(i) && f == old(f) && pushed == old(pushed) && Contents() == was
        invariant destroyed == old(destroyed) + was[..k]
      {
        SlotOf(k);
        destroyed := destroyed + [d[RealIdx(k)]];
        k := k + 1;
      }
      i := 0;
      f := false;
      recent := [];
      assert was[..len] == was;
    }
  }
}
