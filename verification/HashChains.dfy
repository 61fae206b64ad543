/** The bucket chains of uthash.h: pushing, unlinking, and redistributing into twice as many buckets. */
module HashChains {
  import opened Arith
  import opened Nodes
  import opened MergeSort
  import opened Shapes
  import opened HashBuckets

  /** head leads through hhNext to exactly the nodes of c, linked both ways. */
  ghost predicate ChainLinked(head: Node?, c: seq<Node>)
    reads c`hhPrev, c`hhNext
  {
    && head == At(c, 0)
    && (forall i {:trigger c[i].hhNext} :: 0 <= i < |c| ==> c[i].hhNext == At(c, i + 1))
    && (forall i {:trigger c[i].hhPrev} :: 0 <= i < |c| ==> c[i].hhPrev == At(c, i - 1))
  }

  /** The nodes of c hash to bucket b of nb buckets. */
  ghost predicate InBucket(c: seq<Node>, b: nat, nb: nat)
    requires 0 < nb
    reads c`hashv
  {
    forall i {:trigger c[i].hashv} :: 0 <= i < |c| ==> Slot(c[i].hashv, nb) == b
  }

  /** Bucket b of nb buckets holds the chain c. */
  ghost predicate Holds(bk: Bucket, c: seq<Node>, b: nat, nb: nat)
    requires 0 < nb
    reads c`hhPrev, c`hhNext, c`hashv
  {
    Distinct(c) && bk.count == |c| && ChainLinked(bk.hhHead, c) && InBucket(c, b, nb)
  }

  /** The buckets hold the chains, which together have the nodes of dom. */
  ghost predicate ChainsOk(bs: seq<Bucket>, chains: seq<seq<Node>>, dom: set<Node>)
    reads dom`hhPrev, dom`hhNext, dom`hashv
  {
    && 0 < |bs| == |chains|
    && (forall b :: 0 <= b < |chains| ==> Within(chains[b], dom) && Holds(bs[b], chains[b], b, |chains|))
    && Complete(chains, dom)
  }

  /** Every node of dom is in the chain of its bucket. */
  ghost predicate Complete(chains: seq<seq<Node>>, dom: set<Node>)
    requires 0 < |chains|
    reads dom`hashv
  {
    forall n | n in dom :: Slot(n.hashv, |chains|) < |chains| && n in chains[Slot(n.hashv, |chains|)]
  }

  /** Two buckets share no node. */
  lemma ChainsAreDisjoint(bs: seq<Bucket>, chains: seq<seq<Node>>, dom: set<Node>, b: nat, c: nat)
    requires ChainsOk(bs, chains, dom) && b < |chains| && c < |chains| && b != c
    ensures forall i :: 0 <= i < |chains[c]| ==> chains[c][i] !in chains[b]
  {
    assert Holds(bs[b], chains[b], b, |chains|) && Holds(bs[c], chains[c], c, |chains|);
    forall i | 0 <= i < |chains[c]| ensures chains[c][i] !in chains[b] {
      SlotOfMember(chains[c], c, |chains|, chains[c][i]);
      SlotOfMember(chains[b], b, |chains|, chains[c][i]);
    }
  }

  lemma SlotOfMember(c: seq<Node>, b: nat, nb: nat, x: Node)
    requires 0 < nb && InBucket(c, b, nb)
    ensures x in c ==> Slot(x.hashv, nb) == b
  {
    if i :| 0 <= i < |c| && c[i] == x {
      assert c[i].hashv == x.hashv;
    }
  }

  /** Links x in at the front of a chain. */
  method Push(bk: Bucket, x: Node, ghost c: seq<Node>) returns (bk': Bucket)
    requires ChainLinked(bk.hhHead, c) && Distinct(c) && x !in c
    modifies c`hhPrev, x`hhPrev, x`hhNext
    ensures bk' == Grown(bk).(hhHead := x) && ChainLinked(x, [x] + c)
  {
    bk' := bk.(count := bk.count + 1);
    x.hhNext := bk'.hhHead;
    x.hhPrev := null;
    if bk'.hhHead != null {
      bk'.hhHead.hhPrev := x;
    }
    bk' := bk'.(hhHead := x);
    ghost var d := [x] + c;
    forall i | 0 <= i < |d| ensures d[i].hhNext == At(d, i + 1) && d[i].hhPrev == At(d, i - 1) {
      if i > 0 {
        assert d[i] == c[i - 1] && c[i - 1].hhNext == At(c, i);
        if i > 1 { assert c[i - 1].hhPrev == At(c, i - 2); }
      }
    }
  }

  /** Unlinks node i of a chain. */
  method Unlink(bk: Bucket, x: Node, ghost c: seq<Node>, ghost i: nat) returns (bk': Bucket)
    requires ChainLinked(bk.hhHead, c) && Distinct(c) && bk.count == |c| && i < |c| && x == c[i]
    modifies c`hhPrev, c`hhNext
    ensures bk' == Bucket(bk'.hhHead, bk.count - 1, bk.expandMult) && ChainLinked(bk'.hhHead, c[..i] + c[i + 1..])
  {
    bk' := bk.(count := bk.count - 1);
    if bk'.hhHead == x {
      bk' := bk'.(hhHead := x.hhNext);
    }
    if x.hhPrev != null {
      x.hhPrev.hhNext := x.hhNext;
    }
    if x.hhNext != null {
      x.hhNext.hhPrev := x.hhPrev;
    }
    ghost var d := c[..i] + c[i + 1..];
    forall k | 0 <= k < |d| ensures d[k].hhNext == At(d, k + 1) && d[k].hhPrev == At(d, k - 1) {
      var m := if k < i then k else k + 1;
      assert d[k] == c[m];
      assert m + 1 != i ==> c[m].hhNext == At(c, m + 1);
      assert m - 1 != i ==> c[m].hhPrev == At(c, m - 1);
    }
  }

  /** All buckets but b hold their chains, whose nodes are in rest. */
  ghost predicate OthersHold(bs: seq<Bucket>, chains: seq<seq<Node>>, b: nat, rest: set<Node>)
    reads rest`hhPrev, rest`hhNext, rest`hashv
  {
    && 0 < |bs| == |chains|
    && forall k :: 0 <= k < |chains| && k != b ==> Within(chains[k], rest) && Holds(bs[k], chains[k], k, |chains|)
  }

  /** The other buckets do not depend on the nodes of bucket b. */
  lemma OthersAreApart(bs: seq<Bucket>, chains: seq<seq<Node>>, dom: set<Node>, b: nat)
    requires ChainsOk(bs, chains, dom) && b < |chains|
    ensures OthersHold(bs, chains, b, dom - Elements(chains[b]))
    ensures Holds(bs[b], chains[b], b, |chains|) && Distinct(chains[b]) && Within(chains[b], dom)
    ensures |bs| == |chains| && Complete(chains, dom)
  {
    forall k | 0 <= k < |chains| && k != b ensures Within(chains[k], dom - Elements(chains[b])) {
      ChainsAreDisjoint(bs, chains, dom, b, k);
    }
  }

  /** Exchanging one bucket and its chain. */
  lemma ReplaceChain(bs: seq<Bucket>, chains: seq<seq<Node>>, b: nat, v: Bucket, d: seq<Node>,
                     dom: set<Node>, dom': set<Node>)
    requires b < |bs| == |chains| && Complete(chains, dom)
    requires OthersHold(bs, chains, b, dom - Elements(chains[b]))
    requires Within(d, dom') && Holds(v, d, b, |chains|)
    requires dom - Elements(chains[b]) <= dom' <= dom - Elements(chains[b]) + Elements(d)
    ensures ChainsOk(bs[b := v], chains[b := d], dom')
  {
    forall n | n in dom'
      ensures var k := Slot(n.hashv, |chains|); k < |chains| && n in chains[b := d][k]
    {
      SlotOfMember(d, b, |chains|, n);
    }
  }

  /** HASH_ADD_TO_BKT, up to the decision whether to expand. */
  method AddToBucket(buckets: array<Bucket>, b: nat, x: Node, ghost chains: seq<seq<Node>>, ghost dom: set<Node>)
    requires ChainsOk(buckets[..], chains, dom) && x !in dom
    requires b < buckets.Length && Slot(x.hashv, buckets.Length) == b
    modifies buckets, dom`hhPrev, x`hhPrev, x`hhNext
    ensures buckets[..] == old(buckets[..])[b := Grown(old(buckets[b])).(hhHead := x)]
    ensures ChainsOk(buckets[..], chains[b := [x] + chains[b]], dom + {x})
  {
    hide Holds, OthersHold, Complete, Slot;
    ghost var bs, c := buckets[..], chains[b];
    OthersAreApart(bs, chains, dom, b);
    PushInSlot(buckets, b, x, c);
    assert Elements([x] + c) == {x} + Elements(c);
    WithinElements([x] + c);
    ReplaceChain(bs, chains, b, buckets[b], [x] + c, dom, dom + {x});
  }

  method PushInSlot(buckets: array<Bucket>, b: nat, x: Node, ghost c: seq<Node>)
    requires b < buckets.Length && Holds(buckets[b], c, b, buckets.Length)
    requires x !in c && Slot(x.hashv, buckets.Length) == b
    modifies buckets, c`hhPrev, x`hhPrev, x`hhNext
    ensures buckets[..] == old(buckets[..])[b := Grown(old(buckets[b])).(hhHead := x)]
    ensures Holds(buckets[b], [x] + c, b, buckets.Length)
  {
    ghost var bs := buckets[..];
    buckets[b] := Push(buckets[b], x, c);
    assert buckets[..] == bs[b := buckets[b]];
  }

  method UnlinkInSlot(buckets: array<Bucket>, b: nat, x: Node, ghost c: seq<Node>, ghost i: nat)
    requires b < buckets.Length && Holds(buckets[b], c, b, buckets.Length) && i < |c| && x == c[i]
    modifies buckets, c`hhPrev, c`hhNext
    ensures old(buckets[b]).count > 0
    ensures buckets[..] == old(buckets[..])[b := Bucket(buckets[b].hhHead, old(buckets[b]).count - 1, old(buckets[b]).expandMult)]
    ensures Holds(buckets[b], Without(c, i), b, buckets.Length)
  {
    ghost var bs := buckets[..];
    buckets[b] := Unlink(buckets[b], x, c, i);
    assert buckets[..] == bs[b := buckets[b]];
    WithoutInBucket(c, i, b, buckets.Length);
    WithoutDistinct(c, i, Elements(c));
  }

  /** HASH_DEL_IN_BKT. */
  method DelInBucket(buckets: array<Bucket>, b: nat, x: Node, ghost chains: seq<seq<Node>>, ghost dom: set<Node>,
                     ghost i: nat)
    requires ChainsOk(buckets[..], chains, dom)
    requires b < |chains| && i < |chains[b]| && chains[b][i] == x
    modifies buckets, dom`hhPrev, dom`hhNext
    ensures ChainsOk(buckets[..], chains[b := Without(chains[b], i)], dom - {x})
    ensures old(buckets[b]).count > 0
    ensures buckets[..] == old(buckets[..])[b := Bucket(buckets[b].hhHead, old(buckets[b]).count - 1, old(buckets[b]).expandMult)]
  {
    hide Holds, OthersHold, Complete, Slot, Distinct, Without;
    ghost var bs, c := buckets[..], chains[b];
    OthersAreApart(bs, chains, dom, b);
    WithoutDistinct(c, i, dom);
    UnlinkInSlot(buckets, b, x, c, i);
    ReplaceChain(bs, chains, b, buckets[b], Without(c, i), dom, dom - {x});
  }

  lemma WithoutInBucket(c: seq<Node>, i: nat, b: nat, nb: nat)
    requires 0 < nb && i < |c| && InBucket(c, b, nb)
    ensures InBucket(Without(c, i), b, nb)
  {
    var d := Without(c, i);
    forall k | 0 <= k < |d| ensures Slot(d[k].hashv, nb) == b {
      assert d[k].hashv == c[if k < i then k else k + 1].hashv;
    }
  }

  // ----- expansion ---------------------------------------------------------------

  /** The statistics of the new buckets so far: n items, multipliers and excess as prescribed. */
  ghost predicate StatsOk(bs: seq<Bucket>, ideal: nat, n: nat, nonideal: nat)
  {
    && 0 < ideal
    && (forall b :: 0 <= b < |bs| ==> bs[b].expandMult == MultOf(bs[b].count, ideal))
    && Sum(Count, bs) == n && Sum(Excess(ideal), bs) == nonideal
  }

  lemma StatsStep(bs: seq<Bucket>, ideal: nat, n: nat, nonideal: nat, b: nat, head: Node?)
    requires 0 < ideal && StatsOk(bs, ideal, n, nonideal) && b < |bs|
    ensures var c := bs[b].count + 1;
            StatsOk(bs[b := Bucket(head, c, MultOf(c, ideal))], ideal, n + 1, nonideal + if c > ideal then 1 else 0)
    ensures bs[b].expandMult == MultOf(bs[b].count, ideal)
  {
    var v := Bucket(head, bs[b].count + 1, MultOf(bs[b].count + 1, ideal));
    SumUpdate(Count, bs, b, v);
    SumUpdate(Excess(ideal), bs, b, v);
  }

  lemma {:induction false} EmptyStats(bs: seq<Bucket>, ideal: nat)
    requires 0 < ideal && forall b :: 0 <= b < |bs| ==> bs[b] == Bucket(null, 0, 0)
    ensures StatsOk(bs, ideal, 0, 0)
  {
    if bs != [] { EmptyStats(bs[1..], ideal); }
  }

  lemma MultIsIrrelevant(bs: seq<Bucket>, chains: seq<seq<Node>>, dom: set<Node>, b: nat, mult: nat)
    requires ChainsOk(bs, chains, dom) && b < |bs|
    ensures ChainsOk(bs[b := bs[b].(expandMult := mult)], chains, dom)
  {
  }

  /** After an item was counted into bucket b: notes the excess over the ideal chain length. */
  method NoteExcess(buckets: array<Bucket>, b: nat, ideal: nat, nonideal0: nat,
                    ghost chains: seq<seq<Node>>, ghost dom: set<Node>)
    returns (nonideal: nat)
    requires b < buckets.Length && 0 < ideal && ChainsOk(buckets[..], chains, dom)
    modifies buckets
    ensures var was := old(buckets[b]);
            buckets[..] == old(buckets[..])[b := was.(expandMult :=
              if was.count > ideal then Quotient(was.count, ideal) else was.expandMult)]
    ensures nonideal == nonideal0 + if old(buckets[b]).count > ideal then 1 else 0
    ensures ChainsOk(buckets[..], chains, dom)
  {
    hide ChainsOk, Quotient;
    ghost var bs := buckets[..];
    nonideal := nonideal0;
    if buckets[b].count > ideal {
      nonideal := nonideal + 1;
      buckets[b] := buckets[b].(expandMult := Quotient(buckets[b].count, ideal));
      assert buckets[..] == bs[b := buckets[b]];
      MultIsIrrelevant(bs, chains, dom, b, buckets[b].expandMult);
    } else {
      assert buckets[..] == bs[b := bs[b]];
    }
  }

  /** Moves x to its new bucket. */
  method Rehash(buckets: array<Bucket>, x: Node, ideal: nat, nonideal0: nat,
                ghost chains: seq<seq<Node>>, ghost done: set<Node>, ghost n: nat)
    returns (nonideal: nat, ghost chains': seq<seq<Node>>)
    requires ChainsOk(buckets[..], chains, done) && x !in done
    requires Slot(x.hashv, buckets.Length) < buckets.Length
    requires 0 < ideal && StatsOk(buckets[..], ideal, n, nonideal0)
    modifies buckets, done`hhPrev, x`hhPrev, x`hhNext
    ensures ChainsOk(buckets[..], chains', done + {x})
    ensures StatsOk(buckets[..], ideal, n + 1, nonideal)
  {
    hide StatsOk, Slot, Quotient, Holds, Complete;
    ghost var bs := buckets[..];
    var b := Slot(x.hashv, buckets.Length);
    chains' := chains[b := [x] + chains[b]];
    AddToBucket(buckets, b, x, chains, done);
    nonideal := NoteExcess(buckets, b, ideal, nonideal0, chains', done + {x});
    StatsStep(bs, ideal, n, nonideal0, b, x);
    assert buckets[..] == bs[b := Bucket(x, bs[b].count + 1, MultOf(bs[b].count + 1, ideal))];
  }

  /** From bucket b on, the old buckets still hold their chains, whose nodes are in left. */
  ghost predicate RestHolds(bs: seq<Bucket>, chains: seq<seq<Node>>, b: nat, left: set<Node>)
    reads left`hhPrev, left`hhNext, left`hashv
  {
    && 0 < |bs| == |chains|
    && forall k :: b <= k < |chains| ==> Within(chains[k], left) && Holds(bs[k], chains[k], k, |chains|)
  }

  /** Node i and those behind it are still linked as in chain c. */
  ghost predicate TailLinked(x: Node?, c: seq<Node>, i: nat)
    reads c`hhNext
  {
    && i <= |c| && x == At(c, i)
    && forall k {:trigger c[k].hhNext} :: i <= k < |c| ==> c[k].hhNext == At(c, k + 1)
  }

  /** Empties old bucket b into the new buckets. */
  method MoveChain(newBuckets: array<Bucket>, head: Node?, ideal: nat, nonideal0: nat, ghost c: seq<Node>,
                   ghost chains0: seq<seq<Node>>, ghost done0: set<Node>, ghost n0: nat)
    returns (nonideal: nat, ghost chains': seq<seq<Node>>)
    requires Distinct(c) && TailLinked(head, c, 0) && forall i :: 0 <= i < |c| ==> c[i] !in done0
    requires ChainsOk(newBuckets[..], chains0, done0)
    requires forall x | x in c :: Slot(x.hashv, newBuckets.Length) < newBuckets.Length
    requires 0 < ideal && StatsOk(newBuckets[..], ideal, n0, nonideal0)
    modifies newBuckets, done0`hhPrev, c`hhPrev, c`hhNext
    ensures ChainsOk(newBuckets[..], chains', done0 + Elements(c))
    ensures StatsOk(newBuckets[..], ideal, n0 + |c|, nonideal)
  {
    hide ChainsOk, StatsOk, Slot;
    var thh := head;
    nonideal, chains' := nonideal0, chains0;
    ghost var i, done := 0, done0;
    while thh != null
      invariant i <= |c| && TailLinked(thh, c, i)
      invariant done == done0 + Elements(c[..i])
      invariant ChainsOk(newBuckets[..], chains', done)
      invariant StatsOk(newBuckets[..], ideal, n0 + i, nonideal)
      decreases |c| - i
    {
      var nxt := thh.hhNext;
      TakeOne(c, i, done0);
      nonideal, chains' := Rehash(newBuckets, thh, ideal, nonideal, chains', done, n0 + i);
      done := done + {thh};
      thh, i := nxt, i + 1;
    }
    assert c[..i] == c;
  }

  lemma TakeOne(c: seq<Node>, i: nat, done0: set<Node>)
    requires i < |c| && Distinct(c) && forall k :: 0 <= k < |c| ==> c[k] !in done0
    ensures Elements(c[..i + 1]) == Elements(c[..i]) + {c[i]}
    ensures forall k :: i <= k < |c| ==> c[k] !in done0 + Elements(c[..i])
    ensures forall k :: i < k < |c| ==> c[k] != c[i]
  {
    assert c[..i + 1] == c[..i] + [c[i]];
  }

  /** The nodes of the first b buckets. */
  ghost function Below(dom: set<Node>, nb: nat, b: nat): (nodes: set<Node>)
    requires 0 < nb
    reads dom`hashv
  {
    set n | n in dom && Slot(n.hashv, nb) < b
  }

  lemma NextChain(bs: seq<Bucket>, chains: seq<seq<Node>>, b: nat, dom: set<Node>, done: set<Node>)
    requires RestHolds(bs, chains, b, dom - done) && b < |chains|
    requires Complete(chains, dom) && done == Below(dom, |chains|, b)
    ensures Distinct(chains[b]) && Within(chains[b], dom) && TailLinked(bs[b].hhHead, chains[b], 0)
    ensures bs[b].count == |chains[b]|
    ensures forall i :: 0 <= i < |chains[b]| ==> chains[b][i] !in done
    ensures Below(dom, |chains|, b + 1) == done + Elements(chains[b])
    ensures RestHolds(bs, chains, b + 1, dom - (done + Elements(chains[b])))
  {
    var c, nb := chains[b], |chains|;
    assert Holds(bs[b], c, b, nb) && Within(c, dom - done);
    forall n | n in dom ensures n in Elements(c) <==> Slot(n.hashv, nb) == b {
      SlotOfMember(c, b, nb, n);
    }
    forall k | b + 1 <= k < nb ensures Within(chains[k], dom - (done + Elements(c))) {
      assert Within(chains[k], dom - done) && Holds(bs[k], chains[k], k, nb);
      forall i | 0 <= i < |chains[k]| ensures chains[k][i] !in Elements(c) {
        SlotOfMember(chains[k], k, nb, chains[k][i]);
        SlotOfMember(c, b, nb, chains[k][i]);
      }
    }
  }

  lemma {:induction false} SumOfPrefix(bs: seq<Bucket>, b: nat)
    requires b < |bs|
    ensures Sum(Count, bs[..b + 1]) == Sum(Count, bs[..b]) + bs[b].count
  {
    if b == 0 {
      assert bs[..1] == [bs[0]];
    } else {
      assert bs[..b + 1][1..] == bs[1..][..b] && bs[..b][1..] == bs[1..][..b - 1];
      SumOfPrefix(bs[1..], b - 1);
    }
  }

  lemma SlotsInRange(k: nat)
    ensures forall h: nat :: Slot(h, Pow2(k)) < Pow2(k)
  {
    forall h: nat ensures Slot(h, Pow2(k)) < Pow2(k) {
      SlotIsMod(h, k);
    }
  }

  lemma NoChains(bs: seq<Bucket>, ideal: nat) returns (chains: seq<seq<Node>>)
    requires 0 < |bs| && 0 < ideal && forall b :: 0 <= b < |bs| ==> bs[b] == Bucket(null, 0, 0)
    ensures ChainsOk(bs, chains, {}) && StatsOk(bs, ideal, 0, 0)
  {
    chains := seq(|bs|, _ => []);
    EmptyStats(bs, ideal);
  }

  lemma StartOfExpansion(bs: seq<Bucket>, chains: seq<seq<Node>>, dom: set<Node>)
    requires ChainsOk(bs, chains, dom)
    ensures 0 < |bs| == |chains|
    ensures RestHolds(bs, chains, 0, dom - {}) && Complete(chains, dom) && Below(dom, |chains|, 0) == {}
  {
    assert dom - {} == dom;
  }

  lemma EndOfExpansion(chains: seq<seq<Node>>, dom: set<Node>)
    requires 0 < |chains| && Complete(chains, dom)
    ensures Below(dom, |chains|, |chains|) == dom
  {
  }

  /** The nodes of each chain are in dom and hash to its bucket. */
  ghost predicate Slotted(chains: seq<seq<Node>>, dom: set<Node>)
    reads dom`hashv
  {
    0 < |chains| && forall b :: 0 <= b < |chains| ==> Within(chains[b], dom) && InBucket(chains[b], b, |chains|)
  }

  lemma ChainsAreSlotted(bs: seq<Bucket>, chains: seq<seq<Node>>, dom: set<Node>)
    requires ChainsOk(bs, chains, dom)
    ensures Slotted(chains, dom)
  {
    forall b | 0 <= b < |chains| ensures Within(chains[b], dom) && InBucket(chains[b], b, |chains|) {
      assert Holds(bs[b], chains[b], b, |chains|);
    }
  }

  /** A node of old bucket b is in new bucket b or in new bucket b plus the number of old buckets. */
  ghost predicate SplitInto(chains: seq<seq<Node>>, chains': seq<seq<Node>>)
  {
    && |chains'| == 2 * |chains|
    && forall b, i :: 0 <= b < |chains| && 0 <= i < |chains[b]| ==>
         chains[b][i] in chains'[b] || chains[b][i] in chains'[b + |chains|]
  }

  lemma ExpansionSplits(chains: seq<seq<Node>>, bs': seq<Bucket>, chains': seq<seq<Node>>, dom: set<Node>, k: nat)
    requires Slotted(chains, dom) && |chains| == Pow2(k)
    requires ChainsOk(bs', chains', dom) && |bs'| == 2 * |chains|
    ensures SplitInto(chains, chains')
  {
    hide Slot, Holds;
    forall b, i | 0 <= b < |chains| && 0 <= i < |chains[b]|
      ensures chains[b][i] in chains'[b] || chains[b][i] in chains'[b + |chains|]
    {
      var x := chains[b][i];
      assert Within(chains[b], dom) && chains[b][i].hashv == x.hashv;
      SlotDoubles(x.hashv, k);
    }
  }

  /** HASH_EXPAND_BUCKETS: redistributes all items into twice as many buckets. */
  method Redistribute(buckets: array<Bucket>, ideal: nat, ghost chains: seq<seq<Node>>, ghost dom: set<Node>, ghost k: nat)
    returns (newBuckets: array<Bucket>, nonideal: nat, ghost chains': seq<seq<Node>>)
    requires ChainsOk(buckets[..], chains, dom) && buckets.Length == Pow2(k) && 0 < ideal
    modifies dom`hhPrev, dom`hhNext
    ensures fresh(newBuckets) && newBuckets.Length == 2 * buckets.Length
    ensures ChainsOk(newBuckets[..], chains', dom) && SplitInto(chains, chains')
    ensures StatsOk(newBuckets[..], ideal, Sum(Count, buckets[..]), nonideal)
  {
    hide ChainsOk, StatsOk, Complete, RestHolds, Below, Slot, Sum, TailLinked, Distinct, Slotted, SplitInto;
    var n := buckets.Length;
    newBuckets := new Bucket[2 * n](_ => Bucket(null, 0, 0));
    nonideal := 0;
    ghost var bs, done := buckets[..], {};
    StartOfExpansion(bs, chains, dom);
    ChainsAreSlotted(bs, chains, dom);
    SlotsInRange(k + 1);
    assert Pow2(k + 1) == 2 * n;
    chains' := NoChains(newBuckets[..], ideal);
    EmptySum(bs);
    var i := 0;
    while i < n
      invariant 0 <= i <= n && bs == buckets[..]
      invariant done == Below(dom, |chains|, i) && RestHolds(bs, chains, i, dom - done) && done <= dom
      invariant Complete(chains, dom) && Slotted(chains, dom)
      invariant ChainsOk(newBuckets[..], chains', done)
      invariant StatsOk(newBuckets[..], ideal, Sum(Count, bs[..i]), nonideal)
    {
      NextChain(bs, chains, i, dom, done);
      SumOfPrefix(bs, i);
      nonideal, chains' := MoveChain(newBuckets, buckets[i].hhHead, ideal, nonideal, chains[i], chains', done, Sum(Count, bs[..i]));
      done := done + Elements(chains[i]);
      i := i + 1;
    }
    EndOfExpansion(chains, dom);
    ExpansionSplits(chains, newBuckets[..], chains', dom, k);
    assert bs[..n] == bs;
  }

  lemma EmptySum(bs: seq<Bucket>)
    ensures Sum(Count, bs[..0]) == 0
  {
  }
}
