/** The hash table of uthash.h. One set of nodes is threaded through two linked structures, the
    application-order list and the bucket chains; Valid() is the integrity that the header's own
    HASH_FSCK checks, and more. The table is present while the head pointer is not null. */
module HashTables {
  import opened Arith
  import opened Nodes
  import opened MergeSort
  import opened Shapes
  import opened LinkSort
  import opened HashBuckets
  import opened HashChains
  import opened HashOrder
  import Bloom

  /** The Bloom filter has exactly the bits of the hash values added since the table was made. */
  ghost predicate Filtered(bv: seq<bv8>, nbits: nat, added: set<nat>)
  {
    && |bv| == Bloom.ByteLen(nbits)
    && forall i :: 0 <= i < Bloom.BitLen(nbits) ==>
         (Bloom.IsSet(bv, i) <==> exists h | h in added :: Bloom.BitOf(h, nbits) == i)
  }

  /** Every node of dom carries the hash value of its key, which the filter knows. */
  ghost predicate Hashed(dom: set<Node>, hashFcn: string -> nat, added: set<nat>)
    reads dom`hashv
  {
    forall n | n in dom :: n.hashv == hashFcn(n.key) && n.hashv in added
  }

  /** What the expansion counters promise: expansion is inhibited exactly after two ineffective
      doublings in a row, and until then the load is bounded. */
  ghost predicate Bounded(bs: seq<Bucket>, ineffExpands: nat, noexpand: bool)
  {
    && (noexpand <==> ineffExpands > 1)
    && (!noexpand ==> LoadInvariant(bs))
  }

  /** The counters of a table. */
  datatype Counters = Counters(numBuckets: nat, log2NumBuckets: nat, numItems: nat, idealChainMaxlen: nat,
                               nonidealItems: nat, ineffExpands: nat, noexpand: bool)

  /** The counters of a table that has just been made. */
  const NEW_COUNTERS := Counters(INITIAL_NUM_BUCKETS, INITIAL_NUM_BUCKETS_LOG2, 0, 0, 0, 0, false)

  /** An item with this hash value brings its bucket to the threshold, and expansion is not inhibited. */
  ghost predicate Expands(bs: seq<Bucket>, c: Counters, hashv: nat)
    requires 0 < c.numBuckets
  {
    var b := Slot(hashv, c.numBuckets);
    b < |bs| && Full(Grown(bs[b])) && !c.noexpand
  }

  /** What adding x does to the buckets and their counters: an expansion of the table with one more item, or
      else one more item in its bucket and nothing else. */
  ghost predicate Entered(bs: seq<Bucket>, c: Counters, x: Node, hashv: nat, bs': seq<Bucket>, c': Counters)
    requires 0 < c.numBuckets
  {
    var b, counted := Slot(hashv, c.numBuckets), c.(numItems := c.numItems + 1);
    && b < |bs|
    && if Expands(bs, c, hashv) then Expanded(counted, bs', c')
       else c' == counted && bs' == bs[b := Grown(bs[b]).(hhHead := x)]
  }

  /** The buckets are doubled if and only if expansion is not inhibited and the chain that gets the item then
      has ten items for each unit of its multiplier and ten more. */
  ghost predicate DoublesWhenDue(bs: seq<Bucket>, c: Counters, hashv: nat, numBuckets: nat)
    requires 0 < c.numBuckets
  {
    var b := Slot(hashv, c.numBuckets);
    && b < |bs|
    && (numBuckets == 2 * c.numBuckets <==> !c.noexpand && bs[b].count + 1 >= 10 * (bs[b].expandMult + 1))
    && (numBuckets != 2 * c.numBuckets ==> numBuckets == c.numBuckets)
  }

  /** What a deletion does to the buckets: one item less in the bucket of its hash value, and nothing else. */
  ghost predicate Left(bs: seq<Bucket>, hashv: nat, bs': seq<Bucket>)
    requires 0 < |bs|
  {
    var b := Slot(hashv, |bs|);
    && b < |bs| == |bs'| && 0 < bs[b].count
    && bs' == bs[b := Bucket(bs'[b].hhHead, bs[b].count - 1, bs[b].expandMult)]
  }

  class Table {
    const hashFcn: string -> nat
    const bloomNbits: nat
    var head: Node?
    var tail: Node?
    var buckets: array<Bucket>
    var tbl: Counters
    var bloom: array<bv8>
    ghost var order: seq<Node>
    ghost var chains: seq<seq<Node>>
    ghost var added: set<nat>

    constructor (hashFcn: string -> nat, bloomNbits: nat)
      ensures Valid() && order == [] && this.hashFcn == hashFcn && this.bloomNbits == bloomNbits
      ensures fresh(buckets) && fresh(bloom)
    {
      this.hashFcn, this.bloomNbits := hashFcn, bloomNbits;
      head, tail := null, null;
      buckets, bloom := new Bucket[0], new bv8[0];
      order, chains, added := [], [], {};
      tbl := Counters(0, 0, 0, 0, 0, 0, false);
    }

    /** The buckets, their statistics and the filter index the nodes of dom. */
    ghost predicate IndexOk(dom: set<Node>)
      reads this`buckets, this`tbl, this`bloom, this`chains, this`added, buckets, bloom
      reads dom`hhPrev, dom`hhNext, dom`hashv
    {
      && (bloom as object) != buckets
      && ChainsOk(buckets[..], chains, dom)
      && CountersOk(buckets[..], tbl)
      && Hashed(dom, hashFcn, added) && Filtered(bloom[..], bloomNbits, added)
    }

    /** The application order: s, from head to tail. */
    ghost predicate Ordered(s: seq<Node>)
      reads this`head, this`tail, s`prev, s`next
    {
      s != [] && Linked(Plain, head, s) && tail == s[|s| - 1]
    }

    ghost predicate Valid()
      reads this, buckets, bloom, order`prev, order`next, order`hhPrev, order`hhNext, order`hashv
    {
      if head == null then order == []
      else Ordered(order) && tbl.numItems == |order| && IndexOk(Elements(order))
    }

    /** HASH_MAKE_TABLE: an empty index. */
    method MakeTable()
      modifies this
      ensures head == old(head) && order == old(order)
      ensures IndexOk({}) && tail == head && fresh(buckets) && fresh(bloom)
      ensures tbl == Counters(32, 5, 0, 0, 0, 0, false) && buckets.Length == 32 && added == {}
      ensures forall b :: 0 <= b < buckets.Length ==> buckets[b] == Bucket(null, 0, 0)
    {
      hide ChainsOk, Filtered, CountersOk, NoNodes;
      var bs := new Bucket[INITIAL_NUM_BUCKETS](_ => Bucket(null, 0, 0));
      var bv := new bv8[Bloom.ByteLen(bloomNbits)](_ => 0);
      EmptyIndex(bs[..], bv[..], bloomNbits);
      tail := head;
      tbl := NEW_COUNTERS;
      buckets, bloom := bs, bv;
      chains, added := NoNodes(INITIAL_NUM_BUCKETS), {};
    }

    /** HASH_EXPAND_BUCKETS. */
    method ExpandBuckets(ghost dom: set<Node>)
      requires ChainsOk(buckets[..], chains, dom)
      requires MustExpand(buckets[..], tbl)
      modifies this, dom`hhPrev, dom`hhNext
      ensures head == old(head) && tail == old(tail) && order == old(order)
      ensures bloom == old(bloom) && added == old(added) && tbl.numItems == old(tbl.numItems)
      ensures fresh(buckets) && ChainsOk(buckets[..], chains, dom) && SplitInto(old(chains), chains)
      ensures Expanded(old(tbl), buckets[..], tbl) && LoadInvariant(buckets[..]) && CountersOk(buckets[..], tbl)
    {
      hide ChainsOk, LoadInvariant, CeilShift, Sum, StatsOk, Excess, Shr, CountersOk, Expanded, SplitInto;
      ghost var tbl0 := tbl;
      var ideal := CeilShift(tbl.numItems, tbl.log2NumBuckets + 1);
      var newBuckets, nonideal, ineff;
      newBuckets, nonideal, chains := Redistribute(buckets, ideal, chains, dom, tbl.log2NumBuckets);
      buckets := newBuckets;
      ineff := if nonideal > Shr(tbl.numItems, 1) then tbl.ineffExpands + 1 else 0;
      tbl := tbl.(numBuckets := tbl.numBuckets * 2, log2NumBuckets := tbl.log2NumBuckets + 1,
                  idealChainMaxlen := ideal, nonidealItems := nonideal, ineffExpands := ineff);
      if tbl.ineffExpands > 1 {
        tbl := tbl.(noexpand := true);
      }
      AfterExpansion(buckets[..], tbl0, tbl);
    }

    /** HASH_ADD_TO_BKT: puts the new item into its bucket, and expands when the bucket has reached
        its threshold and expansion is not inhibited. */
    method EnterBucket(add: Node, ghost dom: set<Node>)
      requires ChainsOk(buckets[..], chains, dom) && CountersOk(buckets[..], tbl) && add !in dom
      modifies this, buckets, dom`hhPrev, dom`hhNext, add`hhPrev, add`hhNext
      ensures head == old(head) && tail == old(tail) && order == old(order)
      ensures bloom == old(bloom) && added == old(added) && tbl.numItems == old(tbl.numItems) + 1
      ensures ChainsOk(buckets[..], chains, dom + {add}) && CountersOk(buckets[..], tbl)
      ensures 0 < old(tbl).numBuckets
      ensures Entered(old(buckets[..]), old(tbl), add, add.hashv, buckets[..], tbl)
      ensures DoublesWhenDue(old(buckets[..]), old(tbl), add.hashv, tbl.numBuckets)
      ensures if tbl.numBuckets == old(tbl).numBuckets then buckets == old(buckets) else fresh(buckets)
      ensures var b := Slot(add.hashv, old(tbl).numBuckets);
              b < |old(chains)| &&
              var entered := old(chains)[b := [add] + old(chains)[b]];
              if tbl.numBuckets == old(tbl).numBuckets then chains == entered else SplitInto(entered, chains)
    {
      hide ChainsOk, CountersOk, MustExpand, Expanded, LoadInvariant, Slot, SplitInto;
      ghost var bs, tbl0 := buckets[..], tbl;
      SlotOfAddition(bs, chains, dom, tbl, add.hashv);
      tbl := tbl.(numItems := tbl.numItems + 1);
      var b := Slot(add.hashv, tbl.numBuckets);
      AddToBucket(buckets, b, add, chains, dom);
      chains := chains[b := [add] + chains[b]];
      AfterAddition(bs, tbl0, b, add);
      if Full(buckets[b]) && !tbl.noexpand {
        ExpandBuckets(dom + {add});
      }
      ThresholdOfExpansion(bs, tbl0, add, add.hashv, buckets[..], tbl);
    }

    /** The second half of every addition: puts the item into the index. */
    method Enter(add: Node, ghost dom: set<Node>)
      requires IndexOk(dom) && add !in dom && add.hashv == hashFcn(add.key)
      modifies this, buckets, bloom, dom`hhPrev, dom`hhNext, add`hhPrev, add`hhNext
      ensures head == old(head) && tail == old(tail) && order == old(order)
      ensures IndexOk(dom + {add}) && tbl.numItems == old(tbl.numItems) + 1
      ensures bloom == old(bloom) && added == old(added) + {add.hashv} && 0 < old(tbl).numBuckets
      ensures Entered(old(buckets[..]), old(tbl), add, add.hashv, buckets[..], tbl)
      ensures DoublesWhenDue(old(buckets[..]), old(tbl), add.hashv, tbl.numBuckets)
      ensures if tbl.numBuckets == old(tbl).numBuckets then buckets == old(buckets) else fresh(buckets)
    {
      hide ChainsOk, Filtered, Hashed, CountersOk, Entered, DoublesWhenDue;
      EnterBucket(add, dom);
      HashedMore(dom, add, hashFcn, added);
      EnterFilter(add.hashv);
    }

    /** The index in which an addition finds the table: a new one, when the list was empty. */
    ghost predicate LinkedInto(wasEmpty: bool, buckets0: array<Bucket>, bs: seq<Bucket>, c: Counters)
      reads this`buckets, this`tbl, buckets
    {
      if wasEmpty then
        && tbl == NEW_COUNTERS && buckets.Length == 32
        && forall b :: 0 <= b < buckets.Length ==> buckets[b] == Bucket(null, 0, 0)
      else
        buckets == buckets0 && buckets[..] == bs && tbl == c
    }

    /** What an addition has done to the index: made a table with one item, or added one, into new buckets
        only if it doubled them. */
    ghost predicate Indexed(wasEmpty: bool, buckets0: array<Bucket>, bs: seq<Bucket>, c: Counters, add: Node)
      reads this`buckets, this`tbl, buckets
    {
      var h := hashFcn(add.key);
      if wasEmpty then
        && tbl == Counters(32, 5, 1, 0, 0, 0, false) && buckets.Length == 32
        && forall b :: 0 <= b < 32 ==> buckets[b] == if b == Slot(h, 32) then Bucket(add, 1, 0) else Bucket(null, 0, 0)
      else
        && 0 < c.numBuckets && Entered(bs, c, add, h, buckets[..], tbl)
        && DoublesWhenDue(bs, c, h, tbl.numBuckets)
        && (tbl.numBuckets == c.numBuckets ==> buckets == buckets0)
    }

    /** Makes add the only node of a new list, or appends it to the list. */
    method LinkLast(add: Node)
      requires Valid() && add !in order
      modifies this, order`next, add`next, add`prev
      ensures order == old(order) && head != null && Ordered(order + [add])
      ensures IndexOk(Elements(order)) && tbl.numItems == |order|
      ensures LinkedInto(old(head) == null, old(buckets), old(buckets[..]), old(tbl))
      ensures if old(head) == null then fresh(buckets) && fresh(bloom) && added == {}
              else bloom == old(bloom) && added == old(added)
    {
      hide IndexOk;
      if head == null {
        add.next := null;
        add.prev := null;
        head := add;
        MakeTable();
        assert Elements(order) == {} && order + [add] == [add];
      } else {
        Append(head, tail, add, order);
        tail := add;
      }
    }

    /** HASH_ADD. */
    method Add(add: Node)
      requires Valid() && add !in order
      modifies this, buckets, bloom, order`prev, order`next, order`hhPrev, order`hhNext
      modifies add`prev, add`next, add`hhPrev, add`hhNext, add`hashv
      ensures Valid() && order == old(order) + [add]
      ensures Indexed(old(head) == null, old(buckets), old(buckets[..]), old(tbl), add)
      ensures added == (if old(head) == null then {} else old(added)) + {hashFcn(add.key)}
      ensures buckets == old(buckets) || fresh(buckets)
      ensures bloom == old(bloom) || fresh(bloom)
    {
      hide IndexOk, Ordered;
      ghost var s := order;
      add.hashv := hashFcn(add.key);
      LinkLast(add);
      ghost var bs, c := buckets[..], tbl;
      Enter(add, Elements(s));
      FirstItem(bs, c, add, buckets[..], tbl);
      order := s + [add];
      assert Elements(order) == Elements(s) + {add};
    }

    /** Links add in before the first node greater than it, or at the end. */
    method LinkInOrder(add: Node, cmp: (Node, Node) -> int)
      requires Valid() && add !in order
      modifies this, order`next, order`prev, add`next, add`prev
      ensures order == old(order) && head != null && Ordered(Insert(cmp, order, add))
      ensures IndexOk(Elements(order)) && tbl.numItems == |order|
      ensures LinkedInto(old(head) == null, old(buckets), old(buckets[..]), old(tbl))
      ensures if old(head) == null then fresh(buckets) && fresh(bloom) && added == {}
              else bloom == old(bloom) && added == old(added)
    {
      hide IndexOk, Insert, Linked;
      ghost var t := Insert(cmp, order, add);
      InsertIntoEmpty(cmp, add);
      ElementsOfInsert(cmp, order, add);
      if head == null {
        add.next := null;
        add.prev := null;
        head := add;
        MakeTable();
        OneNode(add);
        assert t == [add];
      } else {
        head, tail := InsertInOrder(cmp, head, tail, add, order);
      }
    }

    /** HASH_ADD_INORDER. */
    method AddInOrder(add: Node, cmp: (Node, Node) -> int)
      requires Valid() && add !in order
      modifies this, buckets, bloom, order`prev, order`next, order`hhPrev, order`hhNext
      modifies add`prev, add`next, add`hhPrev, add`hhNext, add`hashv
      ensures Valid() && order == Insert(cmp, old(order), add)
      ensures Indexed(old(head) == null, old(buckets), old(buckets[..]), old(tbl), add)
      ensures added == (if old(head) == null then {} else old(added)) + {hashFcn(add.key)}
      ensures buckets == old(buckets) || fresh(buckets)
      ensures bloom == old(bloom) || fresh(bloom)
    {
      hide IndexOk, Ordered, Insert;
      ghost var s, t := order, Insert(cmp, order, add);
      ElementsOfInsert(cmp, s, add);
      add.hashv := hashFcn(add.key);
      LinkInOrder(add, cmp);
      ghost var bs, c := buckets[..], tbl;
      Enter(add, Elements(s));
      FirstItem(bs, c, add, buckets[..], tbl);
      order := t;
      assert Elements(order) == Elements(s) + {add};
    }

    /** Takes del out of the index. */
    method Leave(del: Node, ghost dom: set<Node>) returns (ghost i: nat)
      requires IndexOk(dom) && del in dom && 0 < tbl.numItems
      modifies this, buckets, dom`hhPrev, dom`hhNext
      ensures head == old(head) && tail == old(tail) && order == old(order)
      ensures IndexOk(dom - {del}) && tbl == old(tbl).(numItems := old(tbl.numItems) - 1)
      ensures bloom == old(bloom) && buckets == old(buckets) && added == old(added)
      ensures 0 < buckets.Length && Left(old(buckets[..]), del.hashv, buckets[..])
      ensures var b := Slot(del.hashv, buckets.Length);
              && b < |old(chains)| && i < |old(chains)[b]| && old(chains)[b][i] == del
              && chains == old(chains)[b := Without(old(chains)[b], i)]
    {
      hide ChainsOk, Filtered, Hashed, CountersOk, Slot, Without;
      ghost var bs, tbl0 := buckets[..], tbl;
      i := PlaceInChain(bs, chains, dom, tbl, del);
      var b := Slot(del.hashv, tbl.numBuckets);
      DelInBucket(buckets, b, del, chains, dom, i);
      chains := chains[b := Without(chains[b], i)];
      AfterDeletion(bs, tbl, b, buckets[b].hhHead);
      tbl := tbl.(numItems := tbl.numItems - 1);
      HashedLess(dom, del, hashFcn, added);
    }

    /** HASH_DELETE. */
    method Delete(del: Node, ghost k: nat)
      requires Valid() && k < |order| && order[k] == del
      modifies this, buckets, order`prev, order`next, order`hhPrev, order`hhNext
      ensures Valid() && order == Without(old(order), k)
      ensures buckets == old(buckets) && bloom == old(bloom) && added == old(added)
      ensures order != [] ==> tbl == old(tbl).(numItems := |order|)
      ensures order != [] ==> 0 < buckets.Length && Left(old(buckets[..]), del.hashv, buckets[..])
    {
      hide IndexOk, Without, Linked, Left, Slot;
      ghost var s, t := order, Without(order, k);
      OnlyNode(head, s, k);
      if del.prev == null && del.next == null {
        head := null;
      } else {
        head, tail := HashOrder.Remove(head, tail, del, s, k);
        ghost var i := Leave(del, Elements(s));
      }
      order := t;
      assert Elements(order) == Elements(s) - {del};
    }

    /** The filter does not know the hash value. */
    predicate Rejects(hashv: nat)
      reads this`bloom, bloom
    {
      bloom.Length == Bloom.ByteLen(bloomNbits) && !Bloom.Test(bloom[..], bloomNbits, hashv)
    }

    /** HASH_FIND: a node with the key, or null when there is none. While expansion is not inhibited,
        the number of nodes probed is bounded by the threshold of the bucket. */
    method Find(key: string) returns (out: Node?, ghost probes: nat)
      requires Valid()
      ensures out != null ==> out in order && out.key == key
      ensures out == null ==> forall n | n in order :: n.key != key
      ensures head != null && !tbl.noexpand ==>
                (var b := Slot(hashFcn(key), buckets.Length);
                 b < buckets.Length && probes <= (buckets[b].expandMult + 1) * CAPACITY_THRESH)
      ensures head == null || Rejects(hashFcn(key)) ==> probes == 0
    {
      hide ChainsOk, CountersOk, Slot, Linked, Filtered, Hashed;
      out, probes := null, 0;
      if head != null {
        var hashval := hashFcn(key);
        SlotOfAddition(buckets[..], chains, Elements(order), tbl, hashval);
        var bkt := Slot(hashval, tbl.numBuckets);
        FilterLetsThrough(bloom[..], bloomNbits, added, Elements(order), hashFcn, key);
        ProbesBound(buckets[..], chains, Elements(order), tbl, bkt);
        if Bloom.Test(bloom[..], bloomNbits, hashval) {
          out, probes := FindInBucket(buckets[bkt].hhHead, key, hashval, chains[bkt]);
          WhereKeyIs(buckets[..], chains, Elements(order), hashFcn, added, key);
        }
      }
    }

    /** HASH_REPLACE: takes out a node with the same key, if there is one, and adds the new node. */
    method Replace(add: Node)
      returns (replaced: Node?, ghost k: nat, ghost bs: seq<Bucket>)
      requires Valid() && add !in order
      modifies this, buckets, bloom, order`prev, order`next, order`hhPrev, order`hhNext
      modifies add`prev, add`next, add`hhPrev, add`hhNext, add`hashv
      ensures Valid()
      ensures replaced == null ==> order == old(order) + [add] && forall n | n in old(order) :: n.key != add.key
      ensures replaced != null ==> k < |old(order)| && old(order)[k] == replaced && replaced.key == add.key
      ensures replaced != null ==> order == Without(old(order), k) + [add]
      ensures replaced == null ==> Indexed(old(head) == null, old(buckets), old(buckets[..]), old(tbl), add)
      ensures replaced != null ==> Indexed(|old(order)| == 1, old(buckets), bs, old(tbl).(numItems := |old(order)| - 1), add)
      ensures replaced != null && |old(order)| > 1 ==> 0 < old(buckets).Length && Left(old(buckets[..]), replaced.hashv, bs)
      ensures buckets == old(buckets) || fresh(buckets)
      ensures bloom == old(bloom) || fresh(bloom)
    {
      hide IndexOk, Ordered, Slot, Without;
      ghost var probes;
      replaced, probes := Find(add.key);
      k := 0;
      if replaced != null {
        k :| k < |order| && order[k] == replaced;
        MembersOfWithout(order, k);
        Delete(replaced, k);
      }
      bs := buckets[..];
      FirstNode(this);
      Add(add);
    }

    /** HASH_REPLACE_INORDER. */
    method ReplaceInOrder(add: Node, cmp: (Node, Node) -> int)
      returns (replaced: Node?, ghost k: nat, ghost bs: seq<Bucket>)
      requires Valid() && add !in order
      modifies this, buckets, bloom, order`prev, order`next, order`hhPrev, order`hhNext
      modifies add`prev, add`next, add`hhPrev, add`hhNext, add`hashv
      ensures Valid()
      ensures replaced == null ==> order == Insert(cmp, old(order), add) && forall n | n in old(order) :: n.key != add.key
      ensures replaced != null ==> k < |old(order)| && old(order)[k] == replaced && replaced.key == add.key
      ensures replaced != null ==> order == Insert(cmp, Without(old(order), k), add)
      ensures replaced == null ==> Indexed(old(head) == null, old(buckets), old(buckets[..]), old(tbl), add)
      ensures replaced != null ==> Indexed(|old(order)| == 1, old(buckets), bs, old(tbl).(numItems := |old(order)| - 1), add)
      ensures replaced != null && |old(order)| > 1 ==> 0 < old(buckets).Length && Left(old(buckets[..]), replaced.hashv, bs)
      ensures buckets == old(buckets) || fresh(buckets)
      ensures bloom == old(bloom) || fresh(bloom)
    {
      hide IndexOk, Ordered, Slot, Without, Insert;
      ghost var probes;
      replaced, probes := Find(add.key);
      k := 0;
      if replaced != null {
        k :| k < |order| && order[k] == replaced;
        MembersOfWithout(order, k);
        Delete(replaced, k);
      }
      bs := buckets[..];
      FirstNode(this);
      AddInOrder(add, cmp);
    }

    /** HASH_SRT: sorts the application order and touches nothing else. */
    method Sort(cmp: (Node, Node) -> int) returns (ghost cmps: nat)
      requires Valid()
      modifies this`head, this`tail, this`order, order`prev, order`next
      ensures Valid() && order == MergeSort.Sort(cmp, old(order))
      ensures order != [] ==> cmps <= (|order| - 1) * Passes(|order|, 1)
    {
      hide IndexOk, Linked, MergeSort.Sort, Passes, PrevOf;
      cmps := 0;
      ghost var s, t := order, MergeSort.Sort(cmp, order);
      SortKeepsNodes(cmp, s);
      if head != null {
        head, tail, cmps := SortLinks(Plain, cmp, head, order);
      }
      order := t;
      assert Elements(order) == Elements(s);
    }

    /** HASH_CLEAR. */
    method Clear()
      requires Valid()
      modifies this`head, this`order
      ensures Valid() && order == [] && head == null
    {
      head := null;
      order := [];
    }

    /** HASH_COUNT. */
    method CountItems() returns (n: nat)
      requires Valid()
      ensures n == |order|
    {
      n := if head != null then tbl.numItems else 0;
    }

    /** Deletes every node while iterating over them (HASH_ITER fetches the next one in advance). */
    method DeleteAll()
      requires Valid()
      modifies this, buckets, order`prev, order`next, order`hhPrev, order`hhNext
      ensures Valid() && order == [] && head == null
      ensures buckets == old(buckets) && bloom == old(bloom)
    {
      hide IndexOk, Linked;
      ghost var s, i := order, 0;
      var el := head;
      while el != null
        invariant Valid() && i <= |s| && order == s[i..] && el == head
        invariant buckets == old(buckets) && bloom == old(bloom)
        decreases |s| - i
      {
        SecondNode(head, order);
        var tmp := el.next;
        assert Without(order, 0) == s[i + 1..];
        Delete(el, 0);
        i := i + 1;
        FirstNode(this);
        el := tmp;
      }
    }

    /** HASH_BLOOM_ADD. */
    method EnterFilter(hashv: nat)
      requires Filtered(bloom[..], bloomNbits, added)
      modifies this`added, bloom
      ensures Filtered(bloom[..], bloomNbits, added) && added == old(added) + {hashv}
    {
      Bloom.Add(bloom, bloomNbits, hashv);
      added := added + {hashv};
      forall i | 0 <= i < Bloom.BitLen(bloomNbits)
        ensures Bloom.IsSet(bloom[..], i) <==> exists h | h in added :: Bloom.BitOf(h, bloomNbits) == i
      {
        assert hashv in added;
      }
    }
  }

  /** The threshold of HASH_ADD_TO_BKT, in figures. */
  lemma ThresholdOfExpansion(bs: seq<Bucket>, c: Counters, x: Node, hashv: nat, bs': seq<Bucket>, c': Counters)
    requires 0 < c.numBuckets && Entered(bs, c, x, hashv, bs', c')
    ensures DoublesWhenDue(bs, c, hashv, c'.numBuckets)
  {
  }

  /** The first item of a new table does not expand it. */
  lemma FirstItem(bs: seq<Bucket>, c: Counters, x: Node, bs': seq<Bucket>, c': Counters)
    requires 0 < c.numBuckets && Entered(bs, c, x, x.hashv, bs', c')
    ensures c == NEW_COUNTERS && (forall b :: 0 <= b < |bs| ==> bs[b] == Bucket(null, 0, 0)) ==>
              var b := Slot(x.hashv, 32); c' == c.(numItems := 1) && b < |bs| && bs' == bs[b := Bucket(x, 1, 0)]
  {
  }

  lemma OneNode(x: Node)
    requires x.next == null && x.prev == null
    ensures Linked(Plain, x, [x]) && Elements<Node>([]) == {}
  {
  }

  lemma InsertIntoEmpty(cmp: (Node, Node) -> int, x: Node)
    ensures Insert(cmp, [], x) == [x]
  {
  }

  /** HASH_FIND_IN_BKT: walks the chain c from head. */
  method FindInBucket(head: Node?, key: string, hashval: nat, ghost c: seq<Node>)
    returns (out: Node?, ghost probes: nat)
    requires TailLinked(head, c, 0)
    ensures out != null ==> out in c && out.key == key && out.hashv == hashval
    ensures out == null ==> forall i :: 0 <= i < |c| ==> !(c[i].hashv == hashval && c[i].key == key)
    ensures probes <= |c| && if out == null then probes == |c| else 0 < probes && out == c[probes - 1]
    ensures forall i :: 0 <= i < probes - 1 ==> !(c[i].hashv == hashval && c[i].key == key)
  {
    out, probes := head, 0;
    while out != null
      invariant TailLinked(out, c, probes)
      invariant forall i :: 0 <= i < probes ==> !(c[i].hashv == hashval && c[i].key == key)
      decreases |c| - probes
    {
      if out.hashv == hashval && |out.key| == |key| {
        if out.key == key {
          probes := probes + 1;
          break;
        }
      }
      out := out.hhNext;
      probes := probes + 1;
    }
  }

  /** The filter never rejects a key that is present. */
  lemma FilterLetsThrough(bv: seq<bv8>, nbits: nat, added: set<nat>, dom: set<Node>, hashFcn: string -> nat, key: string)
    requires Filtered(bv, nbits, added) && Hashed(dom, hashFcn, added)
    ensures |bv| == Bloom.ByteLen(nbits)
    ensures !Bloom.Test(bv, nbits, hashFcn(key)) ==> forall n | n in dom :: n.key != key
  {
    forall n | n in dom && n.key == key ensures Bloom.Test(bv, nbits, hashFcn(key)) {
      assert n.hashv in added;
    }
  }

  /** The test passes a hash value exactly when one was added that agrees with it in the low bits. */
  lemma FilterIsExact(bv: seq<bv8>, nbits: nat, added: set<nat>, hashv: nat)
    requires Filtered(bv, nbits, added)
    ensures |bv| == Bloom.ByteLen(nbits)
    ensures Bloom.Test(bv, nbits, hashv) <==> exists h | h in added :: h % Pow2(nbits) == hashv % Pow2(nbits)
  {
    var i := Bloom.BitOf(hashv, nbits);
    if h :| h in added && h % Pow2(nbits) == hashv % Pow2(nbits) {
      assert Bloom.BitOf(h, nbits) == i;
    }
  }

  lemma ProbesBound(bs: seq<Bucket>, chains: seq<seq<Node>>, dom: set<Node>, c: Counters, b: nat)
    requires ChainsOk(bs, chains, dom) && CountersOk(bs, c) && b < |bs|
    ensures |chains| == |bs| && TailLinked(bs[b].hhHead, chains[b], 0)
    ensures !c.noexpand ==> |chains[b]| <= (bs[b].expandMult + 1) * CAPACITY_THRESH
  {
    assert Holds(bs[b], chains[b], b, |chains|);
    if !c.noexpand { LoadBound(bs); }
  }

  /** A node with the key can only be in the bucket of the key's hash value. */
  lemma WhereKeyIs(bs: seq<Bucket>, chains: seq<seq<Node>>, dom: set<Node>, hashFcn: string -> nat, added: set<nat>, key: string)
    requires ChainsOk(bs, chains, dom) && Hashed(dom, hashFcn, added)
    requires Slot(hashFcn(key), |bs|) < |bs|
    ensures var c := chains[Slot(hashFcn(key), |bs|)];
            (forall i :: 0 <= i < |c| ==> c[i] in dom) &&
            ((forall i :: 0 <= i < |c| ==> !(c[i].hashv == hashFcn(key) && c[i].key == key)) ==>
             forall n | n in dom :: n.key != key)
  {
  }

  lemma MembersOfWithout(s: seq<Node>, k: nat)
    requires k < |s|
    ensures |Without(s, k)| == |s| - 1
    ensures forall i :: 0 <= i < |s| - 1 ==> Without(s, k)[i] in s
  {
  }

  lemma SortKeepsNodes(cmp: (Node, Node) -> int, s: seq<Node>)
    ensures Elements(MergeSort.Sort(cmp, s)) == Elements(s)
    ensures s == [] ==> MergeSort.Sort(cmp, s) == []
    ensures forall i :: 0 <= i < |s| ==> MergeSort.Sort(cmp, s)[i] in s
  {
    SortFromPermutes(cmp, s, 1);
    SameElements(s, MergeSort.Sort(cmp, s));
    var t := MergeSort.Sort(cmp, s);
    forall i | 0 <= i < |s| ensures t[i] in s {
      assert t[i] in Elements(t);
    }
  }

  lemma SecondNode(head: Node?, s: seq<Node>)
    requires Linked(Plain, head, s) && s != []
    ensures s[0] == head && s[0].next == At(s, 1)
  {
    assert s[0].next == NextOf(s, 0, null);
  }

  lemma FirstNode(t: Table)
    requires t.Valid()
    ensures t.head == At(t.order, 0)
  {
  }

  lemma ElementsOfInsert(cmp: (Node, Node) -> int, s: seq<Node>, x: Node)
    ensures Elements(Insert(cmp, s, x)) == Elements(s) + {x} && |Insert(cmp, s, x)| == |s| + 1
    ensures forall i :: 0 <= i <= |s| ==> Insert(cmp, s, x)[i] == x || Insert(cmp, s, x)[i] in s
  {
    var i := UpperBound(cmp, s, x);
    assert s == s[..i] + s[i..];
  }

  /** A node is alone in the list exactly when both its links are null. */
  lemma OnlyNode(head: Node?, s: seq<Node>, k: nat)
    requires Linked(Plain, head, s) && k < |s|
    ensures s[k].prev == null && s[k].next == null <==> |s| == 1
    ensures |s| == 1 ==> Without(s, k) == []
    ensures s[k] in Elements(s) && |Without(s, k)| == |s| - 1
    ensures Elements(Without(s, k)) == Elements(s) - {s[k]}
    ensures forall i :: 0 <= i < |s| - 1 ==> Without(s, k)[i] in s
  {
    assert s[k].prev == PrevOf(Plain, s, k) && s[k].next == NextOf(s, k, null);
    WithoutDistinct(s, k, Elements(s));
  }

  lemma PlaceInChain(bs: seq<Bucket>, chains: seq<seq<Node>>, dom: set<Node>, c: Counters, x: Node) returns (i: nat)
    requires ChainsOk(bs, chains, dom) && CountersOk(bs, c) && x in dom
    ensures |chains| == |bs| == c.numBuckets
    ensures 0 < |chains| && Slot(x.hashv, |chains|) < |chains|
    ensures i < |chains[Slot(x.hashv, |chains|)]| && chains[Slot(x.hashv, |chains|)][i] == x
  {
    i :| 0 <= i < |chains[Slot(x.hashv, |chains|)]| && chains[Slot(x.hashv, |chains|)][i] == x;
  }

  lemma AfterDeletion(bs: seq<Bucket>, c: Counters, b: nat, head: Node?)
    requires CountersOk(bs, c) && b < |bs| && 0 < bs[b].count && 0 < c.numItems
    ensures CountersOk(bs[b := Bucket(head, bs[b].count - 1, bs[b].expandMult)], c.(numItems := c.numItems - 1))
  {
    SumUpdate(Count, bs, b, Bucket(head, bs[b].count - 1, bs[b].expandMult));
    if !c.noexpand {
      DeletionKeepsLoad(bs, b, head);
    }
  }

  lemma HashedLess(dom: set<Node>, x: Node, hashFcn: string -> nat, added: set<nat>)
    requires Hashed(dom, hashFcn, added)
    ensures Hashed(dom - {x}, hashFcn, added)
  {
  }

  lemma HashedMore(dom: set<Node>, x: Node, hashFcn: string -> nat, added: set<nat>)
    requires Hashed(dom, hashFcn, added) && x.hashv == hashFcn(x.key)
    ensures Hashed(dom + {x}, hashFcn, added + {x.hashv})
  {
  }

  lemma SlotOfAddition(bs: seq<Bucket>, chains: seq<seq<Node>>, dom: set<Node>, c: Counters, h: nat)
    requires CountersOk(bs, c) && ChainsOk(bs, chains, dom)
    ensures |chains| == |bs|
    ensures 0 < c.numBuckets == |bs| && Slot(h, c.numBuckets) < c.numBuckets
  {
    SlotIsMod(h, c.log2NumBuckets);
  }

  lemma AfterAddition(bs: seq<Bucket>, c: Counters, b: nat, x: Node)
    requires CountersOk(bs, c) && b < |bs|
    ensures var bs', c' := bs[b := Grown(bs[b]).(hhHead := x)], c.(numItems := c.numItems + 1);
            if Full(bs'[b]) && !c.noexpand then MustExpand(bs', c') else CountersOk(bs', c')
  {
    SumUpdate(Count, bs, b, Grown(bs[b]).(hhHead := x));
    if !c.noexpand {
      IdealIsSmall(bs, c.numItems + 1, c.log2NumBuckets);
      if !Full(Grown(bs[b])) {
        AdditionKeepsLoad(bs, b, x);
      }
    }
  }

  /** The counters agree with the buckets. */
  ghost predicate CountersOk(bs: seq<Bucket>, c: Counters)
  {
    && |bs| == c.numBuckets == Pow2(c.log2NumBuckets)
    && Sum(Count, bs) == c.numItems
    && Bounded(bs, c.ineffExpands, c.noexpand)
  }

  /** Before an expansion: the counters agree, and the load was bounded up to the last addition. */
  ghost predicate MustExpand(bs: seq<Bucket>, c: Counters)
  {
    && |bs| == c.numBuckets == Pow2(c.log2NumBuckets)
    && Sum(Count, bs) == c.numItems
    && 0 < CeilShift(c.numItems, c.log2NumBuckets + 1) <= CAPACITY_THRESH
    && !c.noexpand && c.ineffExpands <= 1
  }

  /** What an expansion does: the ideal chain length is the number of items over the
      number of new buckets, rounded up; the nonideal items are those beyond it; and the doubling was
      ineffective when they are more than half of the items; a chain longer than the ideal length gets its
      length in ideal lengths as its multiplier. */
  ghost predicate Expanded(c: Counters, bs: seq<Bucket>, c': Counters)
  {
    && c'.numBuckets == 2 * c.numBuckets && c'.log2NumBuckets == c.log2NumBuckets + 1
    && c'.numItems == c.numItems
    && c'.idealChainMaxlen == CeilShift(c.numItems, c'.log2NumBuckets)
    && c'.nonidealItems == Sum(Excess(c'.idealChainMaxlen), bs)
    && c'.ineffExpands == (if c'.nonidealItems > c.numItems / 2 then c.ineffExpands + 1 else 0)
    && c'.noexpand == (c'.ineffExpands > 1)
    && 0 < c'.idealChainMaxlen
    && forall b :: 0 <= b < |bs| ==>
         bs[b].expandMult == if bs[b].count > c'.idealChainMaxlen then bs[b].count / c'.idealChainMaxlen else 0
  }

  /** Expansion is inhibited after two doublings in a row that left more than half of the items beyond the
      ideal chain length, and only then; m is the number of items at the second one. */
  lemma InhibitedAfterTwo(c0: Counters, bs1: seq<Bucket>, c1: Counters, m: nat, bs2: seq<Bucket>, c2: Counters)
    requires c0.ineffExpands <= 1 && Expanded(c0, bs1, c1) && !c1.noexpand
    requires Expanded(c1.(numItems := m), bs2, c2)
    ensures c2.noexpand <==> 2 * c1.nonidealItems > c0.numItems && 2 * c2.nonidealItems > m
  {
  }

  /** The ideal chain length is the least at which all items have room. */
  lemma IdealIsLeast(c: Counters, bs: seq<Bucket>, c': Counters)
    requires Expanded(c, bs, c') && |bs| == c'.numBuckets == Pow2(c'.log2NumBuckets)
    ensures c.numItems <= c'.idealChainMaxlen * |bs|
    ensures forall l: nat :: c.numItems <= l * |bs| ==> c'.idealChainMaxlen <= l
    ensures c'.nonidealItems == 0 <==> forall b :: 0 <= b < |bs| ==> bs[b].count <= c'.idealChainMaxlen
  {
    var n, ideal := c.numItems, c'.idealChainMaxlen;
    CeilShiftIsCeil(n, c'.log2NumBuckets);
    if n == 0 {
      ShrIsDiv(0, c'.log2NumBuckets);
    }
    forall l: nat | n <= l * |bs| ensures ideal <= l {
      if l < ideal { TimesMore(|bs|, l, ideal - 1); }
    }
    NoExcess(bs, ideal);
  }

  lemma {:induction false} NoExcess(bs: seq<Bucket>, ideal: nat)
    ensures Sum(Excess(ideal), bs) == 0 <==> forall b :: 0 <= b < |bs| ==> bs[b].count <= ideal
  {
    if bs != [] {
      NoExcess(bs[1..], ideal);
      assert bs == [bs[0]] + bs[1..];
    }
  }

  ghost function NoNodes(n: nat): (chains: seq<seq<Node>>)
  {
    seq(n, _ => [])
  }

  lemma AfterExpansion(bs: seq<Bucket>, c: Counters, c': Counters)
    requires !c.noexpand && 0 < CeilShift(c.numItems, c'.log2NumBuckets) <= CAPACITY_THRESH
    requires |bs| == c'.numBuckets == Pow2(c'.log2NumBuckets)
    requires StatsOk(bs, CeilShift(c.numItems, c'.log2NumBuckets), c.numItems, c'.nonidealItems)
    requires c'.numBuckets == 2 * c.numBuckets && c'.log2NumBuckets == c.log2NumBuckets + 1
    requires c'.numItems == c.numItems && c'.idealChainMaxlen == CeilShift(c.numItems, c'.log2NumBuckets)
    requires c'.ineffExpands == if c'.nonidealItems > Shr(c.numItems, 1) then c.ineffExpands + 1 else 0
    requires c'.noexpand == (c'.ineffExpands > 1)
    ensures Expanded(c, bs, c') && LoadInvariant(bs) && CountersOk(bs, c')
  {
    var n, k := c.numItems, c'.log2NumBuckets;
    assert Shr(n, 1) == n / 2;
    if n == 0 {
      ShrIsDiv(0, k);
    }
    ExpansionRestoresLoad(bs, n, k);
  }

  lemma EmptyIndex(bs: seq<Bucket>, bv: seq<bv8>, nbits: nat)
    requires |bs| == INITIAL_NUM_BUCKETS && forall b :: 0 <= b < |bs| ==> bs[b] == Bucket(null, 0, 0)
    requires |bv| == Bloom.ByteLen(nbits) && forall i :: 0 <= i < |bv| ==> bv[i] == 0
    ensures ChainsOk(bs, NoNodes(|bs|), {}) && Filtered(bv, nbits, {})
    ensures CountersOk(bs, NEW_COUNTERS)
  {
    assert Pow2(5) == 32 by { assert Pow2(3) == 8; }
    EmptyStats(bs, 1);
    EmptyCharges(bs);
  }

  lemma {:induction false} EmptyCharges(bs: seq<Bucket>)
    requires forall b :: 0 <= b < |bs| ==> bs[b] == Bucket(null, 0, 0)
    ensures Sum(Charge, bs) == 0
  {
    if bs != [] { EmptyCharges(bs[1..]); }
  }
}
