/** What a client sees of the table: under the discipline of uthash_sample.c (find before add), the
    table is a finite map, listed in insertion order. */
module HashClients {
  import opened Arith
  import opened Nodes
  import opened MergeSort
  import opened Shapes
  import opened HashBuckets
  import opened HashChains
  import opened HashTables

  ghost predicate UniqueKeys(s: seq<Node>)
  {
    forall i, j :: 0 <= i < j < |s| ==> s[i].key != s[j].key
  }

  /** The nodes of s hold exactly the pairs of m. */
  ghost predicate Represents(s: seq<Node>, m: map<string, string>)
    reads s`name
  {
    && (forall i {:trigger s[i].name} {:trigger s[i].key} :: 0 <= i < |s| ==> s[i].key in m && m[s[i].key] == s[i].name)
    && (forall k | k in m :: exists i :: 0 <= i < |s| && s[i].key == k)
  }

  /** The load of a table whose expansion is not inhibited is bounded: at most 19 items per bucket,
      and no chain is longer than its threshold. */
  lemma LoadOfTable(t: Table)
    requires t.Valid() && t.head != null && !t.tbl.noexpand
    ensures |t.order| <= 19 * t.tbl.numBuckets
    ensures forall b :: 0 <= b < |t.chains| ==>
              b < t.buckets.Length && |t.chains[b]| <= (t.buckets[b].expandMult + 1) * CAPACITY_THRESH
    ensures Sum(Mult, t.buckets[..]) <= t.tbl.numBuckets
  {
    var bs := t.buckets[..];
    LoadBound(bs);
    forall b | 0 <= b < |t.chains|
      ensures b < |bs| && |t.chains[b]| <= (bs[b].expandMult + 1) * CAPACITY_THRESH
    {
      assert Holds(bs[b], t.chains[b], b, |t.chains|);
    }
  }

  /** Every node of the list is in the chain of its bucket, and in no other. */
  lemma IndexAgreesWithOrder(t: Table, n: Node, b: nat)
    requires t.Valid() && t.head != null && b < |t.chains|
    ensures n in t.chains[b] <==> n in t.order && Slot(n.hashv, t.tbl.numBuckets) == b
  {
    assert Holds(t.buckets[..][b], t.chains[b], b, |t.chains|) && Within(t.chains[b], Elements(t.order));
    SlotOfMember(t.chains[b], b, |t.chains|, n);
  }

  lemma SortRepresents(s: seq<Node>, t: seq<Node>, m: map<string, string>)
    requires multiset(s) == multiset(t) && UniqueKeys(s) && Represents(s, m)
    ensures UniqueKeys(t) && Represents(t, m)
    ensures forall i :: 0 <= i < |t| ==> t[i] in s
  {
    SameElements(s, t);
    KeysDetermineNodes(s);
    assert Distinct(s);
    DistinctPermutation(s, t);
    forall i | 0 <= i < |t| ensures t[i] in s { assert t[i] in Elements(t); }
    forall i, j | 0 <= i < j < |t| ensures t[i].key != t[j].key {
      assert t[i] != t[j] && t[i] in s && t[j] in s;
    }
    forall k | k in m ensures exists i :: 0 <= i < |t| && t[i].key == k {
      var j :| 0 <= j < |s| && s[j].key == k;
      assert s[j] in Elements(s);
      assert s[j] in t;
    }
  }

  lemma SortIsPermutation(cmp: (Node, Node) -> int, s: seq<Node>)
    ensures multiset(MergeSort.Sort(cmp, s)) == multiset(s)
  {
    SortFromPermutes(cmp, s, 1);
  }

  lemma KeysDetermineNodes(s: seq<Node>)
    requires UniqueKeys(s)
    ensures Distinct(s)
    ensures forall x, y | x in s && y in s && x != y :: x.key != y.key
  {
  }

  lemma AppendRepresents(s: seq<Node>, x: Node, m: map<string, string>)
    requires UniqueKeys(s) && Represents(s, m) && forall n | n in s :: n.key != x.key
    ensures x !in s && UniqueKeys(s + [x]) && Represents(s + [x], m[x.key := x.name])
  {
    var t, m' := s + [x], m[x.key := x.name];
    forall i, j | 0 <= i < j < |t| ensures t[i].key != t[j].key {
      assert t[i] == s[i] && s[i] in s;
    }
    forall i | 0 <= i < |t| ensures t[i].key in m' && m'[t[i].key] == t[i].name {
      if i < |s| { assert t[i] == s[i] && s[i] in s && s[i].key in m; }
    }
    forall k | k in m' ensures exists i :: 0 <= i < |t| && t[i].key == k {
      if k == x.key {
        assert t[|s|].key == k;
      } else {
        var i :| 0 <= i < |s| && s[i].key == k;
        assert t[i].key == k;
      }
    }
  }

  lemma RemoveRepresents(s: seq<Node>, i: nat, m: map<string, string>)
    requires UniqueKeys(s) && Represents(s, m) && i < |s|
    ensures UniqueKeys(Without(s, i)) && Represents(Without(s, i), m - {s[i].key})
    ensures forall k :: 0 <= k < |s| - 1 ==> Without(s, i)[k] in s
  {
    hide Without;
    var t := Without(s, i);
    ElementsOfWithout(s, i);
    forall k | 0 <= k < |t| ensures t[k].key in m - {s[i].key} && (m - {s[i].key})[t[k].key] == t[k].name {
      assert s[if k < i then k else k + 1].key in m;
    }
    forall k | k in m - {s[i].key} ensures exists j :: 0 <= j < |t| && t[j].key == k {
      var j :| 0 <= j < |s| && s[j].key == k;
      assert t[if j < i then j else j - 1].key == k;
    }
  }

  lemma ElementsOfWithout<T>(s: seq<T>, i: nat)
    requires i < |s|
    ensures forall k :: 0 <= k < |s| - 1 ==> Without(s, i)[k] == s[if k < i then k else k + 1]
  {
  }

  /** strcmp: the end of a string is less than any character. */
  function StrCmp(a: string, b: string): (r: int)
  {
    if a == [] && b == [] then 0
    else if a == [] then -1
    else if b == [] then 1
    else if a[0] != b[0] then a[0] as int - b[0] as int
    else StrCmp(a[1..], b[1..])
  }

  /** a and b agree up to place k, where a ends or has the smaller character. */
  predicate LessAt(a: string, b: string, k: nat)
  {
    k <= |a| && k < |b| && a[..k] == b[..k] && (k < |a| ==> a[k] < b[k])
  }

  /** a comes before b in the dictionary. */
  ghost predicate Before(a: string, b: string)
  {
    exists k: nat :: LessAt(a, b, k)
  }

  lemma {:induction false} StrCmpIsLexicographic(a: string, b: string)
    ensures StrCmp(a, b) == 0 <==> a == b
    ensures StrCmp(a, b) < 0 <==> Before(a, b)
    ensures StrCmp(a, b) > 0 <==> Before(b, a)
  {
    if a == [] || b == [] || a[0] != b[0] {
      assert b != [] && (a == [] || a[0] < b[0]) ==> LessAt(a, b, 0);
      assert a != [] && (b == [] || b[0] < a[0]) ==> LessAt(b, a, 0);
    } else {
      StrCmpIsLexicographic(a[1..], b[1..]);
      assert a == [a[0]] + a[1..] && b == [b[0]] + b[1..];
      BeforeTails(a, b);
      BeforeTails(b, a);
    }
  }

  lemma BeforeTails(a: string, b: string)
    requires a != [] && b != [] && a[0] == b[0]
    ensures Before(a, b) <==> Before(a[1..], b[1..])
  {
    if k: nat :| LessAt(a, b, k) {
      assert a[1..][..k - 1] == a[..k][1..] && b[1..][..k - 1] == b[..k][1..];
      assert LessAt(a[1..], b[1..], k - 1);
    }
    if k: nat :| LessAt(a[1..], b[1..], k) {
      assert a[..k + 1] == [a[0]] + a[1..][..k] && b[..k + 1] == [b[0]] + b[1..][..k];
      assert LessAt(a, b, k + 1);
    }
  }

  lemma {:induction false} StrCmpTurned(a: string, b: string)
    ensures StrCmp(a, b) <= 0 || StrCmp(b, a) <= 0
  {
    if a != [] && b != [] {
      StrCmpTurned(a[1..], b[1..]);
    }
  }

  lemma {:induction false} StrCmpTransitive(a: string, b: string, c: string)
    requires StrCmp(a, b) <= 0 && StrCmp(b, c) <= 0
    ensures StrCmp(a, c) <= 0
  {
    if a != [] && b != [] && c != [] && a[0] == b[0] == c[0] {
      StrCmpTransitive(a[1..], b[1..], c[1..]);
    }
  }

  /** The name noted for a node. */
  function NameIn(names: map<Node, string>, n: Node): (name: string)
  {
    if n in names then names[n] else ""
  }

  function ByName(names: map<Node, string>): (cmp: (Node, Node) -> int)
  {
    (a: Node, b: Node) => StrCmp(NameIn(names, a), NameIn(names, b))
  }

  lemma ByNameIsTotal(names: map<Node, string>, dom: set<Node>)
    ensures TotalPreorder(ByName(names), dom)
  {
    var cmp := ByName(names);
    forall a, b | a in dom && b in dom ensures cmp(a, b) <= 0 || cmp(b, a) <= 0 {
      StrCmpTurned(NameIn(names, a), NameIn(names, b));
    }
    forall a, b, c | a in dom && b in dom && c in dom && cmp(a, b) <= 0 && cmp(b, c) <= 0 ensures cmp(a, c) <= 0 {
      StrCmpTransitive(NameIn(names, a), NameIn(names, b), NameIn(names, c));
    }
  }

  /** The users of the sample program. */
  class Users {
    var table: Table
    ghost var contents: map<string, string>

    ghost predicate Valid()
      reads this, table, table.buckets, table.bloom, table.order
    {
      table.Valid() && UniqueKeys(table.order) && Represents(table.order, contents)
    }

    constructor (hashFcn: string -> nat, bloomNbits: nat)
      ensures Valid() && fresh(table) && contents == map[]
      ensures table.hashFcn == hashFcn && table.bloomNbits == bloomNbits
    {
      table := new Table(hashFcn, bloomNbits);
      contents := map[];
    }

    method FindUser(id: string) returns (s: Node?)
      requires Valid()
      ensures if id in contents then s != null && s in table.order && s.key == id && s.name == contents[id] else s == null
    {
      ghost var probes;
      s, probes := table.Find(id);
      Lookup(table.order, contents, id, s);
    }

    /** Adds a user, or renames the one with the id. */
    method AddUser(id: string, name: string)
      requires Valid()
      modifies this, table, table.buckets, table.bloom, table.order
      ensures Valid() && contents == old(contents)[id := name] && table == old(table)
      ensures id in old(contents) ==> table.order == old(table.order)
      ensures id !in old(contents) ==>
                |table.order| == |old(table.order)| + 1 && old(table.order) <= table.order && table.order[|old(table.order)|].key == id
    {
      hide Table.Valid, Represents, UniqueKeys;
      var s := FindUser(id);
      if s == null {
        s := new Node(id, name);
        AddFresh(s);
      } else {
        Rename(s, name);
      }
    }

    method AddFresh(s: Node)
      requires Valid() && s.key !in contents && s !in table.order
      modifies this, table, table.buckets, table.bloom, table.order, s
      ensures Valid() && contents == old(contents)[s.key := s.name] && table == old(table) && s.name == old(s.name)
      ensures table.order == old(table.order) + [s]
    {
      hide Table.Valid, Represents, UniqueKeys;
      AbsentKey(table.order, contents, s);
      AppendRepresents(table.order, s, contents);
      table.Add(s);
      contents := contents[s.key := s.name];
    }

    method Rename(s: Node, name: string)
      requires Valid() && s in table.order
      modifies this, s`name
      ensures Valid() && contents == old(contents)[s.key := name] && table == old(table)
    {
      hide Table.Valid, UniqueKeys;
      KeysDetermineNodes(table.order);
      s.name := name;
      contents := contents[s.key := name];
      ghost var t := table.order;
      forall i | 0 <= i < |t| ensures t[i].key in contents && contents[t[i].key] == t[i].name {
        assert t[i] in t && t[i].key in old(contents);
      }
    }

    method DeleteUser(user: Node) returns (ghost k: nat)
      requires Valid() && user in table.order
      modifies this, table, table.buckets, table.order
      ensures Valid() && contents == old(contents) - {user.key} && table == old(table)
      ensures k < |old(table.order)| && old(table.order)[k] == user && table.order == Without(old(table.order), k)
    {
      hide Table.Valid, Represents, UniqueKeys, Without;
      k :| 0 <= k < |table.order| && table.order[k] == user;
      ghost var t := Without(table.order, k);
      RemoveRepresents(table.order, k, contents);
      table.Delete(user, k);
      contents := contents - {user.key};
    }

    method DeleteAll()
      requires Valid()
      modifies this, table, table.buckets, table.order
      ensures Valid() && contents == map[] && table.order == []
    {
      hide Table.Valid;
      table.DeleteAll();
      contents := map[];
    }

    /** Sorting reorders the listing and leaves the map alone. */
    method SortBy(cmp: (Node, Node) -> int)
      requires Valid() && TotalPreorder(cmp, Elements(table.order))
      modifies table`head, table`tail, table`order, table.order`prev, table.order`next
      ensures Valid() && contents == old(contents)
      ensures Sorted(cmp, table.order) && StablePermutation(cmp, old(table.order), table.order)
    {
      hide Table.Valid, Represents, UniqueKeys, MergeSort.Sort, TotalPreorder, Sorted, StablePermutation;
      ghost var t := MergeSort.Sort(cmp, table.order);
      SortIsCorrect(cmp, table.order);
      SortIsPermutation(cmp, table.order);
      SortRepresents(table.order, MergeSort.Sort(cmp, table.order), contents);
      ghost var cmps := table.Sort(cmp);
    }

    /** Notes the names of all users, in a walk over the list. */
    method Names() returns (names: map<Node, string>)
      requires Valid()
      ensures forall i :: 0 <= i < |table.order| ==> NameIn(names, table.order[i]) == table.order[i].name
    {
      hide UniqueKeys, Represents;
      FirstNode(table);
      names := map[];
      var el := table.head;
      ghost var i := 0;
      while el != null
        invariant 0 <= i <= |table.order| && el == At(table.order, i)
        invariant forall k :: 0 <= k < i ==> NameIn(names, table.order[k]) == table.order[k].name
        decreases |table.order| - i
      {
        names := names[el := el.name];
        NextNode(table, i);
        el := el.next;
        i := i + 1;
      }
    }

    /** Sorting by name: name_sort compares the names the users have when the sort begins, and sorting does
        not change them. */
    method SortByName() returns (ghost cmp: (Node, Node) -> int)
      requires Valid()
      modifies table`head, table`tail, table`order, table.order`prev, table.order`next
      ensures Valid() && contents == old(contents)
      ensures forall a, b | a in table.order && b in table.order :: cmp(a, b) == StrCmp(a.name, b.name)
      ensures Sorted(cmp, table.order) && StablePermutation(cmp, old(table.order), table.order)
      ensures forall i, j :: 0 <= i < j < |table.order| ==> !Before(table.order[j].name, table.order[i].name)
    {
      hide Table.Valid, UniqueKeys, Represents, TotalPreorder, Sorted, StrCmp, Before;
      var names := Names();
      ByNameIsTotal(names, Elements(table.order));
      cmp := ByName(names);
      ghost var s := table.order;
      SortBy(ByName(names));
      SameElements(table.order, s);
      forall n | n in table.order ensures NameIn(names, n) == n.name {
        assert n in Elements(s);
        var i :| 0 <= i < |s| && s[i] == n;
      }
      NamesInOrder(cmp, table.order);
    }
  }

  lemma NamesInOrder(cmp: (Node, Node) -> int, s: seq<Node>)
    requires Sorted(cmp, s) && forall a, b | a in s && b in s :: cmp(a, b) == StrCmp(a.name, b.name)
    ensures forall i, j :: 0 <= i < j < |s| ==> !Before(s[j].name, s[i].name)
  {
    hide StrCmp, Before;
    forall i, j | 0 <= i < j < |s| ensures !Before(s[j].name, s[i].name) {
      StrCmpIsLexicographic(s[i].name, s[j].name);
    }
  }

  lemma NextNode(t: Table, i: nat)
    requires t.Valid() && i < |t.order|
    ensures t.order[i].next == At(t.order, i + 1)
  {
    Links(Plain, t.head, t.order);
  }

  lemma Lookup(s: seq<Node>, m: map<string, string>, id: string, n: Node?)
    requires UniqueKeys(s) && Represents(s, m)
    requires n != null ==> n in s && n.key == id
    requires n == null ==> forall x | x in s :: x.key != id
    ensures if id in m then n != null && n.name == m[id] else n == null
  {
    if n != null {
      var i :| 0 <= i < |s| && s[i] == n;
      assert s[i].name == n.name;
    }
  }

  lemma AbsentKey(s: seq<Node>, m: map<string, string>, x: Node)
    requires Represents(s, m) && x.key !in m
    ensures forall n | n in s :: n.key != x.key
  {
    forall n | n in s ensures n.key != x.key {
      var i :| 0 <= i < |s| && s[i] == n;
      assert s[i].key in m;
    }
  }
}
