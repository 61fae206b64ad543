/** The elements of the intrusive lists and tables, and sequences of them. */
module Nodes {

  /** An application structure with the links of both headers in it: prev and next are those of
      utlist.h and of uthash.h's application order; the hh fields belong to uthash.h alone. The key
      is part of the structure and does not change while the structure is in a table. */
  class Node {
    const key: string
    var name: string
    var prev: Node?
    var next: Node?
    var hhPrev: Node?
    var hhNext: Node?
    var hashv: nat

    constructor (key: string, name: string)
      ensures this.key == key && this.name == name
    {
      this.key, this.name := key, name;
      prev, next, hhPrev, hhNext, hashv := null, null, null, null, 0;
    }
  }

  ghost predicate Distinct<T>(s: seq<T>)
  {
    forall i, j :: 0 <= i < j < |s| ==> s[i] != s[j]
  }

  lemma {:induction false} DistinctMultiset<T>(s: seq<T>)
    ensures Distinct(s) <==> forall x | x in multiset(s) :: multiset(s)[x] == 1
  {
    if s != [] {
      var t, y := s[..|s| - 1], s[|s| - 1];
      assert s == t + [y];
      assert multiset(s) == multiset(t) + multiset{y};
      DistinctMultiset(t);
      assert y in t <==> y in multiset(t);
      if Distinct(s) {
        assert y !in t;
        forall x | x in multiset(s) ensures multiset(s)[x] == 1 {
          assert x in multiset(t) || x == y;
        }
      } else if y in t {
        assert multiset(s)[y] > 1;
      } else {
        assert !Distinct(t);
        var x :| x in multiset(t) && multiset(t)[x] != 1;
        assert x in multiset(s) && multiset(s)[x] != 1;
      }
    }
  }

  /** A permutation of distinct elements is distinct. */
  lemma DistinctPermutation<T>(s: seq<T>, t: seq<T>)
    requires Distinct(s) && multiset(s) == multiset(t)
    ensures Distinct(t)
  {
    DistinctMultiset(s);
    DistinctMultiset(t);
  }

  /** Element i of s, or null behind the end. */
  function At(s: seq<Node>, i: int): (n: Node?)
  {
    if 0 <= i < |s| then s[i] else null
  }
}
