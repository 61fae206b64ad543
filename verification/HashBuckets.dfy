/** The bucket statistics of uthash.h: chain counts, expansion multipliers, and the load bound that
    they keep. */
module HashBuckets {
  import opened Arith
  import opened Nodes

  const INITIAL_NUM_BUCKETS := 32
  const INITIAL_NUM_BUCKETS_LOG2 := 5
  const CAPACITY_THRESH := 10

  datatype Bucket = Bucket(hhHead: Node?, count: nat, expandMult: nat)

  // ----- sums over the buckets ---------------------------------------------------

  ghost function Sum(weight: Bucket -> nat, bs: seq<Bucket>): (sum: nat)
  {
    if bs == [] then 0 else weight(bs[0]) + Sum(weight, bs[1..])
  }

  lemma {:induction false} SumUpdate(weight: Bucket -> nat, bs: seq<Bucket>, b: nat, v: Bucket)
    requires b < |bs|
    ensures Sum(weight, bs[b := v]) == Sum(weight, bs) - weight(bs[b]) + weight(v)
    ensures weight(bs[b]) <= Sum(weight, bs)
  {
    if b == 0 {
      assert bs[0 := v][1..] == bs[1..];
    } else {
      assert bs[b := v][1..] == bs[1..][b - 1 := v];
      SumUpdate(weight, bs[1..], b - 1, v);
    }
  }

  /** A sum of weights each at most m of the other weight, plus d for each bucket. */
  lemma {:induction false} SumBound(w: Bucket -> nat, v: Bucket -> nat, m: nat, d: nat, bs: seq<Bucket>)
    requires forall i :: 0 <= i < |bs| ==> w(bs[i]) <= m * v(bs[i]) + d
    ensures Sum(w, bs) <= m * Sum(v, bs) + d * |bs|
  {
    if bs != [] {
      SumBound(w, v, m, d, bs[1..]);
      assert m * (v(bs[0]) + Sum(v, bs[1..])) == m * v(bs[0]) + m * Sum(v, bs[1..]);
      assert d * |bs| == d + d * |bs[1..]|;
    }
  }

  function Count(b: Bucket): (n: nat) { b.count }

  function Mult(b: Bucket): (n: nat) { b.expandMult }

  /** A full bucket that was never reported as overused: adding to it must expand the table. */
  predicate Brim(b: Bucket) { b.count == CAPACITY_THRESH && b.expandMult == 0 }

  /** What a bucket takes from the budget of the load bound. */
  function Charge(b: Bucket): (n: nat) { b.expandMult + if Brim(b) then 1 else 0 }

  function Excess(ideal: nat): (weight: Bucket -> nat)
  {
    (b: Bucket) => if b.count > ideal then b.count - ideal else 0
  }

  // ----- the load bound ------------------------------------------------------------

  /** What additions and deletions keep as long as expansion is not inhibited: no chain has reached
      its threshold, but for brimful buckets that an expansion left behind; and the multipliers and
      the brimful buckets together are no more than the buckets. */
  ghost predicate LoadInvariant(bs: seq<Bucket>)
  {
    && (forall b :: 0 <= b < |bs| ==> WithinThreshold(bs[b]))
    && Sum(Charge, bs) <= |bs|
  }

  predicate WithinThreshold(b: Bucket)
  {
    b.count < (b.expandMult + 1) * CAPACITY_THRESH || Brim(b)
  }

  /** The items are at most 19 per bucket. */
  lemma LoadBound(bs: seq<Bucket>)
    requires LoadInvariant(bs)
    ensures Sum(Count, bs) <= 19 * |bs|
    ensures forall b :: 0 <= b < |bs| ==> bs[b].count <= (bs[b].expandMult + 1) * CAPACITY_THRESH
    ensures Sum(Mult, bs) <= |bs|
  {
    SumBound(Count, Charge, 10, 9, bs);
    SumBound(Mult, Charge, 1, 0, bs);
  }

  /** The bucket after an addition; Full says that this calls for an expansion. */
  function Grown(b: Bucket): (b': Bucket) { b.(count := b.count + 1) }

  predicate Full(b: Bucket) { b.count >= (b.expandMult + 1) * CAPACITY_THRESH }

  lemma AdditionKeepsLoad(bs: seq<Bucket>, b: nat, head: Node?)
    requires LoadInvariant(bs) && b < |bs| && !Full(Grown(bs[b]))
    ensures LoadInvariant(bs[b := Grown(bs[b]).(hhHead := head)])
  {
    SumUpdate(Charge, bs, b, Grown(bs[b]).(hhHead := head));
  }

  lemma DeletionKeepsLoad(bs: seq<Bucket>, b: nat, head: Node?)
    requires LoadInvariant(bs) && b < |bs| && bs[b].count > 0
    ensures LoadInvariant(bs[b := Bucket(head, bs[b].count - 1, bs[b].expandMult)])
  {
    SumUpdate(Charge, bs, b, Bucket(head, bs[b].count - 1, bs[b].expandMult));
  }

  /** The multiplier that an expansion gives to a bucket that gets count items. */
  function MultOf(count: nat, ideal: nat): (mult: nat)
    requires 0 < ideal
  {
    if count > ideal then Quotient(count, ideal) else 0
  }

  function Quotient(a: nat, b: nat): (q: nat)
    requires 0 < b
  {
    a / b
  }

  /** An expansion of n items into 2^k buckets whose ideal chain length is at most the threshold
      re-establishes the invariant. */
  lemma ExpansionRestoresLoad(bs: seq<Bucket>, n: nat, k: nat)
    requires |bs| == Pow2(k) && Sum(Count, bs) == n && 0 < n
    requires CeilShift(n, k) <= CAPACITY_THRESH
    requires 0 < CeilShift(n, k) && forall b :: 0 <= b < |bs| ==> bs[b].expandMult == MultOf(bs[b].count, CeilShift(n, k))
    ensures LoadInvariant(bs)
  {
    var ideal := CeilShift(n, k);
    CeilShiftIsCeil(n, k);
    forall b | 0 <= b < |bs|
      ensures WithinThreshold(bs[b]) && ideal * Charge(bs[b]) <= bs[b].count
    {
      MultTimesIdeal(bs[b].count, ideal);
    }
    SumBoundDual(Charge, Count, ideal, bs);
    Cancel(ideal, Sum(Charge, bs), |bs|);
  }

  lemma MultTimesIdeal(count: nat, ideal: nat)
    requires 0 < ideal <= CAPACITY_THRESH
    ensures ideal * MultOf(count, ideal) <= count
    ensures count > ideal ==> 0 < MultOf(count, ideal) && count < (MultOf(count, ideal) + 1) * CAPACITY_THRESH
  {
    hide Quotient;
    if count > ideal {
      var q := Quotient(count, ideal);
      QuotientBounds(count, ideal);
      TimesMore(q + 1, ideal, CAPACITY_THRESH);
    }
  }

  lemma QuotientBounds(a: nat, b: nat)
    requires 0 < b
    ensures b * Quotient(a, b) <= a < (Quotient(a, b) + 1) * b
    ensures a > b ==> 0 < Quotient(a, b)
  {
    var q := Quotient(a, b);
    assert a == q * b + a % b;
    assert (q + 1) * b == q * b + b;
  }

  lemma TimesMore(x: nat, a: nat, b: nat)
    requires a <= b
    ensures x * a <= x * b
  {
    assert x * b - x * a == x * (b - a);
  }

  lemma {:induction false} SumBoundDual(w: Bucket -> nat, v: Bucket -> nat, m: nat, bs: seq<Bucket>)
    requires forall i :: 0 <= i < |bs| ==> m * w(bs[i]) <= v(bs[i])
    ensures m * Sum(w, bs) <= Sum(v, bs)
  {
    if bs != [] {
      SumBoundDual(w, v, m, bs[1..]);
      assert m * (w(bs[0]) + Sum(w, bs[1..])) == m * w(bs[0]) + m * Sum(w, bs[1..]);
    }
  }

  lemma Cancel(m: nat, x: nat, y: nat)
    requires 0 < m && m * x <= m * y
    ensures x <= y
  {
    AtLeastOneTimes(x - y, m);
    assert m * x - m * y == (x - y) * m;
  }

  lemma AtLeastTenTimes(c: int, m: nat)
    ensures c >= 10 ==> c * m >= 10 * m
  {
    if c >= 10 {
      assert (c - 10) * m >= 0;
    }
  }

  /** Every expansion that an addition triggers computes an ideal chain length of at most 10. */
  lemma IdealIsSmall(bs: seq<Bucket>, n: nat, k: nat)
    requires LoadInvariant(bs) && |bs| == Pow2(k) && n == Sum(Count, bs) + 1
    ensures 0 < CeilShift(n, k + 1) <= CAPACITY_THRESH
  {
    LoadBound(bs);
    CeilShiftIsCeil(n, k + 1);
    var c, nb := CeilShift(n, k + 1), Pow2(k);
    AtLeastTenTimes(c - 1, 2 * nb);
  }
}
