/** The machine arithmetic that the headers rely on: powers of two, masks and shifts. */
module Arith {

  function Min(a: nat, b: nat): (m: nat) { if a <= b then a else b }

  function Pow2(n: nat): (r: nat)
    ensures 0 < r
  {
    if n == 0 then 1 else 2 * Pow2(n - 1)
  }

  /** Bitwise and. */
  function And(a: nat, b: nat): (r: nat)
    decreases a
  {
    if a == 0 || b == 0 then 0
    else 2 * And(a / 2, b / 2) + (if a % 2 == 1 && b % 2 == 1 then 1 else 0)
  }

  /** Right shift. */
  function Shr(a: nat, k: nat): (r: nat)
  {
    if k == 0 then a else Shr(a / 2, k - 1)
  }

  /** Halving commutes with taking the remainder by an even number. */
  lemma HalfMod(a: nat, m: nat)
    requires 0 < m
    ensures a % (2 * m) == 2 * ((a / 2) % m) + a % 2
    ensures a / (2 * m) == (a / 2) / m
  {
    var h := a / 2;
    var q, r := h / m, h % m;
    assert h == q * m + r;
    assert a == q * (2 * m) + (2 * r + a % 2) by {
      assert q * (2 * m) == 2 * (q * m);
    }
    DivModUnique(a, 2 * m, q, 2 * r + a % 2);
  }

  lemma AtLeastOneTimes(d: int, m: int)
    requires 0 < m
    ensures d >= 1 ==> d * m >= m
    ensures d <= -1 ==> d * m <= -m
  {
    if d >= 1 {
      assert (d - 1) * m >= 0;
    } else if d <= -1 {
      assert (-1 - d) * m >= 0;
    }
  }

  lemma DivModUnique(a: int, m: int, q: int, r: int)
    requires 0 <= r < m && a == q * m + r
    ensures a / m == q && a % m == r
  {
    var q', r' := a / m, a % m;
    assert a == q' * m + r';
    assert (q' - q) * m == r - r';
    AtLeastOneTimes(q' - q, m);
  }

  /** And with an odd number keeps the lowest bit. */
  lemma AndOdd(a: nat, b: nat)
    ensures And(a, 2 * b + 1) == 2 * And(a / 2, b) + a % 2
    ensures And(a, 0) == 0
  {
    assert (2 * b + 1) / 2 == b && (2 * b + 1) % 2 == 1;
  }

  /** Masking with 2^k - 1 is taking the remainder by 2^k. */
  lemma {:induction false} AndMask(a: nat, k: nat)
    ensures And(a, Pow2(k) - 1) == a % Pow2(k)
    decreases k
  {
    hide And;
    if k == 0 {
      AndOdd(a, 0);
    } else {
      var m := Pow2(k - 1);
      AndMask(a / 2, k - 1);
      HalfMod(a, m);
      AndOdd(a, m - 1);
    }
  }

  lemma {:induction false} ShrIsDiv(a: nat, k: nat)
    ensures Shr(a, k) == a / Pow2(k)
    decreases k
  {
    if k > 0 {
      ShrIsDiv(a / 2, k - 1);
      HalfMod(a, Pow2(k - 1));
    }
  }

  /** n divided by 2^k, rounded up, with a shift and a mask. */
  function CeilShift(n: nat, k: nat): (r: nat)
  {
    Shr(n, k) + if And(n, Pow2(k) - 1) != 0 then 1 else 0
  }

  lemma CeilShiftIsCeil(n: nat, k: nat)
    ensures n <= CeilShift(n, k) * Pow2(k)
    ensures 0 < n ==> 0 < CeilShift(n, k) && (CeilShift(n, k) - 1) * Pow2(k) < n
  {
    ShrIsDiv(n, k);
    AndMask(n, k);
    CeilDiv(n, Pow2(k), CeilShift(n, k));
  }

  lemma CeilDiv(n: nat, m: nat, c: nat)
    requires 0 < m && c == n / m + if n % m != 0 then 1 else 0
    ensures n <= c * m
    ensures 0 < n ==> 0 < c && (c - 1) * m < n
  {
    var q := n / m;
    assert n == q * m + n % m;
    if n % m != 0 {
      assert c * m == q * m + m;
    }
  }

  /** The bucket of a hash value. */
  function Slot(h: nat, numBuckets: nat): (b: nat)
    requires 0 < numBuckets
  {
    And(h, numBuckets - 1)
  }

  lemma SlotIsMod(h: nat, k: nat)
    ensures Slot(h, Pow2(k)) == h % Pow2(k) < Pow2(k)
  {
    AndMask(h, k);
  }

  /** When the buckets double, an item stays in its bucket or moves up by the old bucket count. */
  lemma SlotDoubles(h: nat, k: nat)
    ensures var n, b := Pow2(k), Slot(h, Pow2(k));
            Slot(h, 2 * n) == b || Slot(h, 2 * n) == b + n
  {
    SlotIsMod(h, k);
    SlotIsMod(h, k + 1);
    ModDoubles(h, Pow2(k));
  }

  lemma ModDoubles(h: nat, n: nat)
    requires 0 < n
    ensures h % (2 * n) == h % n || h % (2 * n) == h % n + n
  {
    var q, r := h / n, h % n;
    var p := q / 2;
    assert h == q * n + r;
    if q % 2 == 0 {
      Double(p, n);
      DivModUnique(h, 2 * n, p, r);
    } else {
      Double(p, n);
      assert (2 * p + 1) * n == 2 * p * n + n;
      DivModUnique(h, 2 * n, p, r + n);
    }
  }

  lemma Double(p: int, n: int)
    ensures 2 * p * n == p * (2 * n)
  {
  }
}
