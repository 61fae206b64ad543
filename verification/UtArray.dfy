/** The dynamic array of utarray.h. */
module UtArrays {
  import opened Arith

  // ----- sizes ---------------------------------------------------------------------------

  /** A capacity is 0 or 8 doubled any number of times. */
  ghost predicate IsCapacity(n: nat)
  {
    n == 0 || exists k: nat :: n == 8 * Pow2(k)
  }

  function Doubled(n: nat): (n': nat)
  {
    if n == 0 then 8 else 2 * n
  }

  /** The capacity the loop of utarray_reserve stops at. */
  function Grown(n: nat, need: nat): (r: nat)
    decreases need - n
  {
    if need <= n then n else Grown(Doubled(n), need)
  }

  lemma DoubledIsCapacity(n: nat)
    requires IsCapacity(n)
    ensures IsCapacity(Doubled(n))
  {
    if n == 0 {
      assert 8 == 8 * Pow2(0);
    } else {
      var k: nat :| n == 8 * Pow2(k);
      assert 2 * n == 8 * Pow2(k + 1);
    }
  }

  lemma {:induction false} Pow2Grows(j: nat, k: nat)
    requires j <= k
    ensures Pow2(j) <= Pow2(k)
    decreases k
  {
    if j < k {
      Pow2Grows(j, k - 1);
    }
  }

  lemma NextCapacity(n: nat, c: nat)
    requires IsCapacity(n) && IsCapacity(c) && n < c
    ensures Doubled(n) <= c
  {
    var l: nat :| c == 8 * Pow2(l);
    if n == 0 {
      Pow2Grows(0, l);
    } else {
      var k: nat :| n == 8 * Pow2(k);
      if l <= k {
        Pow2Grows(l, k);
      } else {
        Pow2Grows(k + 1, l);
      }
    }
  }

  /** It is the least capacity that is big enough and not below the present one. */
  lemma {:induction false} GrownIsLeast(n: nat, need: nat)
    requires IsCapacity(n)
    ensures IsCapacity(Grown(n, need)) && need <= Grown(n, need) && n <= Grown(n, need)
    ensures forall c :: IsCapacity(c) && n <= c && need <= c ==> Grown(n, need) <= c
    decreases need - n
  {
    hide IsCapacity;
    if n < need {
      DoubledIsCapacity(n);
      GrownIsLeast(Doubled(n), need);
      forall c | IsCapacity(c) && n <= c && need <= c ensures Grown(n, need) <= c {
        NextCapacity(n, c);
      }
    }
  }

  /** The length, the capacity, and how many elements realloc has moved. */
  datatype Sizes = Sizes(len: nat, cap: nat, moved: nat)

  function Reserved(s: Sizes, more: nat): (s': Sizes)
  {
    s.(cap := Grown(s.cap, s.len + more), moved := if s.len + more > s.cap then s.moved + s.len else s.moved)
  }

  function Pushed(s: Sizes): (s': Sizes)
  {
    Reserved(s, 1).(len := s.len + 1)
  }

  function PaddedSizes(s: Sizes, j: nat): (s': Sizes)
  {
    if s.len < j then Reserved(s, j - s.len).(len := j) else s
  }

  /** What an insertion of more elements at j does to the sizes: it may reserve twice. */
  function InsertedSizes(s: Sizes, j: nat, more: nat): (s': Sizes)
  {
    var p := PaddedSizes(s, j);
    Reserved(p, more).(len := p.len + more)
  }

  lemma {:induction false} GrownTwice(n: nat, a: nat, b: nat)
    requires a <= b
    ensures Grown(Grown(n, a), b) == Grown(n, b)
    decreases a - n
  {
    if n < a {
      GrownTwice(Doubled(n), a, b);
    }
  }

  /** Reserving twice grows no further than reserving once for all, and moves each element at most twice. */
  lemma InsertedAtOnce(s: Sizes, j: nat, more: nat)
    requires IsCapacity(s.cap) && s.len <= s.cap
    ensures var s', len := InsertedSizes(s, j, more), (if s.len < j then j else s.len) + more;
            && s'.len == len && s'.cap == Grown(s.cap, len)
            && s'.moved <= s.moved + s.len + (len - more) && (len <= s.cap ==> s'.moved == s.moved)
  {
    hide IsCapacity;
    GrownIsLeast(s.cap, j);
    GrownTwice(s.cap, j, (if s.len < j then j else s.len) + more);
  }

  function PushMany(k: nat): (s: Sizes)
  {
    if k == 0 then Sizes(0, 0, 0) else Pushed(PushMany(k - 1))
  }

  lemma GrownByOne(n: nat, len: nat)
    requires IsCapacity(n) && len <= n
    ensures Grown(n, len + 1) == if len < n then n else Doubled(n)
    ensures n == 0 || 8 <= n
  {
    if len == n {
      assert Grown(Doubled(n), len + 1) == Doubled(n);
    }
  }

  /** What pushes alone keep: the elements moved so far are the capacity less 8, and a capacity beyond
      the first one is less than twice the length. */
  ghost predicate Cheap(s: Sizes)
  {
    && s.len <= s.cap && IsCapacity(s.cap)
    && (if s.cap == 0 then s.moved == 0 else s.moved == s.cap - 8)
    && (8 < s.cap ==> s.cap < 2 * s.len)
  }

  lemma PushKeepsCheap(s: Sizes)
    requires Cheap(s)
    ensures Cheap(Pushed(s)) && Pushed(s).len == s.len + 1 && 8 <= Pushed(s).cap
  {
    hide IsCapacity, Grown;
    DoubledIsCapacity(s.cap);
    GrownByOne(s.cap, s.len);
  }

  /** k pushes to an empty array move fewer than 2k elements in all: exactly the capacity less 8, once
      there is one. */
  lemma {:induction false} PushesMoveFew(k: nat)
    ensures Cheap(PushMany(k)) && PushMany(k).len == k
    ensures 0 < k ==> PushMany(k).moved == PushMany(k).cap - 8 < 2 * k
    ensures k == 0 ==> PushMany(k).moved == 0 == PushMany(k).cap
  {
    hide IsCapacity, Pushed;
    if k == 0 {
      NoCapacity();
    } else {
      PushesMoveFew(k - 1);
      PushKeepsCheap(PushMany(k - 1));
    }
  }

  lemma NoCapacity()
    ensures IsCapacity(0)
  {
  }

  // ----- contents ------------------------------------------------------------------------

  function Zeros<T>(n: nat, zero: T): (r: seq<T>)
    ensures |r| == n && forall k :: 0 <= k < n ==> r[k] == zero
  {
    seq(n, _ => zero)
  }

  /** s, with zeroed elements up to length n. */
  function Padded<T>(s: seq<T>, n: nat, zero: T): (r: seq<T>)
    ensures |r| == if |s| < n then n else |s|
  {
    s + Zeros(Padding(s, n), zero)
  }

  function Padding<T>(s: seq<T>, n: nat): (k: nat)
  {
    if |s| < n then n - |s| else 0
  }

  /** t put into s at j. */
  function Spliced<T>(s: seq<T>, j: nat, t: seq<T>, zero: T): (r: seq<T>)
    ensures if j <= |s| then r == s[..j] + t + s[j..] else r == s + seq(j - |s|, _ => zero) + t
  {
    var u := Padded(s, j, zero);
    u[..j] + t + u[j..]
  }

  function Erased<T>(s: seq<T>, pos: nat, len: nat): (r: seq<T>)
    requires pos + len <= |s|
  {
    s[..pos] + s[pos + len..]
  }

  /** Erasing undoes an insertion, up to the padding. */
  lemma EraseUndoesInsert<T>(s: seq<T>, j: nat, t: seq<T>, zero: T)
    ensures Erased(Spliced(s, j, t, zero), j, |t|) == Padded(s, j, zero)
  {
    var u := Padded(s, j, zero);
    assert Spliced(s, j, t, zero)[..j] == u[..j] && Spliced(s, j, t, zero)[j + |t|..] == u[j..];
  }

  /** Inserting an array is inserting its elements one behind the other. */
  lemma InsertOneByOne<T>(s: seq<T>, j: nat, t: seq<T>, x: T, zero: T)
    ensures Spliced(s, j, t + [x], zero) == Spliced(Spliced(s, j, t, zero), j + |t|, [x], zero)
  {
    var u := Padded(s, j, zero);
    var v := Spliced(s, j, t, zero);
    assert v[..j + |t|] == u[..j] + t && v[j + |t|..] == u[j..];
  }

  /** What memmove makes of a block. */
  function Shifted<T>(d: seq<T>, dst: nat, src: nat, len: nat): (r: seq<T>)
    requires dst + len <= |d| && src + len <= |d|
    ensures |r| == |d|
  {
    d[..dst] + d[src..src + len] + d[dst + len..]
  }

  /** A block holds u, with a gap of length len at j. */
  ghost predicate RoomIn<T>(d: seq<T>, u: seq<T>, j: nat, len: nat)
  {
    j <= |u| && |u| + len <= |d| && d[..j] == u[..j] && d[j + len..|u| + len] == u[j..]
  }

  /** t written into a gap of its length at j in u. */
  lemma GapFilled<T>(u: seq<T>, j: nat, t: seq<T>, before: seq<T>)
    requires RoomIn(before, u, j, |t|)
    ensures (before[..j] + t + before[j + |t|..])[..|u| + |t|] == u[..j] + t + u[j..]
  {
  }

  // ----- an array inserted into itself ------------------------------------------------------

  /** Element k of u[..j] repeated for ever. */
  function Cycle<T>(u: seq<T>, j: nat, k: nat): (x: T)
    requires 0 < j <= |u|
    decreases k
  {
    if k < j then u[k] else Cycle(u, j, k - j)
  }

  /** What the copying loop, going upwards, copies to positions j and on when it copies u from position 0 of
      the same array: beyond the first j elements it copies its own copies. */
  function SelfCopies<T>(u: seq<T>, j: nat): (r: seq<T>)
    requires j <= |u|
    ensures |r| == |u|
  {
    if j == 0 then u else seq(|u|, k requires 0 <= k => Cycle(u, j, k))
  }

  /** What inserting s into itself at j makes of it. */
  function SelfSpliced<T>(s: seq<T>, j: nat, zero: T): (r: seq<T>)
  {
    var u := Padded(s, j, zero);
    u[..j] + SelfCopies(u, j) + u[j..]
  }

  /** The elements of s from position j on repeat those before them. */
  ghost predicate Repeats<T>(s: seq<T>, j: nat)
  {
    forall m :: j <= m < |s| ==> s[m] == s[m - j]
  }

  lemma {:induction false} CycleOfRepeats<T>(u: seq<T>, j: nat, k: nat)
    requires 0 < j <= |u| && Repeats(u, j) && k < |u|
    ensures Cycle(u, j, k) == u[k]
    decreases k
  {
    if j <= k {
      CycleOfRepeats(u, j, k - j);
    }
  }

  lemma SelfCopiesAreFaithful<T>(u: seq<T>, j: nat)
    requires j <= |u|
    ensures SelfCopies(u, j) == u <==> j == 0 || Repeats(u, j)
  {
    if 0 < j {
      var r := SelfCopies(u, j);
      if Repeats(u, j) {
        forall k | 0 <= k < |u| ensures r[k] == u[k] {
          CycleOfRepeats(u, j, k);
        }
      }
      if r == u {
        forall m | j <= m < |u| ensures u[m] == u[m - j] {
          assert r[m] == Cycle(u, j, m - j) == r[m - j];
        }
      }
    }
  }

  lemma SameMiddle<T>(a: seq<T>, x: seq<T>, y: seq<T>, b: seq<T>)
    requires |x| == |y|
    ensures a + x + b == a + y + b <==> x == y
  {
    assert (a + x + b)[|a|..|a| + |x|] == x && (a + y + b)[|a|..|a| + |y|] == y;
  }

  /** An array that is not empty is inserted into itself as it should be exactly when the position is in the
      array and is its beginning, or its elements repeat from there on: always at either end. */
  lemma SelfInsertIsSplice<T>(s: seq<T>, j: nat, zero: T)
    requires s != []
    ensures SelfSpliced(s, j, zero) == Spliced(s, j, s, zero) <==> j <= |s| && (j == 0 || Repeats(s, j))
    ensures |s| < j ==> SelfSpliced(s, j, zero) == Padded(s, j, zero) + Padded(s, j, zero)
  {
    hide SelfCopies;
    var u := Padded(s, j, zero);
    SelfCopiesAreFaithful(u, j);
    if j <= |s| {
      assert u == s;
      SameMiddle(s[..j], SelfCopies(s, j), s, s[j..]);
    } else {
      assert u[..j] == u && u[j..] == [];
      assert |SelfSpliced(s, j, zero)| == 2 * j && |Spliced(s, j, s, zero)| == j + |s|;
    }
  }

  /** Two different elements, inserted into their own array between themselves: one of them is lost. */
  lemma SelfInsertFails<T>(x: T, y: T, zero: T)
    requires x != y
    ensures SelfSpliced([x, y], 1, zero) == [x, x, x, y]
    ensures Spliced([x, y], 1, [x, y], zero) == [x, x, y, y]
  {
    assert SelfCopies([x, y], 1) == [x, x];
  }

  // ----- what is constructed and destroyed ------------------------------------------------------

  /** Every element constructed is in the array or was destroyed, as often as it was constructed. */
  ghost predicate Balanced<T>(constructed: seq<T>, destroyed: seq<T>, s: seq<T>)
  {
    multiset(constructed) == multiset(destroyed) + multiset(s)
  }

  lemma BalancedMore<T>(c: seq<T>, x: seq<T>, s: seq<T>, j: nat, t: seq<T>)
    requires Balanced(c, x, s) && j <= |s|
    ensures Balanced(c + t, x, s[..j] + t + s[j..])
  {
    assert s == s[..j] + s[j..];
  }

  lemma BalancedLess<T>(c: seq<T>, x: seq<T>, s: seq<T>, pos: nat, len: nat)
    requires Balanced(c, x, s) && pos + len <= |s|
    ensures Balanced(c, x + s[pos..pos + len], Erased(s, pos, len))
  {
    assert s == s[..pos] + s[pos..pos + len] + s[pos + len..];
  }

  lemma BalancedAtEnd<T>(c: seq<T>, x: seq<T>, s: seq<T>, t: seq<T>)
    requires Balanced(c, x, s)
    ensures Balanced(c + t, x, s + t)
  {
  }

  lemma BalancedCut<T>(c: seq<T>, x: seq<T>, s: seq<T>, num: nat)
    requires Balanced(c, x, s) && num <= |s|
    ensures Balanced(c, x + s[num..], s[..num])
  {
    assert s == s[..num] + s[num..];
  }

  lemma NothingBalanced<T>()
    ensures Balanced<T>([], [], [])
  {
  }

  // ----- the code ------------------------------------------------------------------------

  class UtArray<T(0)> {
    var i: nat
    var n: nat
    var d: array<T>
    const zero: T              // what the initializer, or memset, stores
    var moved: nat             // by realloc
    var constructed: seq<T>    // what the initializer and the copy constructor stored, in this order
    var destroyed: seq<T>      // what the destructor was called for, in this order

    ghost predicate Shaped()
      reads this
    {
      d.Length == n && i <= n && IsCapacity(n)
    }

    ghost predicate Valid()
      reads this, d
    {
      Shaped() && Balanced(constructed, destroyed, Contents())
    }

    ghost function Contents(): (s: seq<T>)
      requires i <= d.Length
      reads this, d
    {
      d[..i]
    }

    ghost function SizesNow(): (s: Sizes)
      reads this
    {
      Sizes(i, n, moved)
    }

    /** utarray_init. */
    constructor (zero: T)
      ensures Valid() && Contents() == [] && SizesNow() == PushMany(0) && this.zero == zero && fresh(d)
      ensures constructed == [] == destroyed
    {
      i, n, this.zero, moved, constructed, destroyed := 0, 0, zero, 0, [], [];
      d := new T[0];
      new;
      NothingBalanced<T>();
      assert Contents() == [];
    }

    /** utarray_reserve. */
    method Reserve(more: nat)
      requires Shaped()
      modifies this`n, this`d, this`moved
      ensures Shaped() && SizesNow() == Reserved(old(SizesNow()), more) && i + more <= n
      ensures Contents() == old(Contents()) && (d == old(d) || fresh(d))
    {
      hide IsCapacity;
      GrownIsLeast(n, i + more);
      if i + more > n {
        while i + more > n
          modifies this`n
          invariant Grown(n, i + more) == Grown(old(n), i + more) && i == old(i) && d == old(d)
          invariant moved == old(moved) && old(n) <= n
          decreases i + more - n
        {
          n := if n != 0 then 2 * n else 8;
        }
        d := Realloc(n);
        moved := moved + i;
      }
    }

    /** realloc: a block of the new size with the old elements. */
    method Realloc(size: nat) returns (tmp: array<T>)
      requires i <= d.Length && i <= size
      ensures fresh(tmp) && tmp.Length == size && tmp[..i] == Contents()
    {
      tmp := new T[size](_ => zero);
      forall k | 0 <= k < i {
        tmp[k] := d[k];
      }
    }

    /** memmove within the array. */
    method Move(dst: nat, src: nat, len: nat)
      requires dst + len <= d.Length && src + len <= d.Length
      modifies d
      ensures d[..] == Shifted(old(d[..]), dst, src, len)
    {
      ghost var before := d[..];
      forall k | 0 <= k < len {
        d[dst + k] := d[src + k];
      }
      Moved(before, d[..], dst, src, len);
    }

    /** The loops that call the destructor. */
    method Destroy(lo: nat, hi: nat)
      requires lo <= hi <= d.Length
      modifies this`destroyed
      ensures destroyed == old(destroyed) + d[lo..hi]
    {
      var k := lo;
      while k < hi
        invariant lo <= k <= hi && destroyed == old(destroyed) + d[lo..k]
      {
        destroyed := destroyed + [d[k]];
        k := k + 1;
      }
    }

    /** utarray_push_back. */
    method PushBack(p: T)
      requires Valid()
      modifies this, d
      ensures Valid() && SizesNow() == Pushed(old(SizesNow())) && (d == old(d) || fresh(d))
      ensures Contents() == old(Contents()) + [p]
      ensures constructed == old(constructed) + [p] && destroyed == old(destroyed)
    {
      hide IsCapacity, Balanced;
      BalancedAtEnd(constructed, destroyed, Contents(), [p]);
      Reserve(1);
      StoreBack(p);
      constructed := constructed + [p];
    }

    method StoreBack(p: T)
      requires i < d.Length
      modifies this`i, d
      ensures i == old(i) + 1 && Contents() == old(Contents()) + [p]
    {
      d[i] := p;
      i := i + 1;
    }

    /** utarray_pop_back. */
    method PopBack()
      requires Valid() && 0 < i
      modifies this
      ensures Valid() && d == old(d) && SizesNow() == old(SizesNow()).(len := old(i) - 1)
      ensures Contents() == old(Contents()[..i - 1])
      ensures constructed == old(constructed) && destroyed == old(destroyed) + [old(Contents()[i - 1])]
    {
      hide IsCapacity, Balanced;
      BalancedCut(constructed, destroyed, Contents(), i - 1);
      i := i - 1;
      destroyed := destroyed + [d[i]];
      assert old(Contents())[i..] == [d[i]] && Contents() == old(Contents())[..i];
    }

    /** utarray_extend_back. */
    method ExtendBack()
      requires Valid()
      modifies this, d
      ensures Valid() && SizesNow() == Pushed(old(SizesNow())) && (d == old(d) || fresh(d))
      ensures Contents() == old(Contents()) + [zero]
      ensures constructed == old(constructed) + [zero] && destroyed == old(destroyed)
    {
      PushBack(zero);
    }

    /** The initializing loop of utarray_resize. */
    method InitTo(num: nat)
      requires i <= num <= d.Length
      modifies d, this`constructed
      ensures d[..num] == Padded(old(Contents()), num, zero)
      ensures constructed == old(constructed) + Zeros(num - i, zero)
    {
      ghost var s := Contents();
      var k := i;
      while k < num
        invariant i <= k <= num && d[..k] == s + Zeros(k - i, zero)
        invariant constructed == old(constructed) + Zeros(k - i, zero)
      {
        d[k] := zero;
        constructed := constructed + [zero];
        k := k + 1;
        assert Zeros(k - i, zero) == Zeros(k - 1 - i, zero) + [zero];
      }
    }

    /** utarray_resize: truncates, or pads with zeroed elements. */
    method Resize(num: nat)
      requires Valid()
      modifies this, d
      ensures Valid() && (d == old(d) || fresh(d)) && i == num
      ensures SizesNow() == if num <= old(i) then old(SizesNow()).(len := num) else PaddedSizes(old(SizesNow()), num)
      ensures Contents() == if num <= old(i) then old(Contents())[..num] else Padded(old(Contents()), num, zero)
      ensures constructed == old(constructed) + Zeros(Padding(old(Contents()), num), zero)
      ensures destroyed == old(destroyed) + if num < old(i) then old(Contents())[num..] else []
    {
      hide IsCapacity, Balanced, Zeros, Padded;
      if num <= i { NoPadding(Contents(), num, zero); }
      if i > num {
        Truncate(num);
      } else if i < num {
        Extend(num);
      }
    }

    method Truncate(num: nat)
      requires Valid() && num <= i
      modifies this`i, this`destroyed
      ensures Valid() && i == num && Contents() == old(Contents())[..num]
      ensures destroyed == old(destroyed) + old(Contents())[num..]
    {
      hide IsCapacity, Balanced;
      ghost var s := Contents();
      BalancedCut(constructed, destroyed, s, num);
      assert s[num..] == d[num..i] && s[..num] == d[..num];
      Destroy(num, i);
      i := num;
    }

    method Extend(num: nat)
      requires Valid() && i <= num
      modifies this, d
      ensures Valid() && (d == old(d) || fresh(d)) && i == num && destroyed == old(destroyed)
      ensures SizesNow() == PaddedSizes(old(SizesNow()), num)
      ensures Contents() == Padded(old(Contents()), num, zero)
      ensures constructed == old(constructed) + Zeros(Padding(old(Contents()), num), zero)
    {
      hide IsCapacity, Balanced, Zeros;
      BalancedAtEnd(constructed, destroyed, Contents(), Zeros(num - i, zero));
      Reserve(num - i);
      InitTo(num);
      i := num;
    }

    /** Makes room for len elements at j, by utarray_reserve and memmove. */
    method OpenGap(j: nat, len: nat)
      requires Shaped() && j <= i
      modifies this`n, this`d, this`moved, d
      ensures Shaped() && i + len <= n && (d == old(d) || fresh(d))
      ensures SizesNow() == Reserved(old(SizesNow()), len)
      ensures HasRoom(old(Contents()), j, len)
      ensures i <= j + len ==> d[..][..i] == old(Contents())
    {
      hide IsCapacity, Grown, RoomIn, Shifted;
      Reserve(len);
      ghost var u := Contents();
      assert d[..][..i] == u;
      GapOpened(d[..], u, j, len);
      if j < i {
        Move(j + len, j, i - j);
      }
    }

    /** The array holds u, with a gap of length len at j. */
    ghost predicate HasRoom(u: seq<T>, j: nat, len: nat)
      reads this, d
    {
      |u| == i && RoomIn(d[..], u, j, len)
    }

    /** The part that both insertions begin with: pads up to j, and makes room there. */
    method MakeRoom(j: nat, len: nat) returns (ghost u: seq<T>)
      requires Valid()
      modifies this, d
      ensures Shaped() && (d == old(d) || fresh(d)) && Balanced(constructed, destroyed, u)
      ensures SizesNow() == Reserved(PaddedSizes(old(SizesNow()), j), len)
      ensures u == Padded(old(Contents()), j, zero) && HasRoom(u, j, len) && j <= |u| == i && i + len <= n
      ensures i <= j + len ==> d[..][..i] == u
      ensures constructed == old(constructed) + Zeros(Padding(old(Contents()), j), zero)
      ensures destroyed == old(destroyed)
    {
      hide IsCapacity, Grown, Zeros, Balanced, Padded, RoomIn;
      if j <= i { NoPadding(Contents(), j, zero); }
      if j > i {
        Resize(j);
      }
      u := Contents();
      OpenGap(j, len);
    }

    /** The end of both insertions: t has been stored in the gap. */
    method CloseGap(ghost u: seq<T>, j: nat, len: nat, t: seq<T>)
      requires Shaped() && Balanced(constructed, destroyed, u) && j <= |u| == i && |t| == len && i + len <= n
      requires d[..i + len] == u[..j] + t + u[j..]
      modifies this`i, this`constructed
      ensures Valid() && Contents() == u[..j] + t + u[j..] && constructed == old(constructed) + t
    {
      hide IsCapacity, Balanced;
      BalancedMore(constructed, destroyed, u, j, t);
      constructed := constructed + t;
      i := i + len;
    }

    /** utarray_insert. */
    method Insert(p: T, j: nat)
      requires Valid()
      modifies this, d
      ensures Valid() && (d == old(d) || fresh(d))
      ensures SizesNow() == InsertedSizes(old(SizesNow()), j, 1)
      ensures Contents() == Spliced(old(Contents()), j, [p], zero)
      ensures constructed == old(constructed) + Zeros(Padding(old(Contents()), j), zero) + [p]
      ensures destroyed == old(destroyed)
    {
      hide IsCapacity, Padded, Zeros, Balanced;
      ghost var u := MakeRoom(j, 1);
      Store(u, j, p);
      CloseGap(u, j, 1, [p]);
    }

    method Store(ghost u: seq<T>, j: nat, p: T)
      requires HasRoom(u, j, 1)
      modifies d
      ensures d[..i + 1] == u[..j] + [p] + u[j..]
    {
      ghost var before := d[..];
      GapFilled(u, j, [p], before);
      d[j] := p;
      assert d[..] == before[..j] + [p] + before[j + 1..];
    }

    /** utarray_inserta: the elements of w at j. An empty w changes nothing, not even by padding. The array
        may be its own w; then the loop reads what it has written. */
    method InsertArray(w: UtArray<T>, j: nat)
      requires Valid() && w.Valid() && (w != this ==> w.d != d)
      modifies this, d
      ensures Valid() && (d == old(d) || fresh(d)) && destroyed == old(destroyed)
      ensures old(w.Contents()) == [] ==>
                Contents() == old(Contents()) && constructed == old(constructed) && SizesNow() == old(SizesNow())
      ensures old(w.Contents()) != [] ==>
                SizesNow() == InsertedSizes(old(SizesNow()), j, if w == this && old(i) < j then j else old(w.i))
      ensures old(w.Contents()) != [] && w != this ==>
                && Contents() == Spliced(old(Contents()), j, old(w.Contents()), zero)
                && constructed == old(constructed) + Zeros(Padding(old(Contents()), j), zero) + old(w.Contents())
      ensures old(w.Contents()) != [] && w == this ==>
                && Contents() == SelfSpliced(old(Contents()), j, zero)
                && constructed == old(constructed) + Zeros(Padding(old(Contents()), j), zero)
                                  + SelfCopies(Padded(old(Contents()), j, zero), j)
    {
      hide IsCapacity, Padded, Zeros, Balanced, HasRoom, SelfCopies;
      if w.i != 0 {
        if w == this {
          InsertSelf(j);
        } else {
          ghost var t := w.Contents();
          var len := w.i;
          ghost var u := MakeRoom(j, len);
          CopyOther(w, j, u);
          CloseGap(u, j, len, w.d[..len]);
        }
      }
    }

    /** The same with the array itself: its length is that after the padding. */
    method InsertSelf(j: nat)
      requires Valid() && 0 < i
      modifies this, d
      ensures Valid() && (d == old(d) || fresh(d)) && destroyed == old(destroyed)
      ensures Contents() == SelfSpliced(old(Contents()), j, zero)
      ensures SizesNow() == InsertedSizes(old(SizesNow()), j, if j > old(i) then j else old(i))
      ensures constructed == old(constructed) + Zeros(Padding(old(Contents()), j), zero)
                             + SelfCopies(Padded(old(Contents()), j, zero), j)
    {
      hide IsCapacity, Padded, Zeros, Balanced, HasRoom, SelfCopies;
      var len := if j > i then j else i;
      ghost var u := MakeRoom(j, len);
      CopySelf(j, u);
      CloseGap(u, j, len, d[j..j + len]);
    }

    method CopyOther(w: UtArray<T>, j: nat, ghost u: seq<T>)
      requires w.i <= w.d.Length && HasRoom(u, j, w.i) && w.d != d
      modifies d
      ensures d[..i + w.i] == u[..j] + w.d[..w.i] + u[j..]
    {
      GapFilled(u, j, w.Contents(), d[..]);
      CopyLoop(w, j);
    }

    /** The copying loop of utarray_inserta, from another array. */
    method CopyLoop(w: UtArray<T>, j: nat)
      requires w.i <= w.d.Length && j + w.i <= d.Length && w.d != d
      modifies d
      ensures d[..] == old(d[..j]) + w.d[..w.i] + old(d[j + w.i..])
    {
      ghost var t, before := w.Contents(), d[..];
      var k := 0;
      while k < w.i
        invariant 0 <= k <= w.i
        invariant forall m :: 0 <= m < d.Length ==> d[m] == if j <= m < j + k then t[m - j] else before[m]
      {
        d[j + k] := w.d[k];
        k := k + 1;
      }
      assert d[..] == before[..j] + t + before[j + w.i..];
    }

    method CopySelf(j: nat, ghost u: seq<T>)
      requires HasRoom(u, j, i) && d[..][..i] == u
      modifies d
      ensures d[..i + i] == u[..j] + SelfCopies(u, j) + u[j..]
      ensures d[j..j + i] == SelfCopies(u, j)
    {
      GapFilled(u, j, SelfCopies(u, j), d[..]);
      CopySelfLoop(j, u);
      assert d[j..j + i] == d[..][j..j + i];
    }

    /** The copying loop, from the array itself. */
    method CopySelfLoop(j: nat, ghost u: seq<T>)
      requires j <= |u| == i && j + i <= d.Length && d[..][..i] == u
      modifies d
      ensures d[..] == old(d[..j]) + SelfCopies(u, j) + old(d[j + i..])
    {
      ghost var before := d[..];
      var k := 0;
      while k < i
        invariant 0 <= k <= i
        invariant forall m :: 0 <= m < j + k ==> d[m] == if j == 0 then u[m] else Cycle(u, j, m)
        invariant forall m :: j + k <= m < d.Length ==> d[m] == before[m]
      {
        assert j == 0 ==> d[k] == before[k] == u[k];
        d[j + k] := d[k];
        k := k + 1;
      }
      forall m | 0 <= m < i ensures d[j + m] == SelfCopies(u, j)[m] {
      }
      forall m | 0 <= m < j ensures d[m] == before[m] {
        assert before[m] == u[m];
      }
      assert d[..] == before[..j] + SelfCopies(u, j) + before[j + i..];
    }

    /** utarray_concat. */
    method Concat(src: UtArray<T>)
      requires Valid() && src.Valid() && (src != this ==> src.d != d)
      modifies this, d
      ensures Valid() && (d == old(d) || fresh(d))
      ensures Contents() == old(Contents()) + old(src.Contents())
      ensures old(src.i) != 0 ==> SizesNow() == InsertedSizes(old(SizesNow()), old(i), old(src.i))
      ensures old(src.i) == 0 ==> SizesNow() == old(SizesNow())
      ensures constructed == old(constructed) + old(src.Contents()) && destroyed == old(destroyed)
    {
      hide IsCapacity, Balanced, Spliced, SelfSpliced, SelfCopies, Padded, Padding, Zeros, InsertedSizes;
      AtTheEnd(Contents(), src.Contents(), zero);
      InsertArray(src, i);
    }

    /** utarray_erase. */
    method Erase(pos: nat, len: nat)
      requires Valid() && pos + len <= i
      modifies this, d
      ensures Valid() && d == old(d) && SizesNow() == old(SizesNow()).(len := old(i) - len)
      ensures Contents() == Erased(old(Contents()), pos, len)
      ensures constructed == old(constructed) && destroyed == old(destroyed) + old(Contents())[pos..pos + len]
    {
      hide IsCapacity, Balanced, Erased;
      ghost var s := Contents();
      BalancedLess(constructed, destroyed, s, pos, len);
      SliceOfPrefix(d[..], i, pos, pos + len);
      Destroy(pos, pos + len);
      CloseUp(pos, len);
    }

    /** The memmove of utarray_erase. */
    method CloseUp(pos: nat, len: nat)
      requires pos + len <= i <= d.Length
      modifies this`i, d
      ensures i == old(i) - len && Contents() == Erased(old(Contents()), pos, len)
    {
      if i > pos + len {
        Move(pos, pos + len, i - (pos + len));
      }
      i := i - len;
    }

    /** utarray_clear. */
    method Clear()
      requires Valid()
      modifies this
      ensures Valid() && d == old(d) && SizesNow() == old(SizesNow()).(len := 0) && Contents() == []
      ensures constructed == old(constructed) && destroyed == old(destroyed) + old(Contents())
    {
      hide IsCapacity, Balanced;
      ghost var s := Contents();
      BalancedCut(constructed, destroyed, s, 0);
      if i > 0 {
        Destroy(0, i);
        i := 0;
      }
      assert s[0..] == s && s[..0] == [] == Contents();
    }
  }

  lemma SliceOfPrefix<T>(s: seq<T>, n: nat, lo: nat, hi: nat)
    requires lo <= hi <= n <= |s|
    ensures s[..n][lo..hi] == s[lo..hi]
  {
  }

  /** What memmove does, element by element. */
  lemma Moved<T>(before: seq<T>, after: seq<T>, dst: nat, src: nat, len: nat)
    requires dst + len <= |before| == |after| && src + len <= |before|
    requires forall m :: 0 <= m < |before| ==> after[m] == before[if dst <= m < dst + len then m - dst + src else m]
    ensures after == Shifted(before, dst, src, len)
  {
  }

  /** Moving the elements from j on up by len leaves a gap of that length, with the old elements in it. */
  lemma GapOpened<T>(before: seq<T>, u: seq<T>, j: nat, len: nat)
    requires j <= |u| && |u| + len <= |before| && before[..|u|] == u
    ensures RoomIn(Shifted(before, j + len, j, |u| - j), u, j, len)
    ensures |u| <= j + len ==> Shifted(before, j + len, j, |u| - j)[..|u|] == u
    ensures j == |u| ==> RoomIn(before, u, j, len)
  {
    var after := Shifted(before, j + len, j, |u| - j);
    assert before[j..|u|] == u[j..] && before[..j] == u[..j];
    assert after[..j] == before[..j];
    assert after[j + len..|u| + len] == before[j..|u|];
    if |u| <= j + len {
      assert after[..|u|] == before[..|u|];
    }
  }

  lemma NoPadding<T>(s: seq<T>, num: nat, zero: T)
    requires num <= |s|
    ensures Zeros(Padding(s, num), zero) == [] && Padded(s, num, zero) == s
    ensures num == |s| ==> s[..num] == s && s[num..] == []
  {
  }

  lemma AtTheEnd<T>(s: seq<T>, t: seq<T>, zero: T)
    ensures Spliced(s, |s|, t, zero) == s + t && Zeros(Padding(s, |s|), zero) == []
    ensures s != [] ==> SelfSpliced(s, |s|, zero) == s + s && SelfCopies(Padded(s, |s|, zero), |s|) == s
  {
    hide SelfCopies;
    assert Padded(s, |s|, zero) == s && Repeats(s, |s|);
    SelfCopiesAreFaithful(s, |s|);
  }
}
