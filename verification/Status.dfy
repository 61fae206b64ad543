/** The status broadcaster of protocol_lws_status.c: every session is sent the list of live sessions as
    one fragmented message, a fragment per write, by a walk over a list that changes under it. */
module Status {
  import opened Nodes
  import opened Options

  datatype Walk = WalkNone | WalkInitial | WalkList | WalkFinal

  /** The walking part of per_session_data__lws_status. */
  datatype Session<Id> = Session(walk: Walk, walkNext: Option<Id>, subsequent: bool, changedPartway: bool)

  datatype Opcode = Text | Continuation

  /** The opening of the JSON object; an item of its array, with the comma before it and the peer listed,
      if there is one; the end of the object. */
  datatype Body<Id> = Header(conns: nat) | Item(comma: bool, peer: Option<Id>) | Footer

  datatype Frame<Id> = Frame(opcode: Opcode, fin: bool, body: Body<Id>)

  /** The live list, the sessions on it and count_live_pss. */
  datatype State<Id> = State(live: seq<Id>, pss: map<Id, Session<Id>>, joins: nat)

  // ----- lists -------------------------------------------------------------------------

  function Head<Id>(live: seq<Id>): (h: Option<Id>)
  {
    if live == [] then None else Some(live[0])
  }

  /** What follows y on the list. */
  function After<Id(==)>(live: seq<Id>, y: Id): (next: Option<Id>)
  {
    if live == [] then None
    else if live[0] == y then Head(live[1..])
    else After(live[1..], y)
  }

  lemma {:induction false} AfterAt<Id>(live: seq<Id>, i: nat)
    requires i < |live| && Distinct(live)
    ensures After(live, live[i]) == if i + 1 < |live| then Some(live[i + 1]) else None
  {
    if i > 0 {
      assert live[0] != live[i];
      AfterAt(live[1..], i - 1);
    }
  }

  function Remove<Id(==)>(live: seq<Id>, x: Id): (r: seq<Id>)
  {
    if live == [] then []
    else if live[0] == x then live[1..]
    else [live[0]] + Remove(live[1..], x)
  }

  lemma {:induction false} RemoveAt<Id>(live: seq<Id>, i: nat)
    requires i < |live| && Distinct(live)
    ensures Remove(live, live[i]) == live[..i] + live[i + 1..]
  {
    if i > 0 {
      assert live[0] != live[i];
      RemoveAt(live[1..], i - 1);
      assert [live[0]] + live[1..][..i - 1] == live[..i];
    }
  }

  lemma {:induction false} RemoveMissing<Id>(live: seq<Id>, x: Id)
    requires x !in live
    ensures Remove(live, x) == live
  {
    if live != [] {
      RemoveMissing(live[1..], x);
    }
  }

  lemma PushDistinct<Id>(live: seq<Id>, x: Id)
    requires Distinct(live) && x !in live
    ensures Distinct([x] + live)
    ensures forall y :: y in [x] + live <==> y == x || y in live
  {
    forall i, j | 0 <= i < j < |live| + 1 ensures ([x] + live)[i] != ([x] + live)[j] {
      assert ([x] + live)[j] == live[j - 1] && live[j - 1] in live;
    }
  }

  lemma {:induction false} RemoveDistinct<Id>(live: seq<Id>, x: Id)
    requires Distinct(live)
    ensures Distinct(Remove(live, x)) && x !in Remove(live, x)
    ensures forall y :: y in Remove(live, x) <==> y in live && y != x
    ensures forall i :: 0 <= i < |Remove(live, x)| ==> Remove(live, x)[i] in live
  {
    if live != [] {
      assert live == [live[0]] + live[1..];
      if live[0] != x {
        RemoveDistinct(live[1..], x);
        assert live[0] !in live[1..];
        PushDistinct(Remove(live[1..], x), live[0]);
      }
    }
  }

  // ----- the steps ---------------------------------------------------------------------

  /** What trigger_resend does to one session. */
  function Triggered<Id>(p: Session<Id>, head: Option<Id>): (p': Session<Id>)
  {
    if p.walk.WalkNone? then p.(subsequent := false, walkNext := head, walk := WalkInitial)
    else p.(changedPartway := true)
  }

  /** The writeable callback of one session: the session afterwards and the frame it writes. */
  function WriteFrame<Id(==)>(p: Session<Id>, live: seq<Id>, joins: nat): (r: (Session<Id>, Option<Frame<Id>>))
    ensures r.1.Some? && r.1.value.body.Item? && r.1.value.body.peer.Some? ==> r.1.value.body.peer.value in live
  {
    match p.walk
    case WalkNone => (p, None)
    case WalkInitial => (p.(walk := WalkList, walkNext := Head(live)), Some(Frame(Text, false, Header(joins))))
    case WalkList =>
      if p.walkNext.None? then Finished(p, live)
      else if p.walkNext.value !in live then
        (p.(subsequent := true, walk := WalkFinal, changedPartway := true),
         Some(Frame(Continuation, false, Item(p.subsequent, None))))
      else
        var next := After(live, p.walkNext.value);
        (p.(subsequent := true, walkNext := next, walk := if next.None? then WalkFinal else WalkList),
         Some(Frame(Continuation, false, Item(p.subsequent, p.walkNext))))
    case WalkFinal => Finished(p, live)
  }

  function Finished<Id>(p: Session<Id>, live: seq<Id>): (r: (Session<Id>, Option<Frame<Id>>))
  {
    (if p.changedPartway then p.(subsequent := false, walkNext := Head(live), walk := WalkInitial)
     else p.(walk := WalkNone),
     Some(Frame(Continuation, true, Footer)))
  }

  datatype Event<Id> = Join(x: Id) | Leave(x: Id) | Write(x: Id)

  function Zeroed<Id>(): (p: Session<Id>)
  {
    Session(WalkNone, None, false, false)
  }

  /** trigger_resend after the list has become live. */
  function Resent<Id(==)>(live: seq<Id>, pss: map<Id, Session<Id>>, joins: nat): (s: State<Id>)
  {
    State(live, map x | x in pss :: Triggered(pss[x], Head(live)), joins)
  }

  /** A session joins once; only live sessions become writeable. */
  function Step<Id(==)>(s: State<Id>, e: Event<Id>): (s': State<Id>)
  {
    match e
    case Join(x) => if x in s.live then s else Resent([x] + s.live, s.pss[x := Zeroed()], s.joins + 1)
    case Leave(x) => Resent(Remove(s.live, x), s.pss - {x}, s.joins)
    case Write(x) => if x in s.pss then s.(pss := s.pss[x := WriteFrame(s.pss[x], s.live, s.joins).0]) else s
  }

  /** A session has joined or left, and resending has been triggered. */
  predicate Changes<Id(==)>(s: State<Id>, e: Event<Id>)
  {
    e.Leave? || (e.Join? && e.x !in s.live)
  }

  function Run<Id(==)>(es: seq<Event<Id>>): (s: State<Id>)
  {
    if es == [] then State([], map[], 0) else Step(Run(es[..|es| - 1]), es[|es| - 1])
  }

  /** The frames written to x since it last joined. */
  function Sent<Id(==)>(es: seq<Event<Id>>, x: Id): (fs: seq<Frame<Id>>)
  {
    if es == [] then []
    else
      var s, e := Run(es[..|es| - 1]), es[|es| - 1];
      if e == Join(x) && x !in s.live then []
      else if e == Write(x) && x in s.pss then
        Sent(es[..|es| - 1], x) + Emitted(WriteFrame(s.pss[x], s.live, s.joins).1)
      else Sent(es[..|es| - 1], x)
  }

  // ----- what every step keeps -----------------------------------------------------------

  /** Which frame may follow which: a message opens with its header, in a text frame, and goes on in
      continuation frames, of which the footer alone is final; an item has a comma if and only if it
      follows another item; an item without a peer is the last one. */
  predicate Follows<Id>(prev: Option<Frame<Id>>, f: Frame<Id>)
  {
    && (f.body.Header? <==> prev.None? || prev.value.fin)
    && (f.opcode.Text? <==> f.body.Header?)
    && (f.fin <==> f.body.Footer?)
    && (f.body.Item? ==> (f.body.comma <==> prev.Some? && prev.value.body.Item?))
    && (prev.Some? && prev.value.body.Item? && prev.value.body.peer.None? ==> f.body.Footer?)
  }

  function Previous<Id>(fs: seq<Frame<Id>>, i: nat): (prev: Option<Frame<Id>>)
    requires i <= |fs|
  {
    if i == 0 then None else Some(fs[i - 1])
  }

  predicate WellFramed<Id>(fs: seq<Frame<Id>>)
  {
    forall i :: 0 <= i < |fs| ==> Follows(Previous(fs, i), fs[i])
  }

  /** Where a session is in its walk agrees with the last frame it was sent. A walk in its list phase
      has a next session; if that one has left, or anything else changed, the walk will be repeated; and
      a walk that is to be repeated is not at rest. */
  predicate SessionOk<Id(==)>(p: Session<Id>, live: seq<Id>, fs: seq<Frame<Id>>)
  {
    var last := Previous(fs, |fs|);
    && (p.walk.WalkNone? || p.walk.WalkInitial? <==> last.None? || last.value.fin)
    && (p.walk.WalkInitial? ==> !p.subsequent)
    && (p.walk.WalkList? ==>
          && p.walkNext.Some? && (p.walkNext.value in live || p.changedPartway)
          && (p.subsequent <==> last.Some? && last.value.body.Item?)
          && (last.Some? && last.value.body.Item? ==> last.value.body.peer.Some?))
    && (p.walk.WalkFinal? ==> last.Some? && last.value.body.Item?)
    && (p.changedPartway ==> !p.walk.WalkNone?)
  }

  ghost predicate Invariant<Id>(s: State<Id>, es: seq<Event<Id>>)
  {
    && Consistent(s)
    && forall x :: x in s.live ==> SessionOk(s.pss[x], s.live, Sent(es, x)) && WellFramed(Sent(es, x))
  }

  lemma HistoryStep<Id>(es: seq<Event<Id>>, e: Event<Id>, x: Id)
    ensures Run(es + [e]) == Step(Run(es), e)
    ensures e == Join(x) && x !in Run(es).live ==> Sent(es + [e], x) == []
    ensures e == Write(x) && x in Run(es).pss ==>
              Sent(es + [e], x) == Sent(es, x) + Emitted(WriteFrame(Run(es).pss[x], Run(es).live, Run(es).joins).1)
    ensures e != Write(x) && (e == Join(x) ==> x in Run(es).live) ==> Sent(es + [e], x) == Sent(es, x)
  {
    assert (es + [e])[..|es|] == es;
  }

  lemma TriggerKeeps<Id>(p: Session<Id>, live: seq<Id>, live': seq<Id>, fs: seq<Frame<Id>>)
    requires SessionOk(p, live, fs)
    ensures SessionOk(Triggered(p, Head(live')), live', fs)
    ensures Triggered(p, Head(live')).changedPartway || Triggered(p, Head(live')).walk.WalkInitial?
  {
  }

  lemma OneMoreFrame<Id>(fs: seq<Frame<Id>>, f: Frame<Id>)
    requires WellFramed(fs) && Follows(Previous(fs, |fs|), f)
    ensures WellFramed(fs + [f]) && Previous(fs + [f], |fs| + 1) == Some(f)
  {
    hide Follows;
    forall i | 0 <= i < |fs| + 1 ensures Follows(Previous(fs + [f], i), (fs + [f])[i]) {
      if i < |fs| {
        assert Follows(Previous(fs, i), fs[i]);
      }
    }
  }

  lemma LastFrame<Id>(fs: seq<Frame<Id>>)
    requires WellFramed(fs) && fs != []
    ensures Follows(Previous(fs, |fs| - 1), fs[|fs| - 1]) && Previous(fs, |fs|) == Some(fs[|fs| - 1])
  {
  }

  lemma WriteKeeps<Id>(p: Session<Id>, live: seq<Id>, joins: nat, fs: seq<Frame<Id>>)
    requires live != [] && SessionOk(p, live, fs) && WellFramed(fs) && Distinct(live)
    ensures var (p', f) := WriteFrame(p, live, joins);
            SessionOk(p', live, fs + Emitted(f)) && WellFramed(fs + Emitted(f))
  {
    hide WellFramed, Distinct, After;
    var (p', f) := WriteFrame(p, live, joins);
    if f.None? {
      assert fs + Emitted(f) == fs;
    } else {
      if fs != [] { LastFrame(fs); } else { assert Previous(fs, 0) == None; }
      OneMoreFrame(fs, f.value);
      if p.walk.WalkList? && p.walkNext.value in live {
        var i :| 0 <= i < |live| && live[i] == p.walkNext.value;
        AfterAt(live, i);
        assert i + 1 < |live| ==> live[i + 1] in live;
      }
    }
  }

  function Members<Id>(live: seq<Id>): (m: set<Id>)
  {
    set x | x in live
  }

  ghost predicate Consistent<Id>(s: State<Id>)
  {
    Distinct(s.live) && s.pss.Keys == Members(s.live)
  }

  /** What a step does to the list and to each session. */
  lemma StepAt<Id>(s: State<Id>, e: Event<Id>)
    requires Consistent(s)
    ensures Consistent(Step(s, e))
    ensures e.Join? && e.x !in s.live ==> Step(s, e).live == [e.x] + s.live
    ensures e.Join? && e.x in s.live ==> Step(s, e) == s
    ensures e.Leave? ==> Step(s, e).live == Remove(s.live, e.x) && e.x !in Step(s, e).live
    ensures e.Write? ==> Step(s, e).live == s.live
    ensures Step(s, e).joins == s.joins + if e.Join? && e.x !in s.live then 1 else 0
    ensures forall x :: x in Step(s, e).live ==> x in Step(s, e).pss
    ensures forall x :: x in s.live ==> x in s.pss
    ensures forall x :: x in Step(s, e).live && e.Join? && e.x !in s.live ==>
              Step(s, e).pss[x] == Triggered(if x == e.x then Zeroed() else s.pss[x], Head(Step(s, e).live))
    ensures forall x :: x in Step(s, e).live && e.Leave? ==>
              x in s.live && Step(s, e).pss[x] == Triggered(s.pss[x], Head(Step(s, e).live))
    ensures forall x :: x in s.live && e.Write? ==>
              Step(s, e).pss[x] == if x == e.x then WriteFrame(s.pss[x], s.live, s.joins).0 else s.pss[x]
  {
    hide Triggered, WriteFrame, Zeroed, Remove, Head, Distinct;
    if e.Leave? {
      RemoveDistinct(s.live, e.x);
      assert Step(s, e).pss.Keys == s.pss.Keys - {e.x} == Members(Remove(s.live, e.x));
    } else if e.Join? && e.x !in s.live {
      PushDistinct(s.live, e.x);
      assert Step(s, e).pss.Keys == s.pss.Keys + {e.x} == Members([e.x] + s.live);
    } else {
      assert Step(s, e).pss.Keys == s.pss.Keys;
    }
  }

  /** How many sessions have joined, those that have left included. */
  function Joins<Id(==)>(es: seq<Event<Id>>): (n: nat)
  {
    if es == [] then 0
    else
      var e := es[|es| - 1];
      Joins(es[..|es| - 1]) + if e.Join? && e.x !in Run(es[..|es| - 1]).live then 1 else 0
  }

  /** The number in the header frames is that of all joins so far: it never falls. */
  lemma {:induction false} JoinsAreCounted<Id>(es: seq<Event<Id>>)
    ensures Run(es).joins == Joins(es) && |Run(es).live| <= Joins(es)
  {
    hide Remove;
    if es != [] {
      JoinsAreCounted(es[..|es| - 1]);
      LengthOfRemove(Run(es[..|es| - 1]).live, es[|es| - 1].x);
    }
  }

  lemma {:induction false} LengthOfRemove<Id>(live: seq<Id>, x: Id)
    ensures |Remove(live, x)| == |live| - if x in live then 1 else 0
  {
    if live != [] && live[0] != x {
      LengthOfRemove(live[1..], x);
    }
  }

  lemma StepKeepsInvariant<Id>(es: seq<Event<Id>>, e: Event<Id>)
    requires Invariant(Run(es), es)
    ensures Invariant(Run(es + [e]), es + [e])
  {
    hide Run, Sent, SessionOk, WellFramed, WriteFrame, Triggered, Zeroed, Step, Distinct, Remove, Head;
    var s, s', es' := Run(es), Run(es + [e]), es + [e];
    HistoryStep(es, e, e.x);
    StepAt(s, e);
    forall x | x in s'.live ensures SessionOk(s'.pss[x], s'.live, Sent(es', x)) && WellFramed(Sent(es', x)) {
      HistoryStep(es, e, x);
      if e.Join? && x == e.x && x !in s.live {
        NewSession(s'.live);
      } else if e.Leave? || (e.Join? && e.x !in s.live) {
        TriggerKeeps(s.pss[x], s.live, s'.live, Sent(es, x));
      } else if e == Write(x) {
        WriteKeeps(s.pss[x], s.live, s.joins, Sent(es, x));
      }
    }
  }

  lemma NewSession<Id>(live: seq<Id>)
    ensures SessionOk(Triggered(Zeroed(), Head(live)), live, []) && WellFramed<Id>([])
  {
  }

  lemma {:induction false} RunKeepsInvariant<Id>(es: seq<Event<Id>>)
    ensures Invariant(Run(es), es)
  {
    hide Step, Sent, SessionOk, WellFramed;
    if es != [] {
      RunKeepsInvariant(es[..|es| - 1]);
      StepKeepsInvariant(es[..|es| - 1], es[|es| - 1]);
      assert es[..|es| - 1] + [es[|es| - 1]] == es;
    }
  }

  // ----- one session, written several times ----------------------------------------------

  /** n writeable callbacks in a row. */
  function Drive<Id(==)>(p: Session<Id>, live: seq<Id>, joins: nat, n: nat): (r: (Session<Id>, seq<Frame<Id>>))
  {
    if n == 0 then (p, [])
    else
      var (q, fs) := Drive(p, live, joins, n - 1);
      var (q', f) := WriteFrame(q, live, joins);
      (q', fs + Emitted(f))
  }

  lemma {:induction false} DriveSplit<Id>(p: Session<Id>, live: seq<Id>, joins: nat, m: nat, n: nat)
    ensures var (q, fs) := Drive(p, live, joins, m);
            Drive(p, live, joins, m + n) == (Drive(q, live, joins, n).0, fs + Drive(q, live, joins, n).1)
  {
    hide WriteFrame;
    var (q, fs) := Drive(p, live, joins, m);
    if n == 0 {
      assert fs + [] == fs;
    } else {
      DriveSplit(p, live, joins, m, n - 1);
      var (q', gs) := Drive(q, live, joins, n - 1);
      assert m + n - 1 == m + (n - 1);
      assert (fs + gs) + Emitted(WriteFrame(q', live, joins).1) == fs + (gs + Emitted(WriteFrame(q', live, joins).1));
    }
  }

  lemma {:induction false} DriveKeeps<Id>(p: Session<Id>, live: seq<Id>, joins: nat, fs: seq<Frame<Id>>, n: nat)
    requires live != [] && SessionOk(p, live, fs) && WellFramed(fs) && Distinct(live)
    ensures var (q, gs) := Drive(p, live, joins, n);
            && SessionOk(q, live, fs + gs) && WellFramed(fs + gs)
            && (p.changedPartway ==> q.changedPartway)
  {
    hide SessionOk, WellFramed, Distinct;
    if n == 0 {
      assert fs + [] == fs;
    } else {
      DriveKeeps(p, live, joins, fs, n - 1);
      var (q, gs) := Drive(p, live, joins, n - 1);
      WriteKeeps(q, live, joins, fs + gs);
      assert fs + (gs + Emitted(WriteFrame(q, live, joins).1)) == (fs + gs) + Emitted(WriteFrame(q, live, joins).1);
    }
  }

  /** The items for live[i..]; the first has a comma if items came before. */
  function Items<Id>(live: seq<Id>, i: nat, before: bool): (fs: seq<Frame<Id>>)
    requires i <= |live|
  {
    seq(|live| - i, k requires 0 <= k < |live| - i =>
      Frame(Continuation, false, Item(before || k > 0, Some(live[i + k]))))
  }

  /** The whole message: the header, every live session once and in order, the footer. */
  function Listing<Id>(live: seq<Id>, joins: nat): (fs: seq<Frame<Id>>)
  {
    [Frame(Text, false, Header(joins))] + Items(live, 0, false) + [Frame(Continuation, true, Footer)]
  }

  lemma DriveOne<Id>(p: Session<Id>, live: seq<Id>, joins: nat)
    ensures Drive(p, live, joins, 0) == (p, [])
    ensures Drive(p, live, joins, 1) == (WriteFrame(p, live, joins).0, Emitted(WriteFrame(p, live, joins).1))
  {
    assert Drive(p, live, joins, 0) == (p, []);
    assert [] + Emitted(WriteFrame(p, live, joins).1) == Emitted(WriteFrame(p, live, joins).1);
  }

  lemma WriteItem<Id>(p: Session<Id>, live: seq<Id>, joins: nat, i: nat)
    requires Distinct(live) && i < |live| && p.walk.WalkList? && p.walkNext == Some(live[i])
    ensures WriteFrame(p, live, joins).0 ==
              if i + 1 == |live| then p.(subsequent := true, walkNext := None, walk := WalkFinal)
              else p.(subsequent := true, walkNext := Some(live[i + 1]))
    ensures WriteFrame(p, live, joins).1 == Some(Frame(Continuation, false, Item(p.subsequent, Some(live[i]))))
  {
    hide Distinct, After;
    AfterAt(live, i);
    assert live[i] in live;
  }

  lemma WriteGone<Id>(p: Session<Id>, live: seq<Id>, joins: nat)
    requires p.walk.WalkList? && p.walkNext.Some? && p.walkNext.value !in live
    ensures WriteFrame(p, live, joins) ==
              (p.(subsequent := true, walk := WalkFinal, changedPartway := true),
               Some(Frame(Continuation, false, Item(p.subsequent, None))))
  {
  }

  lemma {:induction false} ListPhase<Id>(p: Session<Id>, live: seq<Id>, joins: nat, i: nat, k: nat)
    requires Distinct(live) && i < |live| && k <= |live| - i && p.walk.WalkList? && p.walkNext == Some(live[i])
    ensures Drive(p, live, joins, k).0 ==
              if k == |live| - i then p.(subsequent := true, walkNext := None, walk := WalkFinal)
              else p.(subsequent := p.subsequent || k > 0, walkNext := Some(live[i + k]))
    ensures Drive(p, live, joins, k).1 == Items(live, i, p.subsequent)[..k]
  {
    hide Distinct, WriteFrame;
    if k > 0 {
      ListPhase(p, live, joins, i, k - 1);
      WriteItem(Drive(p, live, joins, k - 1).0, live, joins, i + (k - 1));
      var fs := Items(live, i, p.subsequent);
      assert fs[..k] == fs[..k - 1] + [fs[k - 1]];
    }
  }

  /** A walk that has just begun lists everybody, and then rests or begins again. */
  lemma WholeWalk<Id>(p: Session<Id>, live: seq<Id>, joins: nat)
    requires Distinct(live) && live != [] && p.walk.WalkInitial? && !p.subsequent
    ensures Drive(p, live, joins, |live| + 2).1 == Listing(live, joins)
    ensures Drive(p, live, joins, |live| + 2).0.walk == if p.changedPartway then WalkInitial else WalkNone
  {
    hide Distinct, After, Items, Drive;
    var p1 := p.(walk := WalkList, walkNext := Some(live[0]));
    var p2 := p1.(subsequent := true, walkNext := None, walk := WalkFinal);
    DriveOne(p, live, joins);
    ListPhase(p1, live, joins, 0, |live|);
    ItemsLength(live, 0, false);
    DriveOne(p2, live, joins);
    DriveSplit(p1, live, joins, |live|, 1);
    DriveSplit(p, live, joins, 1, |live| + 1);
    assert 1 + (|live| + 1) == |live| + 2;
  }

  lemma ItemsLength<Id>(live: seq<Id>, i: nat, before: bool)
    requires i <= |live|
    ensures |Items(live, i, before)| == |live| - i
    ensures Items(live, i, before)[..|live| - i] == Items(live, i, before)
  {
  }

  /** After at most |live| + 1 writes the current message is finished, and the walk rests if and only if
      nothing changed since it began. */
  lemma EndOfWalk<Id>(p: Session<Id>, live: seq<Id>, joins: nat, fs: seq<Frame<Id>>) returns (n: nat)
    requires live != [] && SessionOk(p, live, fs) && Distinct(live) && !p.walk.WalkInitial?
    ensures n <= |live| + 1
    ensures var q := Drive(p, live, joins, n).0;
            if p.changedPartway then q.walk.WalkInitial? && !q.subsequent && q.changedPartway else q.walk.WalkNone?
  {
    hide Distinct, After, Items, Drive;
    DriveOne(p, live, joins);
    if p.walk.WalkNone? {
      n := 0;
    } else if p.walk.WalkFinal? {
      n := 1;
    } else {
      var k := 1;
      if p.walkNext.value in live {
        var i :| 0 <= i < |live| && live[i] == p.walkNext.value;
        ListPhase(p, live, joins, i, |live| - i);
        k := |live| - i;
      }
      n := k + 1;
      DriveSplit(p, live, joins, k, 1);
      DriveOne(Drive(p, live, joins, k).0, live, joins);
    }
  }

  // ----- from one session to the run -----------------------------------------------------

  predicate OnlyWrites<Id>(ws: seq<Event<Id>>)
  {
    forall i :: 0 <= i < |ws| ==> ws[i].Write?
  }

  /** How often x becomes writeable. */
  function Writes<Id(==)>(ws: seq<Event<Id>>, x: Id): (n: nat)
  {
    if ws == [] then 0 else Writes(ws[..|ws| - 1], x) + if ws[|ws| - 1] == Write(x) then 1 else 0
  }

  /** As long as nobody joins or leaves, the writes to other sessions do not matter. */
  lemma {:induction false} WritesProject<Id>(es: seq<Event<Id>>, ws: seq<Event<Id>>, x: Id)
    requires OnlyWrites(ws) && x in Run(es).pss
    ensures var s, s' := Run(es), Run(es + ws);
            var (q, fs) := Drive(s.pss[x], s.live, s.joins, Writes(ws, x));
            && s'.live == s.live && s'.joins == s.joins && x in s'.pss && s'.pss[x] == q
            && Sent(es + ws, x) == Sent(es, x) + fs
  {
    hide Run, Sent, WriteFrame, Drive, Writes, OnlyWrites;
    var s := Run(es);
    if ws == [] {
      assert es + ws == es;
      assert Sent(es, x) + [] == Sent(es, x);
      NoWrites<Id>(x);
      DriveOne(s.pss[x], s.live, s.joins);
    } else {
      var ws', w := ws[..|ws| - 1], ws[|ws| - 1];
      LastWrite(ws, x);
      WritesProject(es, ws', x);
      assert es + ws == (es + ws') + [w];
      HistoryStep(es + ws', w, x);
      var (q, fs) := Drive(s.pss[x], s.live, s.joins, Writes(ws', x));
      DriveMore(s.pss[x], s.live, s.joins, Writes(ws', x));
      Associates(Sent(es, x), fs, Emitted(WriteFrame(q, s.live, s.joins).1));
    }
  }

  lemma DriveMore<Id>(p: Session<Id>, live: seq<Id>, joins: nat, n: nat)
    ensures var (q, fs) := Drive(p, live, joins, n);
            var (q', f) := WriteFrame(q, live, joins);
            Drive(p, live, joins, n + 1) == (q', fs + Emitted(f))
  {
  }

  lemma NoWrites<Id>(x: Id)
    ensures Writes([], x) == 0
  {
  }

  lemma LastWrite<Id>(ws: seq<Event<Id>>, x: Id)
    requires OnlyWrites(ws) && ws != []
    ensures OnlyWrites(ws[..|ws| - 1]) && ws[|ws| - 1].Write?
    ensures Writes(ws, x) == Writes(ws[..|ws| - 1], x) + if ws[|ws| - 1] == Write(x) then 1 else 0
  {
  }

  // ----- the theorems ----------------------------------------------------------------------

  /** Section 5.4 of RFC 6455: a message is a text frame without FIN, continuation frames without FIN, and
      a continuation frame with FIN. A sequence of such messages, the last of them perhaps incomplete, is
      one in which a text frame, without FIN, stands exactly at the start and after every final frame. */
  predicate Fragmented<Id>(fs: seq<Frame<Id>>)
  {
    forall i :: 0 <= i < |fs| ==>
      if i == 0 || fs[i - 1].fin then fs[i].opcode.Text? && !fs[i].fin else fs[i].opcode.Continuation?
  }

  /** Over every run, what a session is sent is fragmented in that way, and its last message is complete
      if and only if its walk rests or is about to begin. */
  lemma Fragmentation<Id>(es: seq<Event<Id>>, x: Id)
    requires x in Run(es).live
    ensures Fragmented(Sent(es, x)) && x in Run(es).pss
    ensures var fs := Sent(es, x);
            fs == [] || fs[|fs| - 1].fin <==> Run(es).pss[x].walk in {WalkNone, WalkInitial}
  {
    hide Run, Sent;
    Reachable(es, x);
    var fs := Sent(es, x);
    forall i | 0 <= i < |fs|
      ensures if i == 0 || fs[i - 1].fin then fs[i].opcode.Text? && !fs[i].fin else fs[i].opcode.Continuation?
    {
      assert Follows(Previous(fs, i), fs[i]);
    }
  }

  lemma Reachable<Id>(es: seq<Event<Id>>, x: Id)
    requires x in Run(es).live
    ensures Distinct(Run(es).live) && x in Run(es).pss
    ensures SessionOk(Run(es).pss[x], Run(es).live, Sent(es, x)) && WellFramed(Sent(es, x))
  {
    hide Run, Sent, SessionOk, WellFramed;
    RunKeepsInvariant(es);
    StepAt(Run(es), Write(x));
  }

  /** The list phase always has a next session, so the branch for a missing one is never taken; and that
      session is live, or has left since, in which case the walk is to be repeated. */
  lemma ListHasNext<Id>(es: seq<Event<Id>>, x: Id)
    requires x in Run(es).live
    ensures x in Run(es).pss
    ensures var s := Run(es);
            s.pss[x].walk.WalkList? ==>
              s.pss[x].walkNext.Some? && (s.pss[x].walkNext.value in s.live || s.pss[x].changedPartway)
  {
    Reachable(es, x);
  }

  /** A comma is written with no item behind it exactly when the next session has left and items have been
      written before. */
  lemma DanglingComma<Id>(es: seq<Event<Id>>, x: Id)
    requires x in Run(es).live
    ensures x in Run(es).pss
    ensures var s := Run(es);
            var (p', f) := WriteFrame(s.pss[x], s.live, s.joins);
            f.Some? && f.value.body == Item(true, None) <==>
              (s.pss[x].walk.WalkList? && s.pss[x].walkNext.Some? && s.pss[x].walkNext.value !in s.live && s.pss[x].subsequent)
  {
    Reachable(es, x);
  }

  /** Two sessions, of which session 0 has written the header. */
  lemma HeaderWritten() returns (es: seq<Event<nat>>)
    ensures var s := Run(es);
            && s.live == [0, 1] && s.joins == 2 && 0 in s.pss
            && s.pss[0] == Session(WalkList, Some(0), false, false)
    ensures Sent(es, 0) == [Frame(Text, false, Header(2))]
  {
    hide Run, Sent;
    var e0: seq<Event<nat>> := [];
    var e1: seq<Event<nat>> := e0 + [Join(1)];
    var e2 := e1 + [Join(0)];
    es := e2 + [Write(0)];
    EmptyRun();
    HistoryStep(e0, Join(1), 0);
    HistoryStep(e1, Join(0), 0);
    assert Run(e2).live == [0, 1] && Run(e2).pss[0] == Session(WalkInitial, Some(0), false, false);
    HistoryStep(e2, Write(0), 0);
  }

  /** Such a run: session 0 has listed itself when session 1, the next one, leaves. */
  lemma DanglingCommaRun() returns (es: seq<Event<nat>>)
    ensures Sent(es, 0) == [Frame(Text, false, Header(2)), Frame(Continuation, false, Item(false, Some(0))),
                            Frame(Continuation, false, Item(true, None))]
  {
    hide Run, Sent;
    var e3 := HeaderWritten();
    var e4 := e3 + [Write(0)];
    var e5 := e4 + [Leave(1)];
    es := e5 + [Write(0)];
    HistoryStep(e3, Write(0), 0);
    assert After([0, 1], 0) == Some(1) by { AfterAt([0, 1], 0); }
    assert Run(e4).live == [0, 1] && Run(e4).pss[0] == Session(WalkList, Some(1), true, false);
    HistoryStep(e4, Leave(1), 0);
    assert Remove([0, 1], 1) == [0] by { RemoveAt([0, 1], 1); }
    assert Run(e5).live == [0] && Run(e5).pss[0] == Session(WalkList, Some(1), true, true);
    HistoryStep(e5, Write(0), 0);
  }

  lemma EmptyRun()
    ensures Run<nat>([]) == State([], map[], 0)
  {
  }

  /** A walk that nobody joining or leaving disturbs: whatever the order in which the sessions become
      writeable, the next |live| + 2 frames of a session that is about to begin are the whole message. */
  lemma UndisturbedWalk<Id>(es: seq<Event<Id>>, ws: seq<Event<Id>>, x: Id)
    requires x in Run(es).live && x in Run(es).pss && Run(es).pss[x].walk.WalkInitial?
    requires OnlyWrites(ws) && Writes(ws, x) == |Run(es).live| + 2
    ensures Sent(es + ws, x) == Sent(es, x) + Listing(Run(es).live, Run(es).joins)
    ensures x in Run(es + ws).pss
    ensures Run(es + ws).pss[x].walk == if Run(es).pss[x].changedPartway then WalkInitial else WalkNone
  {
    hide Run, Sent, Drive, Writes, WellFramed, Distinct, OnlyWrites;
    Reachable(es, x);
    var s := Run(es);
    WritesProject(es, ws, x);
    WholeWalk(s.pss[x], s.live, s.joins);
  }

  /** When a session has joined or left, every live session gets to send the new list in full: after at
      most |live| + 1 further writes to it, the next |live| + 2 are the message for the new list. */
  lemma ChangeForcesFullWalk<Id>(es: seq<Event<Id>>, e: Event<Id>, x: Id) returns (n: nat)
    requires x in Run(es + [e]).live
    requires Changes(Run(es), e)
    ensures n <= |Run(es + [e]).live| + 1
    ensures forall ws :: OnlyWrites(ws) && Writes(ws, x) == n + |Run(es + [e]).live| + 2 ==>
              exists rest :: Sent(es + [e] + ws, x) ==
                               Sent(es + [e], x) + rest + Listing(Run(es + [e]).live, Run(es + [e]).joins)
  {
    hide Run, Sent, Drive, Writes, WellFramed, Distinct, OnlyWrites, Step, Listing;
    var es' := es + [e];
    var s := Run(es');
    Reachable(es', x);
    ChangeMarks(es, e, x);
    var p := s.pss[x];
    n := 0;
    DriveOne(p, s.live, s.joins);
    if !p.walk.WalkInitial? {
      n := EndOfWalk(p, s.live, s.joins, Sent(es', x));
    }
    var (q, rest) := Drive(p, s.live, s.joins, n);
    WholeWalk(q, s.live, s.joins);
    DriveSplit(p, s.live, s.joins, n, |s.live| + 2);
    forall ws | OnlyWrites(ws) && Writes(ws, x) == n + |s.live| + 2
      ensures exists rest :: Sent(es' + ws, x) == Sent(es', x) + rest + Listing(s.live, s.joins)
    {
      WritesProject(es', ws, x);
      assert Sent(es' + ws, x) == Sent(es', x) + rest + Listing(s.live, s.joins);
    }
  }

  /** After a change every live session is about to begin a walk or is to repeat the one it is in. */
  lemma ChangeMarks<Id>(es: seq<Event<Id>>, e: Event<Id>, x: Id)
    requires x in Run(es + [e]).live && Changes(Run(es), e)
    ensures x in Run(es + [e]).pss
    ensures Run(es + [e]).pss[x].walk.WalkInitial? || Run(es + [e]).pss[x].changedPartway
  {
    hide Run, Sent, SessionOk, WellFramed, Step;
    RunKeepsInvariant(es);
    HistoryStep(es, e, x);
    StepAt(Run(es), e);
  }

  /** When a session is marked for another walk: when it was already, or when somebody joins or leaves while
      it is walking. A next session found missing in the list phase marks nobody who is not marked. */
  lemma MarkedStep<Id>(es: seq<Event<Id>>, e: Event<Id>, x: Id)
    requires x in Run(es).live && x in Run(es + [e]).live
    ensures x in Run(es).pss && x in Run(es + [e]).pss
    ensures Run(es + [e]).pss[x].changedPartway <==>
              Run(es).pss[x].changedPartway || (!Run(es).pss[x].walk.WalkNone? && Changes(Run(es), e))
  {
    hide Run, Sent, WellFramed, Distinct, Remove, After;
    Reachable(es, x);
    RunKeepsInvariant(es);
    HistoryStep(es, e, x);
    StepAt(Run(es), e);
  }

  /** A session that joins has not been disturbed yet. */
  lemma FreshSession<Id>(es: seq<Event<Id>>, x: Id)
    requires x !in Run(es).live
    ensures x in Run(es + [Join(x)]).live && x in Run(es + [Join(x)]).pss
    ensures !Run(es + [Join(x)]).pss[x].changedPartway
  {
    hide Run, Sent, SessionOk, WellFramed, Distinct;
    RunKeepsInvariant(es);
    HistoryStep(es, Join(x), x);
    StepAt(Run(es), Join(x));
  }

  /** Since x joined, somebody else has joined or left while x was walking. */
  predicate Disturbed<Id(==)>(es: seq<Event<Id>>, x: Id)
  {
    es != [] &&
    var s, e := Run(es[..|es| - 1]), es[|es| - 1];
    x in s.pss && (Disturbed(es[..|es| - 1], x) || (!s.pss[x].walk.WalkNone? && Changes(s, e)))
  }

  lemma {:induction false} MarkedIfDisturbed<Id>(es: seq<Event<Id>>, x: Id)
    requires x in Run(es).live
    ensures x in Run(es).pss && (Run(es).pss[x].changedPartway <==> Disturbed(es, x))
  {
    hide Step, Sent, Changes, SessionOk, WellFramed;
    var es', e := es[..|es| - 1], es[|es| - 1];
    assert es == es' + [e];
    RunKeepsInvariant(es');
    HistoryStep(es', e, x);
    StepAt(Run(es'), e);
    if x in Run(es').live {
      MarkedIfDisturbed(es', x);
      MarkedStep(es', e, x);
    } else {
      LiveByJoining(Run(es'), e, x);
      FreshSession(es', x);
    }
  }

  lemma LiveByJoining<Id>(s: State<Id>, e: Event<Id>, x: Id)
    requires Consistent(s) && x !in s.live && x in Step(s, e).live
    ensures e == Join(x) && x !in s.pss
  {
    if e.Leave? {
      RemoveDistinct(s.live, e.x);
    }
  }

  /** If nobody joins or leaves any more, a session's walk comes to rest if and only if since the session
      joined nobody else has joined or left while it was walking. */
  lemma RestsIffUnchanged<Id>(es: seq<Event<Id>>, x: Id)
    requires x in Run(es).live
    ensures x in Run(es).pss
    ensures var s := Run(es);
            (exists n :: Drive(s.pss[x], s.live, s.joins, n).0.walk.WalkNone?) <==> !Disturbed(es, x)
  {
    hide Run, Sent, Drive, WellFramed, Distinct, Disturbed;
    Reachable(es, x);
    MarkedIfDisturbed(es, x);
    var s := Run(es);
    var p := s.pss[x];
    if p.changedPartway {
      forall n: nat ensures !Drive(p, s.live, s.joins, n).0.walk.WalkNone? {
        DriveKeeps(p, s.live, s.joins, Sent(es, x), n);
      }
    } else if p.walk.WalkInitial? {
      WholeWalk(p, s.live, s.joins);
    } else {
      var n := EndOfWalk(p, s.live, s.joins, Sent(es, x));
    }
  }

  /** Resending need not stop: session 1 joins while session 0 is about to begin its first walk. */
  lemma NeverRests(later: seq<Event<nat>>)
    requires Leave(0) !in later
    ensures var s := Run([Join(0), Join(1)] + later);
            0 in s.live && 0 in s.pss && s.pss[0].changedPartway && !s.pss[0].walk.WalkNone?
  {
    var es: seq<Event<nat>> := [Join(0)];
    assert es[..0] == [] && [Join(0), Join(1)] == es + [Join(1)];
    HistoryStep(es, Join(1), 0);
    HistoryStep([], Join(0), 0);
    assert [] + [Join(0)] == es;
    ChangedForGood([Join(0), Join(1)], later, 0);
  }

  /** Once a walk is to be repeated it always will be: the session never rests again while it is live. */
  lemma {:induction false} ChangedForGood<Id>(es: seq<Event<Id>>, later: seq<Event<Id>>, x: Id)
    requires x in Run(es).live && x in Run(es).pss && Run(es).pss[x].changedPartway
    requires Leave(x) !in later
    ensures x in Run(es + later).live && x in Run(es + later).pss
    ensures Run(es + later).pss[x].changedPartway && !Run(es + later).pss[x].walk.WalkNone?
  {
    hide Run, Sent, WellFramed, Distinct;
    if later == [] {
      assert es + later == es;
      Reachable(es, x);
    } else {
      var es', e := es + later[..|later| - 1], later[|later| - 1];
      ChangedForGood(es, later[..|later| - 1], x);
      assert es + later == es' + [e];
      RunKeepsInvariant(es');
      HistoryStep(es', e, x);
      StaysLive(Run(es'), e, x);
      StepAt(Run(es'), e);
      Reachable(es + later, x);
    }
  }

  lemma StaysLive<Id>(s: State<Id>, e: Event<Id>, x: Id)
    requires Consistent(s) && x in s.live && e != Leave(x)
    ensures x in Step(s, e).live
  {
    if e.Leave? {
      RemoveDistinct(s.live, e.x);
    }
  }

  // ----- the code --------------------------------------------------------------------------

  /** per_session_data__lws_status, zeroed by the library when a connection is made. */
  class Pss {
    var next: Pss?
    var walk: Walk
    var walkNext: Pss?
    var subsequent: bool
    var changedPartway: bool

    constructor ()
      ensures Abstract() == Zeroed()
    {
      next, walk, walkNext, subsequent, changedPartway := null, WalkNone, null, false, false;
    }

    ghost function Abstract(): (p: Session<Pss>)
      reads this`walk, this`walkNext, this`subsequent, this`changedPartway
    {
      Session(walk, Pointer(walkNext), subsequent, changedPartway)
    }
  }

  function Pointer(p: Pss?): (o: Option<Pss>)
  {
    if p == null then None else var q: Pss := p; Some(q)
  }

  ghost function PssAt(live: seq<Pss>, i: int): (p: Pss?)
  {
    if 0 <= i < |live| then live[i] else null
  }

  ghost predicate Chained(live: seq<Pss>, head: Pss?)
    reads live`next
  {
    && head == PssAt(live, 0)
    && forall i {:trigger live[i].next} :: 0 <= i < |live| ==> live[i].next == PssAt(live, i + 1)
  }

  ghost function Sessions(live: seq<Pss>): (pss: map<Pss, Session<Pss>>)
    reads live`walk, live`walkNext, live`subsequent, live`changedPartway
  {
    map p | p in live :: p.Abstract()
  }

  /** per_vhost_data__lws_status. */
  class Vhd {
    var livePssList: Pss?
    var countLivePss: nat
    ghost var live: seq<Pss>

    ghost predicate Valid()
      reads this, live`next
    {
      Distinct(live) && Chained(live, livePssList)
    }

    ghost function Abstract(): (s: State<Pss>)
      reads this, live`walk, live`walkNext, live`subsequent, live`changedPartway
    {
      State(live, Sessions(live), countLivePss)
    }

    constructor ()
      ensures Valid() && Abstract() == Run([])
    {
      livePssList, countLivePss, live := null, 0, [];
    }

    /** trigger_resend. */
    method TriggerResend()
      requires Valid()
      modifies live`walk, live`walkNext, live`subsequent, live`changedPartway
      ensures Valid() && live == old(live)
      ensures Abstract() == Resent(live, old(Sessions(live)), countLivePss)
    {
      hide Triggered;
      var pss := livePssList;
      ghost var i := 0;
      while pss != null
        invariant 0 <= i <= |live| && pss == PssAt(live, i) && Chained(live, livePssList)
        invariant forall k :: 0 <= k < i ==> live[k].Abstract() == Triggered(old(live[k].Abstract()), Pointer(livePssList))
        invariant forall k :: i <= k < |live| ==> live[k].Abstract() == old(live[k].Abstract())
        decreases |live| - i
      {
        Trigger(pss);
        pss := pss.next;
        i := i + 1;
      }
      assert Pointer(livePssList) == Head(live);
    }

    method Trigger(pss: Pss)
      modifies pss`walk, pss`walkNext, pss`subsequent, pss`changedPartway
      ensures pss.Abstract() == Triggered(old(pss.Abstract()), Pointer(livePssList))
    {
      if pss.walk == WalkNone {
        pss.subsequent := false;
        pss.walkNext := livePssList;
        pss.walk := WalkInitial;
      } else {
        pss.changedPartway := true;
      }
    }

    /** LWS_CALLBACK_ESTABLISHED. */
    method Established(pss: Pss)
      requires Valid() && pss !in live && pss.Abstract() == Zeroed()
      modifies this, pss, live`walk, live`walkNext, live`subsequent, live`changedPartway
      ensures Valid() && Abstract() == Step(old(Abstract()), Join(pss))
    {
      countLivePss := countLivePss + 1;
      pss.next := livePssList;
      livePssList := pss;
      live := [pss] + live;
      assert Sessions(live) == old(Sessions(live))[pss := Zeroed()];
      TriggerResend();
    }

    /** The search of the live list. */
    method IsLive(target: Pss) returns (m: bool)
      requires Valid()
      ensures m <==> target in live
    {
      m := false;
      var pss2 := livePssList;
      ghost var i := 0;
      while pss2 != null
        invariant 0 <= i <= |live| && pss2 == PssAt(live, i)
        invariant target !in live[..i]
        decreases |live| - i
      {
        if pss2 == target {
          return true;
        }
        pss2 := pss2.next;
        i := i + 1;
      }
    }

    /** The code at walk_final. */
    method Finish(pss: Pss) returns (frame: Frame<Pss>)
      requires Valid()
      modifies pss`walk, pss`walkNext, pss`subsequent
      ensures (pss.Abstract(), Some(frame)) == Finished(old(pss.Abstract()), live)
    {
      frame := Frame(Continuation, true, Footer);
      if pss.changedPartway {
        pss.subsequent := false;
        pss.walkNext := livePssList;
        pss.walk := WalkInitial;
      } else {
        pss.walk := WalkNone;
      }
    }

    /** The list phase, when there is a next session. */
    method WriteNext(pss: Pss) returns (frame: Frame<Pss>)
      requires Valid() && pss.walk == WalkList && pss.walkNext != null
      modifies pss`walk, pss`walkNext, pss`subsequent, pss`changedPartway
      ensures (pss.Abstract(), Some(frame)) == WriteFrame(old(pss.Abstract()), live, countLivePss)
    {
      var comma, next := pss.subsequent, pss.walkNext;
      pss.subsequent := true;
      var m := IsLive(next);
      if !m {
        pss.walk := WalkFinal;
        pss.changedPartway := true;
        return Frame(Continuation, false, Item(comma, None));
      }
      NextIsAfter(live, livePssList, next);
      pss.walkNext := next.next;
      if pss.walkNext == null {
        pss.walk := WalkFinal;
      }
      return Frame(Continuation, false, Item(comma, Some(next)));
    }

    method WriteOne(pss: Pss) returns (frame: Option<Frame<Pss>>)
      requires Valid()
      modifies pss`walk, pss`walkNext, pss`subsequent, pss`changedPartway
      ensures (pss.Abstract(), frame) == WriteFrame(old(pss.Abstract()), live, countLivePss)
    {
      match pss.walk {
        case WalkNone =>
          frame := None;
        case WalkInitial =>
          frame := Some(Frame(Text, false, Header(countLivePss)));
          pss.walk := WalkList;
          pss.walkNext := livePssList;
          assert Pointer(livePssList) == Head(live);
        case WalkList =>
          var f: Frame<Pss>;
          if pss.walkNext == null {
            f := Finish(pss);
          } else {
            f := WriteNext(pss);
          }
          frame := Some(f);
        case WalkFinal =>
          var f := Finish(pss);
          frame := Some(f);
      }
    }

    /** LWS_CALLBACK_SERVER_WRITEABLE. */
    method Writeable(pss: Pss) returns (frame: Option<Frame<Pss>>)
      requires Valid() && pss in live
      modifies pss`walk, pss`walkNext, pss`subsequent, pss`changedPartway
      ensures Valid() && Abstract() == Step(old(Abstract()), Write(pss))
      ensures frame == WriteFrame(old(pss.Abstract()), live, countLivePss).1
    {
      hide WriteFrame;
      frame := WriteOne(pss);
      assert Sessions(live) == old(Sessions(live))[pss := pss.Abstract()];
    }

    /** LWS_CALLBACK_CLOSED. */
    method Closed(pss: Pss)
      requires Valid()
      modifies this, live
      ensures Valid() && Abstract() == Step(old(Abstract()), Leave(pss))
    {
      hide Triggered, Remove;
      RemoveDistinct(live, pss);
      ghost var live' := Remove(live, pss);
      Unlink(pss);
      assert Sessions(live) == old(Sessions(live)) - {pss};
      TriggerResend();
    }

    method Unlink(pss: Pss)
      requires Valid()
      modifies this`livePssList, this`live, live`next
      ensures Valid() && live == Remove(old(live), pss)
    {
      hide Remove;
      var pss1, pss2: Pss? := livePssList, null;
      ghost var i := 0;
      while pss1 != null
        invariant 0 <= i <= |live| && pss1 == PssAt(live, i) && pss2 == PssAt(live, i - 1)
        invariant pss !in live[..i]
        decreases |live| - i
      {
        if pss1 == pss {
          if pss2 != null {
            pss2.next := pss.next;
          } else {
            livePssList := pss.next;
          }
          Bypass(live, i, livePssList);
          live := Remove(live, pss);
          return;
        }
        pss2 := pss1;
        pss1 := pss1.next;
        i := i + 1;
      }
      RemoveMissing(live, pss);
    }
  }

  /** When every link to live[i] leads past it, the list is that without live[i]. */
  lemma Bypass(live: seq<Pss>, i: nat, head: Pss?)
    requires Distinct(live) && i < |live| && head == if i == 0 then PssAt(live, 1) else live[0]
    requires forall k {:trigger live[k].next} :: 0 <= k < |live| && k != i ==>
               live[k].next == if k + 1 == i then PssAt(live, i + 1) else PssAt(live, k + 1)
    ensures Distinct(Remove(live, live[i])) && Chained(Remove(live, live[i]), head)
  {
    hide Distinct, Remove;
    RemoveAt(live, i);
    RemoveDistinct(live, live[i]);
    var r := Remove(live, live[i]);
    forall k | 0 <= k < |r| ensures r[k].next == PssAt(r, k + 1) {
      assert r[k] == live[if k < i then k else k + 1];
    }
  }

  lemma NextIsAfter(live: seq<Pss>, head: Pss?, y: Pss)
    requires Distinct(live) && Chained(live, head) && y in live
    ensures Pointer(y.next) == After(live, y)
  {
    var i :| 0 <= i < |live| && live[i] == y;
    AfterAt(live, i);
  }
}
