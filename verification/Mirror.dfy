/** The mirror protocol of protocol_lws_mirror.c: one ring of messages with a shared head, one tail
    for every session, and flow control on the posting sessions. */
module Mirror {
  import opened Arith

  const QUEUE := 512  // MAX_MESSAGE_QUEUE

  type Sid = nat
  type Message = string

  /** The ring, the sessions' tails, the sessions whose reception is off, and what every session has
      been sent. */
  datatype State = State(ring: seq<Message>, head: nat, tail: map<Sid, nat>, throttled: set<Sid>,
                         sent: map<Sid, seq<Message>>)

  lemma MaskedDifference(head: nat, tail: nat)
    requires head < QUEUE && tail < QUEUE
    ensures And((head - tail) % 0x1_0000_0000, QUEUE - 1) == Lag(head, tail)
  {
    hide And, Pow2;
    QueueIsPowerOfTwo();
    AndMask((head - tail) % 0x1_0000_0000, 9);
  }

  lemma QueueIsPowerOfTwo()
    ensures Pow2(9) == QUEUE
  {
    assert Pow2(3) == 8;
    assert Pow2(6) == 64;
  }

  /** How far the tail is behind the head, around the ring. */
  function Lag(head: nat, tail: nat): (lag: nat)
    requires head < QUEUE && tail < QUEUE
    ensures tail + lag == head || tail + lag == head + QUEUE
  {
    if tail <= head then head - tail else head - tail + QUEUE
  }

  /** (head - tail) & (QUEUE - 1), in 32-bit two's complement. */
  function MaskedLag(head: nat, tail: nat): (lag: nat)
    requires head < QUEUE && tail < QUEUE
    ensures lag == Lag(head, tail)
  {
    MaskedDifference(head, tail);
    And((head - tail) % 0x1_0000_0000, QUEUE - 1)
  }

  function Next(i: nat): (next: nat)
  {
    if i == QUEUE - 1 then 0 else i + 1
  }

  function Wrap(n: nat): (r: nat)
    ensures r < QUEUE
    ensures n < QUEUE ==> r == n
  {
    n % QUEUE
  }

  lemma WrapSum(a: nat, d: nat)
    ensures Wrap(a + d) == if Wrap(a) + Wrap(d) < QUEUE then Wrap(a) + Wrap(d) else Wrap(a) + Wrap(d) - QUEUE
  {
    var q, w := a / QUEUE + d / QUEUE, Wrap(a) + Wrap(d);
    assert a + d == q * QUEUE + w;
    if w < QUEUE {
      DivModUnique(a + d, QUEUE, q, w);
    } else {
      DivModUnique(a + d, QUEUE, q + 1, w - QUEUE);
    }
  }

  lemma WrapApart(i: nat, j: nat)
    requires i < j < i + QUEUE
    ensures Wrap(i) != Wrap(j)
  {
    WrapSum(i, j - i);
  }

  predicate WellFormed(s: State)
  {
    && |s.ring| == QUEUE && s.head < QUEUE && s.tail.Keys == s.sent.Keys && s.throttled <= s.tail.Keys
    && forall x | x in s.tail :: s.tail[x] < QUEUE
  }

  function Init(): (s: State)
    ensures WellFormed(s)
  {
    State(seq(QUEUE, _ => ""), 0, map[], {}, map[])
  }

  // ----- the steps -----------------------------------------------------------------

  /** A new session starts at the head. */
  function JoinStep(s: State, x: Sid): (s': State)
    requires WellFormed(s)
    ensures WellFormed(s')
  {
    s.(tail := s.tail[x := s.head], sent := s.sent[x := []], throttled := s.throttled - {x})
  }

  function LeaveStep(s: State, x: Sid): (s': State)
    requires WellFormed(s)
    ensures WellFormed(s')
  {
    s.(tail := s.tail - {x}, sent := s.sent - {x}, throttled := s.throttled - {x})
  }

  predicate Accepts(s: State, x: Sid)
    requires WellFormed(s) && x in s.tail
  {
    Lag(s.head, s.tail[x]) != QUEUE - 1
  }

  /** x posts m: refused, and reception switched off, when x itself is QUEUE - 1 behind. */
  function PostStep(s: State, x: Sid, m: Message): (s': State)
    requires WellFormed(s) && x in s.tail
    ensures WellFormed(s')
  {
    if Accepts(s, x) then
      var head' := Next(s.head);
      s.(ring := s.ring[s.head := m], head := head',
         throttled := if Lag(head', s.tail[x]) == QUEUE - 2 then s.throttled + {x} else s.throttled)
    else
      s.(throttled := s.throttled + {x})
  }

  /** x is written its next message, if there is one; at lag QUEUE - 15 everybody may post again. */
  function WriteStep(s: State, x: Sid): (s': State)
    requires WellFormed(s) && x in s.tail
    ensures WellFormed(s')
  {
    if s.tail[x] == s.head then s
    else
      var tail' := Next(s.tail[x]);
      s.(tail := s.tail[x := tail'], sent := s.sent[x := s.sent[x] + [s.ring[s.tail[x]]]],
         throttled := if Lag(s.head, tail') == QUEUE - 15 then {} else s.throttled)
  }

  function WriteMany(s: State, x: Sid, k: nat): (s': State)
    requires WellFormed(s) && x in s.tail
    ensures WellFormed(s') && x in s'.tail
  {
    if k == 0 then s else WriteStep(WriteMany(s, x, k - 1), x)
  }

  /** What x will be written if nothing else happens. */
  function Pending(s: State, x: Sid): (p: seq<Message>)
    requires WellFormed(s) && x in s.tail
  {
    seq(Lag(s.head, s.tail[x]), i requires 0 <= i < QUEUE => s.ring[Wrap(s.tail[x] + i)])
  }

  // ----- runs ------------------------------------------------------------------------

  datatype Event = Join(x: Sid) | Leave(x: Sid) | Post(x: Sid, m: Message) | Write(x: Sid)

  function Step(s: State, e: Event): (s': State)
    requires WellFormed(s)
    ensures WellFormed(s')
  {
    match e
    case Join(x) => JoinStep(s, x)
    case Leave(x) => LeaveStep(s, x)
    case Post(x, m) => if x in s.tail then PostStep(s, x, m) else s
    case Write(x) => if x in s.tail then WriteStep(s, x) else s
  }

  function Run(es: seq<Event>): (s: State)
    ensures WellFormed(s)
  {
    if es == [] then Init() else Step(Run(es[..|es| - 1]), es[|es| - 1])
  }

  /** The log of accepted messages after one more event. */
  function Logged(s: State, log: seq<Message>, e: Event): (log': seq<Message>)
    requires WellFormed(s)
  {
    if e.Post? && e.x in s.tail && Accepts(s, e.x) then log + [e.m] else log
  }

  /** The messages accepted during a run, in order. */
  function Log(es: seq<Event>): (log: seq<Message>)
  {
    if es == [] then []
    else Logged(Run(es[..|es| - 1]), Log(es[..|es| - 1]), es[|es| - 1])
  }

  /** How many messages had been accepted when x last joined. */
  function JoinedAt(es: seq<Event>, x: Sid): (n: nat)
    ensures n <= |Log(es)|
  {
    if es == [] then 0
    else if es[|es| - 1] == Join(x) then |Log(es[..|es| - 1])|
    else JoinedAt(es[..|es| - 1], x)
  }

  /** The messages accepted since x joined. */
  function Due(es: seq<Event>, x: Sid): (due: seq<Message>)
  {
    Log(es)[JoinedAt(es, x)..]
  }

  // ----- what every step keeps -----------------------------------------------------------

  /** The ring holds the last QUEUE accepted messages. */
  ghost predicate RingHolds(s: State, log: seq<Message>)
    requires WellFormed(s)
  {
    && s.head == Wrap(|log|)
    && forall j {:trigger log[j]} :: 0 <= j < |log| && |log| - QUEUE <= j ==> s.ring[Wrap(j)] == log[j]
  }

  /** What is known of session x: its tail counts what it was sent; and as long as it is not QUEUE
      messages behind, it was sent exactly the first messages due to it. A throttled session is at
      least QUEUE - 14 messages behind. */
  ghost predicate SessionOk(s: State, x: Sid, due: seq<Message>, joined: nat)
    requires WellFormed(s) && x in s.tail
  {
    && |s.sent[x]| <= |due|
    && s.tail[x] == Wrap(joined + |s.sent[x]|)
    && (|due| - |s.sent[x]| < QUEUE ==> s.sent[x] <= due)
    && (x in s.throttled ==> QUEUE - 14 <= |due| - |s.sent[x]|)
  }

  ghost predicate Invariant(s: State, es: seq<Event>)
    requires WellFormed(s)
  {
    && RingHolds(s, Log(es))
    && forall x | x in s.tail :: SessionOk(s, x, Due(es, x), JoinedAt(es, x))
  }

  /** The lag of a session is its true backlog, modulo QUEUE. */
  lemma LagOfBacklog(logged: nat, joined: nat, sent: nat, head: nat, tail: nat)
    requires joined + sent <= logged && head == Wrap(logged) && tail == Wrap(joined + sent)
    ensures Lag(head, tail) == Wrap(logged - joined - sent)
    ensures Next(head) == Wrap(logged + 1) && Next(tail) == Wrap(joined + sent + 1)
  {
    hide Wrap;
    WrapSum(joined + sent, logged - joined - sent);
    WrapSum(logged, 1);
    WrapSum(joined + sent, 1);
  }

  /** How one more event changes the history. */
  lemma HistoryStep(es: seq<Event>, e: Event)
    ensures Run(es + [e]) == Step(Run(es), e)
    ensures Log(es + [e]) == Logged(Run(es), Log(es), e)
    ensures forall y :: JoinedAt(es + [e], y) == if e == Join(y) then |Log(es)| else JoinedAt(es, y)
    ensures forall y :: Due(es + [e], y) == Log(es + [e])[JoinedAt(es + [e], y)..]
  {
    assert (es + [e])[..|es|] == es;
  }

  lemma RingAfterPost(s: State, x: Sid, m: Message, log: seq<Message>)
    requires WellFormed(s) && x in s.tail && Accepts(s, x) && RingHolds(s, log)
    ensures RingHolds(PostStep(s, x, m), log + [m])
  {
    hide Wrap;
    var s', log' := PostStep(s, x, m), log + [m];
    LagOfBacklog(|log|, |log|, 0, s.head, s.head);
    forall j | 0 <= j < |log'| && |log'| - QUEUE <= j ensures s'.ring[Wrap(j)] == log'[j] {
      if j < |log| {
        assert log[j] == log'[j];
        WrapApart(j, |log|);
      }
    }
  }

  /** A message accepted from x, seen by session y. */
  lemma SessionAfterPost(s: State, x: Sid, m: Message, y: Sid, log: seq<Message>, joined: nat)
    requires WellFormed(s) && x in s.tail && Accepts(s, x) && y in s.tail && RingHolds(s, log)
    requires joined <= |log| && SessionOk(s, y, log[joined..], joined)
    ensures SessionOk(PostStep(s, x, m), y, log[joined..] + [m], joined)
  {
    hide Wrap;
    var s', sent := PostStep(s, x, m), |s.sent[y]|;
    LagOfBacklog(|log|, joined, sent, s.head, s.tail[y]);
    LagOfBacklog(|log| + 1, joined, sent, s'.head, s.tail[y]);
  }

  lemma SessionAfterRefusal(s: State, x: Sid, m: Message, y: Sid, log: seq<Message>, joined: nat)
    requires WellFormed(s) && x in s.tail && !Accepts(s, x) && y in s.tail && RingHolds(s, log)
    requires joined <= |log| && SessionOk(s, y, log[joined..], joined)
    ensures SessionOk(PostStep(s, x, m), y, log[joined..], joined)
  {
    hide Wrap;
    LagOfBacklog(|log|, joined, |s.sent[y]|, s.head, s.tail[y]);
  }

  lemma SessionAfterWrite(s: State, x: Sid, y: Sid, log: seq<Message>, joined: nat)
    requires WellFormed(s) && x in s.tail && y in s.tail && RingHolds(s, log)
    requires joined <= |log| && SessionOk(s, y, log[joined..], joined)
    ensures SessionOk(WriteStep(s, x), y, log[joined..], joined)
  {
    hide Wrap;
    var sent, due := |s.sent[y]|, log[joined..];
    LagOfBacklog(|log|, joined, sent, s.head, s.tail[y]);
    if x == y && s.tail[x] != s.head {
      assert |due| > sent;
      LagOfBacklog(|log|, joined, sent + 1, s.head, Next(s.tail[y]));
      if |due| - sent < QUEUE {
        assert s.ring[Wrap(joined + sent)] == log[joined + sent] == due[sent];
      }
    }
  }

  lemma RingAfterStep(s: State, e: Event, log: seq<Message>)
    requires WellFormed(s) && RingHolds(s, log)
    ensures RingHolds(Step(s, e), Logged(s, log, e))
  {
    hide RingHolds, Wrap, Lag, Accepts;
    if e.Post? && e.x in s.tail && Accepts(s, e.x) {
      RingAfterPost(s, e.x, e.m, log);
    } else {
      QuietStep(s, e);
      SameRing(s, Step(s, e), log);
    }
  }

  lemma QuietStep(s: State, e: Event)
    requires WellFormed(s)
    ensures !(e.Post? && e.x in s.tail && Accepts(s, e.x)) ==> Step(s, e).ring == s.ring && Step(s, e).head == s.head
  {
    hide Wrap, Lag;
  }

  lemma SessionAfterStep(s: State, e: Event, y: Sid, log: seq<Message>, joined: nat)
    requires WellFormed(s) && RingHolds(s, log) && y in Step(s, e).tail
    requires y in s.tail ==> joined <= |log| && SessionOk(s, y, log[joined..], joined)
    ensures var log', joined' := Logged(s, log, e), if e == Join(y) then |log| else joined;
            joined' <= |log'| && SessionOk(Step(s, e), y, log'[joined'..], joined')
  {
    hide RingHolds, SessionOk, Wrap, Lag, Accepts, PostStep, WriteStep;
    match e {
      case Join(x) =>
        if y == x { NewSession(s, x, log); } else { SameSession(s, Step(s, e), y, log[joined..], joined); }
      case Leave(x) =>
        SameSession(s, Step(s, e), y, log[joined..], joined);
      case Post(x, m) =>
        if x in s.tail {
          PostKeepsSessions(s, x, m);
          if Accepts(s, x) {
            SessionAfterPost(s, x, m, y, log, joined);
            assert (log + [m])[joined..] == log[joined..] + [m];
          } else {
            SessionAfterRefusal(s, x, m, y, log, joined);
          }
        }
      case Write(x) =>
        if x in s.tail {
          WriteKeepsSessions(s, x);
          SessionAfterWrite(s, x, y, log, joined);
        }
    }
  }

  lemma PostKeepsSessions(s: State, x: Sid, m: Message)
    requires WellFormed(s) && x in s.tail
    ensures PostStep(s, x, m).tail == s.tail
  {
  }

  lemma WriteKeepsSessions(s: State, x: Sid)
    requires WellFormed(s) && x in s.tail
    ensures WriteStep(s, x).tail.Keys == s.tail.Keys
  {
  }

  lemma StepKeepsInvariant(es: seq<Event>, e: Event)
    requires Invariant(Run(es), es)
    ensures Invariant(Run(es + [e]), es + [e])
  {
    hide Run, Log, JoinedAt, SessionOk, RingHolds, Step, Logged;
    HistoryStep(es, e);
    var s, log, es' := Run(es), Log(es), es + [e];
    RingAfterStep(s, e, log);
    forall y | y in Run(es').tail ensures SessionOk(Run(es'), y, Due(es', y), JoinedAt(es', y)) {
      SessionAfterStep(s, e, y, log, JoinedAt(es, y));
    }
  }

  lemma SameRing(s: State, s': State, log: seq<Message>)
    requires WellFormed(s) && WellFormed(s') && RingHolds(s, log) && s'.ring == s.ring && s'.head == s.head
    ensures RingHolds(s', log)
  {
  }

  lemma SameSession(s: State, s': State, y: Sid, due: seq<Message>, joined: nat)
    requires WellFormed(s) && WellFormed(s') && y in s.tail && y in s'.tail && SessionOk(s, y, due, joined)
    requires s'.tail[y] == s.tail[y] && s'.sent[y] == s.sent[y] && (y in s'.throttled ==> y in s.throttled)
    ensures SessionOk(s', y, due, joined)
  {
  }

  lemma NewSession(s: State, x: Sid, log: seq<Message>)
    requires WellFormed(s) && RingHolds(s, log)
    ensures SessionOk(JoinStep(s, x), x, log[|log|..], |log|)
  {
  }

  lemma {:induction false} RunKeepsInvariant(es: seq<Event>)
    ensures Invariant(Run(es), es)
  {
    if es != [] {
      RunKeepsInvariant(es[..|es| - 1]);
      StepKeepsInvariant(es[..|es| - 1], es[|es| - 1]);
      assert es[..|es| - 1] + [es[|es| - 1]] == es;
    }
  }

  // ----- the theorems ------------------------------------------------------------------

  /** Session x has not been lapped: fewer than QUEUE of the messages due to it are still unsent. */
  predicate InStep(es: seq<Event>, x: Sid)
    requires x in Run(es).tail
  {
    |Due(es, x)| < |Run(es).sent[x]| + QUEUE
  }

  /** Delivery: after any run, what a session was sent and what is still pending for it are together
      exactly the messages accepted since it joined, in order and without gap or repeat, if and only
      if it has not been lapped. */
  lemma Delivery(es: seq<Event>, x: Sid)
    requires x in Run(es).tail
    ensures Run(es).sent[x] + Pending(Run(es), x) == Due(es, x) <==> InStep(es, x)
  {
    hide Run, Log, JoinedAt, Wrap, RingHolds, SessionOk, Pending;
    RunKeepsInvariant(es);
    var s, log, joined := Run(es), Log(es), JoinedAt(es, x);
    assert SessionOk(s, x, Due(es, x), joined);
    PendingIsRest(s, x, log, joined);
  }

  lemma PendingIsRest(s: State, x: Sid, log: seq<Message>, joined: nat)
    requires WellFormed(s) && x in s.tail && RingHolds(s, log) && joined <= |log|
    requires SessionOk(s, x, log[joined..], joined)
    ensures |Pending(s, x)| == Wrap(|log| - joined - |s.sent[x]|)
    ensures |log| - joined < |s.sent[x]| + QUEUE <==> s.sent[x] + Pending(s, x) == log[joined..]
  {
    hide Wrap, RingHolds, Pending;
    var sent, due, p := s.sent[x], log[joined..], Pending(s, x);
    HeadOf(s, log);
    LagOfBacklog(|log|, joined, |sent|, s.head, s.tail[x]);
    LagIsPending(s, x);
    if |due| < |sent| + QUEUE {
      forall i | 0 <= i < |p| ensures p[i] == due[|sent| + i] {
        PendingAt(s, x, log, joined + |sent|, i);
      }
      assert due == sent + due[|sent|..] && p == due[|sent|..];
    }
  }

  lemma PendingAt(s: State, x: Sid, log: seq<Message>, next: nat, i: nat)
    requires WellFormed(s) && x in s.tail && RingHolds(s, log) && s.tail[x] == Wrap(next)
    requires i < |Pending(s, x)| && next + i < |log| <= next + QUEUE
    ensures Pending(s, x)[i] == log[next + i]
  {
    hide Wrap;
    WrapSum(next, i);
    WrapSum(s.tail[x], i);
    assert s.ring[Wrap(next + i)] == log[next + i];
  }

  /** Who is lapped by an accepted post: exactly the sessions that were QUEUE - 1 behind. The posting
      session is never among them. */
  lemma WhoIsLapped(es: seq<Event>, x: Sid, m: Message, y: Sid)
    requires x in Run(es).tail && y in Run(es).tail && Accepts(Run(es), x) && InStep(es, y)
    ensures y in Run(es + [Post(x, m)]).tail
    ensures InStep(es + [Post(x, m)], y) <==> Accepts(Run(es), y)
  {
    hide Run, Log, JoinedAt, Wrap, RingHolds;
    RunKeepsInvariant(es);
    HistoryStep(es, Post(x, m));
    var s, log, joined := Run(es), Log(es), JoinedAt(es, y);
    assert SessionOk(s, y, Due(es, y), joined);
    HeadOf(s, log);
    LagOfBacklog(|log|, joined, |s.sent[y]|, s.head, s.tail[y]);
  }

  /** A session that was lapped stays lapped: no later event but a new join restores delivery. */
  lemma LappedForGood(es: seq<Event>, e: Event, x: Sid)
    requires x in Run(es).tail && x in Run(es + [e]).tail && e != Join(x)
    ensures InStep(es + [e], x) ==> InStep(es, x)
  {
    hide Run, Log, JoinedAt, Wrap, RingHolds, SessionOk, Accepts, PostStep, WriteStep, Step;
    RunKeepsInvariant(es);
    HistoryStep(es, e);
    var s, log, joined := Run(es), Log(es), JoinedAt(es, x);
    assert SessionOk(s, x, Due(es, x), joined);
    if !InStep(es, x) {
      StepSendsPending(s, e, x);
      AtHeadWhenFull(s, x, log, joined);
    }
  }

  /** A step sends x at most one message, and none when its tail is at the head. */
  lemma StepSendsPending(s: State, e: Event, x: Sid)
    requires WellFormed(s) && x in s.tail && x in Step(s, e).tail && e != Join(x)
    ensures |Step(s, e).sent[x]| <= |s.sent[x]| + if s.tail[x] == s.head then 0 else 1
  {
  }

  lemma AtHeadWhenFull(s: State, x: Sid, log: seq<Message>, joined: nat)
    requires WellFormed(s) && x in s.tail && RingHolds(s, log) && joined <= |log|
    requires SessionOk(s, x, log[joined..], joined)
    ensures |log| - joined == |s.sent[x]| + QUEUE ==> s.tail[x] == s.head
  {
    hide Wrap;
    if |log| - joined == |s.sent[x]| + QUEUE {
      WrapSum(joined + |s.sent[x]|, QUEUE);
      WrapSmall(QUEUE);
      WrapBelow(joined + |s.sent[x]|);
    }
  }

  lemma WrapBelow(n: nat)
    ensures Wrap(n) < QUEUE
  {
  }

  lemma HeadOf(s: State, log: seq<Message>)
    requires WellFormed(s) && RingHolds(s, log)
    ensures s.head == Wrap(|log|)
  {
  }

  /** Flow control: a throttled session that was not lapped has at least QUEUE - 14 messages pending,
      and writing it all but QUEUE - 15 of them switches everybody's reception on again. */
  lemma ThrottledSessionsDrain(es: seq<Event>, x: Sid)
    requires x in Run(es).throttled && InStep(es, x)
    ensures QUEUE - 14 <= |Pending(Run(es), x)|
    ensures WriteMany(Run(es), x, |Pending(Run(es), x)| - (QUEUE - 15)).throttled == {}
  {
    hide Run, Log, JoinedAt, Wrap, Pending, RingHolds, WriteMany;
    RunKeepsInvariant(es);
    var s, log, joined := Run(es), Log(es), JoinedAt(es, x);
    assert SessionOk(s, x, Due(es, x), joined);
    PendingIsRest(s, x, log, joined);
    DrainTo(s, x, |Pending(s, x)| - (QUEUE - 15));
  }

  /** When a throttled session has the backlog that reception waits for: exactly when what is unsent, modulo
      QUEUE, is at least QUEUE - 14. Up to 2 * QUEUE - 15 unsent messages, that is when it was not lapped. */
  lemma ThrottledBacklog(es: seq<Event>, x: Sid)
    requires x in Run(es).throttled
    ensures |Run(es).sent[x]| <= |Due(es, x)|
    ensures var unsent := |Due(es, x)| - |Run(es).sent[x]|;
            && (QUEUE - 14 <= |Pending(Run(es), x)| <==> QUEUE - 14 <= unsent % QUEUE)
            && (unsent < 2 * QUEUE - 14 ==> (QUEUE - 14 <= |Pending(Run(es), x)| <==> InStep(es, x)))
  {
    hide Run, Log, JoinedAt, Pending, RingHolds;
    RunKeepsInvariant(es);
    assert SessionOk(Run(es), x, Due(es, x), JoinedAt(es, x));
    PendingIsRest(Run(es), x, Log(es), JoinedAt(es, x));
  }

  /** The one step that leaves a throttled session without that backlog: somebody's post is accepted while
      the session's own lag is QUEUE - 1. */
  lemma StuckByPost(s: State, e: Event, x: Sid)
    requires WellFormed(s) && x in s.throttled && QUEUE - 14 <= Lag(s.head, s.tail[x])
    requires x in Step(s, e).throttled
    ensures QUEUE - 14 <= Lag(Step(s, e).head, Step(s, e).tail[x]) <==>
              !(e.Post? && e.x in s.tail && Accepts(s, e.x) && Lag(s.head, s.tail[x]) == QUEUE - 1)
  {
  }

  lemma LagIsPending(s: State, x: Sid)
    requires WellFormed(s) && x in s.tail
    ensures |Pending(s, x)| == Lag(s.head, s.tail[x])
  {
  }

  /** A write sends the first pending message; reaching lag QUEUE - 15 clears the throttling. */
  lemma WriteOnce(s: State, x: Sid)
    requires WellFormed(s) && x in s.tail && Pending(s, x) != []
    ensures WriteStep(s, x).sent[x] == s.sent[x] + [Pending(s, x)[0]]
    ensures Pending(WriteStep(s, x), x) == Pending(s, x)[1..]
    ensures |Pending(s, x)| == QUEUE - 14 ==> WriteStep(s, x).throttled == {}
  {
    hide Wrap;
    var s' := WriteStep(s, x);
    WrapSmall(s.tail[x]);
    forall i | 0 <= i < |Pending(s', x)| ensures Pending(s', x)[i] == Pending(s, x)[i + 1] {
      WrapNext(s.tail[x], i);
    }
  }

  lemma WrapSmall(n: nat)
    ensures n < QUEUE ==> Wrap(n) == n
    ensures n == QUEUE ==> Wrap(n) == 0
  {
  }

  lemma WrapNext(tail: nat, i: nat)
    requires tail < QUEUE
    ensures Wrap(Next(tail) + i) == Wrap(tail + (i + 1))
  {
    if tail == QUEUE - 1 {
      WrapSum(QUEUE, i);
    }
  }

  /** Writing k messages to x sends the first k pending ones. */
  lemma {:induction false} DrainTo(s: State, x: Sid, k: nat)
    requires WellFormed(s) && x in s.tail && k <= |Pending(s, x)|
    ensures WriteMany(s, x, k).sent[x] == s.sent[x] + Pending(s, x)[..k]
    ensures Pending(WriteMany(s, x, k), x) == Pending(s, x)[k..]
    ensures 0 < k && |Pending(s, x)| - k == QUEUE - 15 ==> WriteMany(s, x, k).throttled == {}
  {
    hide Wrap, Pending, WriteStep;
    if k == 0 {
      assert s.sent[x] + Pending(s, x)[..0] == s.sent[x];
    } else {
      DrainTo(s, x, k - 1);
      WriteOnce(WriteMany(s, x, k - 1), x);
      assert Pending(s, x)[..k] == Pending(s, x)[..k - 1] + [Pending(s, x)[k - 1]];
    }
  }

  lemma NoWrites(s: State, x: Sid)
    requires WellFormed(s) && x in s.tail
    ensures WriteMany(s, x, 0) == s
  {
  }

  lemma OneMoreWrite(s: State, x: Sid, k: nat)
    requires WellFormed(s) && x in s.tail
    ensures WriteMany(s, x, k + 1) == WriteStep(WriteMany(s, x, k), x)
  {
  }

  lemma NothingPending(s: State, x: Sid)
    requires WellFormed(s) && x in s.tail
    ensures Pending(s, x) == [] <==> s.tail[x] == s.head
  {
    hide Wrap;
  }

  function Posts(x: Sid, n: nat): (es: seq<Event>)
  {
    if n == 0 then [] else Posts(x, n - 1) + [Post(x, "")]
  }

  lemma {:induction false} Flood(n: nat)
    requires n <= QUEUE - 2
    ensures Flooded(Run([Join(0)] + Posts(0, n)), n)
  {
    hide Run, Log, JoinedAt, Step, Flooded;
    if n == 0 {
      assert [Join(0)] + Posts(0, 0) == [] + [Join(0)];
      HistoryStep([], Join(0));
      FloodBegins();
    } else {
      Flood(n - 1);
      var es := [Join(0)] + Posts(0, n - 1);
      assert [Join(0)] + Posts(0, n) == es + [Post(0, "")];
      HistoryStep(es, Post(0, ""));
      FloodGoesOn(Run(es), n);
    }
  }

  /** Session 0, the only one, has posted n messages and was written none. */
  predicate Flooded(s: State, n: nat)
  {
    s.tail == map[0 := 0] && s.head == n && s.throttled == if n == QUEUE - 2 then {0} else {}
  }

  lemma FloodBegins()
    ensures Flooded(Step(Run([]), Join(0)), 0)
  {
  }

  lemma FloodGoesOn(s: State, n: nat)
    requires WellFormed(s) && 0 < n <= QUEUE - 2 && Flooded(s, n - 1)
    ensures Flooded(Step(s, Post(0, "")), n)
  {
  }

  lemma PostTo(s: State, x: Sid, m: Message)
    requires WellFormed(s) && x in s.tail && Accepts(s, x)
    ensures var s' := PostStep(s, x, m);
            s'.head == Next(s.head) && s'.tail == s.tail && s.throttled <= s'.throttled
  {
  }

  /** A run that ends in such a step: session 0 posts until it is throttled and is then lapped by
      session 1; it stays throttled although nothing is pending for it. */
  lemma LappedSessionIsStuck() returns (es: seq<Event>)
    ensures 0 in Run(es).tail && 0 in Run(es).throttled && Pending(Run(es), 0) == []
    ensures !InStep(es, 0)
  {
    hide Wrap, Run, Log, JoinedAt, Pending, RingHolds, PostStep, SessionOk, Accepts;
    var es0 := [Join(0)] + Posts(0, QUEUE - 2);
    Flood(QUEUE - 2);
    HistoryStep(es0, Join(1));
    var es1 := es0 + [Join(1)];
    PostByOne(es1, 510);
    PostByOne(es1 + [Post(1, "")], 511);
    es := es1 + [Post(1, "")] + [Post(1, "")];
    NothingPending(Run(es), 0);
    if InStep(es, 0) {
      ThrottledHaveBacklog(es, 0);
    }
  }

  lemma PostByOne(es: seq<Event>, head: nat)
    requires 510 <= head <= 511 && Run(es).head == head && 1 in Run(es).tail && Run(es).tail[1] == 510
    ensures var s, s' := Run(es), Run(es + [Post(1, "")]);
            s'.head == Next(head) && s'.tail == s.tail && s.throttled <= s'.throttled
  {
    hide Wrap, Run, Log, JoinedAt, PostStep;
    HistoryStep(es, Post(1, ""));
    PostTo(Run(es), 1, "");
  }

  lemma ThrottledHaveBacklog(es: seq<Event>, x: Sid)
    requires x in Run(es).throttled && InStep(es, x)
    ensures QUEUE - 14 <= |Pending(Run(es), x)|
  {
    ThrottledSessionsDrain(es, x);
  }

  // ----- every step, in what the sessions see of it ---------------------------------------

  /** Who is connected after a step. */
  lemma WhoIsConnected(s: State, e: Event, y: Sid)
    requires WellFormed(s)
    ensures y in Step(s, e).tail <==> e == Join(y) || (y in s.tail && e != Leave(y))
  {
    if e.Post? && e.x in s.tail { PostKeepsSessions(s, e.x, e.m); }
    if e.Write? && e.x in s.tail { WriteKeepsSessions(s, e.x); }
  }

  /** Whose reception is off after a step: a session's own post switches it off when it was refused, with 511
      messages pending, or was the 510th pending one; a write that leaves 497 pending switches everybody's on,
      a new connection begins with reception on, and nothing else changes it. */
  lemma WhoIsThrottled(s: State, e: Event, y: Sid)
    requires WellFormed(s) && y in Step(s, e).tail
    ensures y in Step(s, e).throttled <==>
              && e != Join(y)
              && !(e.Write? && e.x in s.tail && |Pending(s, e.x)| == 498)
              && (y in s.throttled || (e.Post? && e.x == y && |Pending(s, y)| in {509, 511}))
  {
    hide Wrap;
  }

  /** What is pending for a session after a step, and what it has been sent: an accepted post is appended for
      everybody, but all is lost for those who had 511 pending; a write to the session moves its first pending
      message; a new connection has nothing; and nothing else changes anything. */
  lemma WhatIsPending(s: State, e: Event, y: Sid)
    requires WellFormed(s) && y in Step(s, e).tail
    ensures Step(s, e).sent[y] ==
              if e == Join(y) then []
              else if e == Write(y) && Pending(s, y) != [] then s.sent[y] + [Pending(s, y)[0]]
              else s.sent[y]
    ensures Pending(Step(s, e), y) ==
              if e == Join(y) then []
              else if e.Post? && e.x in s.tail && |Pending(s, e.x)| != 511 then
                (if |Pending(s, y)| == 511 then [] else Pending(s, y) + [e.m])
              else if e == Write(y) && Pending(s, y) != [] then Pending(s, y)[1..]
              else Pending(s, y)
  {
    hide Wrap, PostStep, WriteStep, Accepts, Lag;
    match e {
      case Join(x) =>
        if x == y { NothingPending(JoinStep(s, x), x); } else { SamePending(s, Step(s, e), y); }
      case Leave(x) =>
        SamePending(s, Step(s, e), y);
      case Post(x, m) =>
        if x in s.tail {
          PostKeepsSessions(s, x, m);
          PendingAfterPost(s, x, m, y);
        }
      case Write(x) =>
        if x in s.tail {
          WriteKeepsSessions(s, x);
          PendingAfterWrite(s, x, y);
        }
    }
  }

  lemma SamePending(s: State, s': State, y: Sid)
    requires WellFormed(s) && WellFormed(s') && y in s.tail && y in s'.tail
    requires s'.ring == s.ring && s'.head == s.head && s'.tail[y] == s.tail[y]
    ensures Pending(s', y) == Pending(s, y)
  {
    hide Wrap;
  }

  lemma PendingAfterPost(s: State, x: Sid, m: Message, y: Sid)
    requires WellFormed(s) && x in s.tail && y in s.tail
    ensures var s' := PostStep(s, x, m);
            && s'.tail == s.tail && s'.sent == s.sent
            && Pending(s', y) == if |Pending(s, x)| == 511 then Pending(s, y)
                                 else if |Pending(s, y)| == 511 then [] else Pending(s, y) + [m]
  {
    hide Wrap;
    var s', lag, tail := PostStep(s, x, m), Lag(s.head, s.tail[y]), s.tail[y];
    if Accepts(s, x) && lag != 511 {
      forall i | 0 <= i <= lag ensures Pending(s', y)[i] == (Pending(s, y) + [m])[i] {
        PlaceBehindTail(s.head, tail, i);
      }
    }
  }

  /** The head is as many places behind the tail as the lag says, and at no place between. */
  lemma PlaceBehindTail(head: nat, tail: nat, i: nat)
    requires head < QUEUE && tail < QUEUE && i < QUEUE
    ensures Wrap(tail + i) == head <==> i == Lag(head, tail)
  {
    hide Wrap;
    WrapSum(tail, i);
    WrapSmall(tail);
    WrapSmall(i);
  }

  lemma PendingAfterWrite(s: State, x: Sid, y: Sid)
    requires WellFormed(s) && x in s.tail && y in s.tail
    ensures var s' := WriteStep(s, x);
            if x == y && Pending(s, x) != []
            then s'.sent[y] == s.sent[y] + [Pending(s, y)[0]] && Pending(s', y) == Pending(s, y)[1..]
            else s'.sent[y] == s.sent[y] && Pending(s', y) == Pending(s, y)
  {
    hide Wrap;
    if x == y && Pending(s, x) != [] {
      WriteOnce(s, x);
    } else {
      NothingPending(s, x);
      SamePending(s, WriteStep(s, x), y);
    }
  }

  // ----- the code ------------------------------------------------------------------------

  /** The first k writes succeeded, and the pipe was not choked after any of them. */
  ghost predicate AllWell(succeeds: nat -> bool, choked: nat -> bool, k: nat)
  {
    forall i :: 0 <= i < k ==> succeeds(i) && !choked(i)
  }

  lemma NoneWell(succeeds: nat -> bool, choked: nat -> bool)
    ensures AllWell(succeeds, choked, 0)
  {
  }

  lemma OneMoreWell(succeeds: nat -> bool, choked: nat -> bool, k: nat)
    requires AllWell(succeeds, choked, k) && succeeds(k) && !choked(k)
    ensures AllWell(succeeds, choked, k + 1)
  {
  }

  /** The per-vhost data and the sessions' tails. */
  class Vhost {
    var ringbuffer: array<Message>
    var ringbufferHead: nat
    var ringbufferTail: map<Sid, nat>
    var throttled: set<Sid>
    var sent: map<Sid, seq<Message>>

    ghost function Abstract(): (s: State)
      reads this, ringbuffer
    {
      State(ringbuffer[..], ringbufferHead, ringbufferTail, throttled, sent)
    }

    ghost predicate Valid()
      reads this, ringbuffer
    {
      WellFormed(Abstract())
    }

    constructor ()
      ensures Valid() && Abstract() == Init() && fresh(ringbuffer)
    {
      ringbuffer := new Message[QUEUE](_ => "");
      ringbufferHead, ringbufferTail, throttled, sent := 0, map[], {}, map[];
      new;
      assert ringbuffer[..] == Init().ring;
    }

    /** LWS_CALLBACK_ESTABLISHED. */
    method Established(x: Sid)
      requires Valid()
      modifies this
      ensures Valid() && Abstract() == JoinStep(old(Abstract()), x) && ringbuffer == old(ringbuffer)
    {
      ringbufferTail := ringbufferTail[x := ringbufferHead];
      sent := sent[x := []];
      throttled := throttled - {x};
    }

    /** LWS_CALLBACK_RECEIVE. */
    method Receive(x: Sid, m: Message)
      requires Valid() && x in ringbufferTail
      modifies this, ringbuffer
      ensures Valid() && Abstract() == PostStep(old(Abstract()), x, m) && ringbuffer == old(ringbuffer)
    {
      hide Wrap;
      if MaskedLag(ringbufferHead, ringbufferTail[x]) == QUEUE - 1 {
        throttled := throttled + {x};
        return;
      }
      ringbuffer[ringbufferHead] := m;
      if ringbufferHead == QUEUE - 1 {
        ringbufferHead := 0;
      } else {
        ringbufferHead := ringbufferHead + 1;
      }
      if MaskedLag(ringbufferHead, ringbufferTail[x]) != QUEUE - 2 {
        return;
      }
      throttled := throttled + {x};
    }

    /** LWS_CALLBACK_SERVER_WRITEABLE: writes the backlog of x until it is empty, a write fails, or the
        pipe chokes. The environment says which writes succeed and after which the pipe is choked. */
    method Writeable(x: Sid, succeeds: nat -> bool, choked: nat -> bool) returns (ok: bool, k: nat)
      requires Valid() && x in ringbufferTail
      modifies this
      ensures Valid() && Abstract() == WriteMany(old(Abstract()), x, k) && ringbuffer == old(ringbuffer)
      ensures k <= |Pending(old(Abstract()), x)|
      ensures if !ok then AllWell(succeeds, choked, k) && k < |Pending(old(Abstract()), x)| && !succeeds(k)
              else (AllWell(succeeds, choked, k) && k == |Pending(old(Abstract()), x)|)
                   || (0 < k && AllWell(succeeds, choked, k - 1) && succeeds(k - 1) && choked(k - 1))
    {
      hide Wrap, Pending, WriteStep, WriteMany, WellFormed, HasWritten, AllWell;
      NoneWell(succeeds, choked);
      ghost var s := Abstract();
      ok, k := true, 0;
      NothingWritten(x);
      Written(x, s, k);
      while ringbufferTail[x] != ringbufferHead
        invariant HasWritten(x, s, k) && ringbuffer == old(ringbuffer)
        invariant x in ringbufferTail && k <= |Pending(s, x)|
        invariant ringbufferTail[x] == ringbufferHead <==> k == |Pending(s, x)|
        invariant AllWell(succeeds, choked, k)
        decreases |Pending(s, x)| - k
      {
        Written(x, s, k);
        if !succeeds(k) {
          ok := false;
          return;
        }
        WriteNext(x, s, k);
        k := k + 1;
        Written(x, s, k);
        if choked(k - 1) {
          return;
        }
        OneMoreWell(succeeds, choked, k - 1);
      }
      Written(x, s, k);
    }

    lemma NothingWritten(x: Sid)
      requires Valid() && x in ringbufferTail
      ensures HasWritten(x, Abstract(), 0) && WellFormed(Abstract()) && x in Abstract().tail
    {
      hide Wrap, Pending, WriteStep, WriteMany;
      NoWrites(Abstract(), x);
      NothingPending(Abstract(), x);
    }

    lemma Written(x: Sid, s: State, k: nat)
      requires HasWritten(x, s, k)
      ensures Valid() && x in ringbufferTail && WellFormed(s) && x in s.tail && Abstract() == WriteMany(s, x, k)
      ensures k <= |Pending(s, x)| && (ringbufferTail[x] == ringbufferHead <==> k == |Pending(s, x)|)
    {
    }

    /** k of the messages pending for x in state s have been written, and nothing else has happened. */
    ghost predicate HasWritten(x: Sid, s: State, k: nat)
      reads this, ringbuffer
    {
      && Valid() && x in ringbufferTail && WellFormed(s) && x in s.tail && Abstract() == WriteMany(s, x, k)
      && k <= |Pending(s, x)| && (ringbufferTail[x] == ringbufferHead <==> k == |Pending(s, x)|)
    }

    /** One round of the write loop. */
    method WriteNext(x: Sid, ghost s: State, ghost k: nat)
      requires HasWritten(x, s, k) && ringbufferTail[x] != ringbufferHead
      modifies this
      ensures HasWritten(x, s, k + 1) && ringbuffer == old(ringbuffer)
    {
      hide Wrap, Pending, WriteStep, WriteMany;
      WriteOne(x);
      OneMoreWrite(s, x, k);
      DrainTo(s, x, k + 1);
      NothingPending(WriteMany(s, x, k + 1), x);
    }

    method WriteOne(x: Sid)
      requires Valid() && x in ringbufferTail && ringbufferTail[x] != ringbufferHead
      modifies this
      ensures Valid() && Abstract() == WriteStep(old(Abstract()), x) && ringbuffer == old(ringbuffer)
    {
      hide Wrap;
      sent := sent[x := sent[x] + [ringbuffer[ringbufferTail[x]]]];
      if ringbufferTail[x] == QUEUE - 1 {
        ringbufferTail := ringbufferTail[x := 0];
      } else {
        ringbufferTail := ringbufferTail[x := ringbufferTail[x] + 1];
      }
      if MaskedLag(ringbufferHead, ringbufferTail[x]) == QUEUE - 15 {
        throttled := {};
      }
    }
  }
}
