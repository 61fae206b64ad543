/** The file transfer of test-server-file.c: a client and a server that talk over a websocket. */
module FileTransfer {
  import opened Arith
  import opened Options

  type Byte = bv8

  const FSS_MAGIC: bv32 := 0x98AC0000
  const FSS_FILE_REQ: bv32 := FSS_MAGIC | 1
  const FSS_FILE_RESP_OK: bv32 := FSS_MAGIC | 2
  const FSS_FILE_START: bv32 := FSS_MAGIC | 4
  const FSS_DUMMY: bv32 := FSS_MAGIC | 0xF
  const FSS_MAX_FILE_SIZE := 256 * 1024 * 1024
  const HEADER_SIZE := 296  // sizeof(struct fss_header_hsk)
  const FSS_HSK_HDR_SIZE := 8
  const CHUNK := 10000
  const STOP_AT := 83762340

  datatype Frame = Header(kind: bv32, filesize: int) | Data(bytes: seq<Byte>)

  datatype ServerState = FSS_NONE | FSS_CONNECTED | FSS_HEADER_READY | FSS_WAIT_START | FSS_TRANSFER | FSS_DONE | FSS_ERROR

  datatype ClientState = FSC_NONE | FSC_CONNECTED | FSC_WAIT_CONFIRM | FSC_CONFIRMED | FSC_TRANSFER

  /** pos is the position of the open file. */
  datatype Server = Server(state: ServerState, filesize: int, pos: nat)

  /** out is what was written to the output file. */
  datatype Client = Client(state: ClientState, bytes: int, out: seq<Byte>)

  /** What a callback ends with: keep the connection, close it, leave the program, or report a frame that
      does not belong in the present state. */
  datatype Verdict = Continue | Close | Exit | Unexpected

  /** The value of n in a C int. */
  function AsInt(n: int): (r: int)
    ensures -0x8000_0000 <= r < 0x8000_0000 && (n - r) % 0x1_0000_0000 == 0
    ensures 0 <= n < 0x8000_0000 ==> r == n
  {
    (n + 0x8000_0000) % 0x1_0000_0000 - 0x8000_0000
  }

  /** The value of an int converted to size_t, as in a comparison with sizeof. */
  function AsSize(n: int): (r: int)
  {
    n % 0x1_0000_0000_0000_0000
  }

  lemma AsIntSum(a: int, b: int)
    ensures AsInt(AsInt(a) + b) == AsInt(a + b)
  {
    var m, h := 0x1_0000_0000, 0x8000_0000;
    var q, r := (a + h) / m, (a + h) % m;
    var q', r' := (r + b) / m, (r + b) % m;
    assert a + h == q * m + r && r + b == q' * m + r';
    DivModUnique(a + b + h, m, q + q', r');
  }

  // ----- the two parties -------------------------------------------------------------------

  function ClientWrites(c: Client, opens: bool): (r: (Client, Option<Frame>, Verdict))
  {
    match c.state
    case FSC_CONNECTED => (c.(state := FSC_WAIT_CONFIRM), Some(Header(FSS_FILE_REQ, 1)), Continue)
    case FSC_CONFIRMED =>
      if opens then (c.(state := FSC_TRANSFER, out := []), Some(Header(FSS_FILE_START, 1)), Continue)
      else (c, None, Close)
    case _ => (c, None, Continue)
  }

  function ClientReads(c: Client, f: Frame): (r: (Client, Verdict))
  {
    match c.state
    case FSC_WAIT_CONFIRM =>
      if f.Data? then (c, Unexpected)
      else if f.kind == FSS_FILE_RESP_OK then (c.(state := FSC_CONFIRMED), Continue)
      else (c, Close)
    case FSC_TRANSFER =>
      if f.Header? then (c, Unexpected)
      else
        var bytes := AsInt(c.bytes + |f.bytes|);
        (c.(bytes := bytes, out := c.out + f.bytes), if bytes == STOP_AT then Exit else Continue)
    case _ => (c, Unexpected)
  }

  function ServerWrites(s: Server, file: seq<Byte>): (r: (Server, Option<Frame>))
    requires s.pos <= |file|
    ensures r.0.pos <= |file|
  {
    match s.state
    case FSS_HEADER_READY => (s.(state := FSS_WAIT_START), Some(Header(FSS_FILE_RESP_OK, 0)))
    case FSS_TRANSFER =>
      var n := Min(CHUNK, |file| - s.pos);
      (s.(pos := s.pos + n, state := if n < CHUNK then FSS_DONE else FSS_TRANSFER), Some(Data(file[s.pos..s.pos + n])))
    case _ => (s, None)
  }

  function ServerReads(s: Server, f: Frame, opens: bool): (r: (Server, Verdict))
  {
    match s.state
    case FSS_CONNECTED =>
      if f.Data? then (s, Unexpected)
      else if f.kind & 0xffff0000 != FSS_MAGIC || f.filesize > FSS_MAX_FILE_SIZE then (s.(state := FSS_ERROR), Continue)
      else (s.(state := FSS_HEADER_READY, filesize := f.filesize), Continue)
    case FSS_WAIT_START =>
      if opens then (s.(state := FSS_TRANSFER, pos := 0), Continue) else (s.(state := FSS_ERROR), Continue)
    case _ => (s, if f.Header? && f.kind == FSS_DUMMY then Continue else Unexpected)
  }

  // ----- the pair, over lossless first-in first-out channels ---------------------------------

  datatype Link = Open | Closed | Exited

  datatype System = System(client: Client, server: Server, c2s: seq<Frame>, s2c: seq<Frame>, link: Link,
                           unexpected: bool, dataFrames: nat)

  /** A party becomes writeable, or receives the front of its channel; a data frame may be delivered in
      part. The flags say whether fopen succeeds. */
  datatype Event = ClientWriteable(opens: bool) | ServerWriteable | ClientReceive(k: nat) | ServerReceive(opens: bool)

  function Init(): (s: System)
  {
    System(Client(FSC_CONNECTED, 0, []), Server(FSS_CONNECTED, 0, 0), [], [], Open, false, 0)
  }

  function After(link: Link, v: Verdict): (link': Link)
  {
    match v
    case Close => Closed
    case Exit => Exited
    case _ => link
  }

  /** The part of the front frame that is delivered, and what is then left. */
  function Split(channel: seq<Frame>, k: nat): (r: (Frame, seq<Frame>))
    requires channel != []
  {
    var f := channel[0];
    if f.Data? && 0 < k < |f.bytes| then (Data(f.bytes[..k]), [Data(f.bytes[k..])] + channel[1..])
    else (f, channel[1..])
  }

  function Step(file: seq<Byte>, s: System, e: Event): (s': System)
    requires s.server.pos <= |file|
    ensures s'.server.pos <= |file|
  {
    if s.link != Open then s
    else
      match e
      case ClientWriteable(opens) =>
        var (c, f, v) := ClientWrites(s.client, opens);
        s.(client := c, c2s := s.c2s + Emitted(f), link := After(Open, v))
      case ServerWriteable =>
        var (t, f) := ServerWrites(s.server, file);
        s.(server := t, s2c := s.s2c + Emitted(f),
           dataFrames := if f.Some? && f.value.Data? then s.dataFrames + 1 else s.dataFrames)
      case ClientReceive(k) =>
        if s.s2c == [] then s
        else
          var (f, rest) := Split(s.s2c, k);
          var (c, v) := ClientReads(s.client, f);
          s.(client := c, s2c := rest, link := After(Open, v), unexpected := s.unexpected || v.Unexpected?)
      case ServerReceive(opens) =>
        if s.c2s == [] then s
        else
          var (t, v) := ServerReads(s.server, s.c2s[0], opens);
          s.(server := t, c2s := s.c2s[1..], unexpected := s.unexpected || v.Unexpected?)
  }

  function Run(file: seq<Byte>, es: seq<Event>): (s: System)
    ensures s.server.pos <= |file|
  {
    if es == [] then Init() else Step(file, Run(file, es[..|es| - 1]), es[|es| - 1])
  }

  // ----- what every step keeps -----------------------------------------------------------------

  /** The file data in a channel that holds nothing else. */
  function Flat(fs: seq<Frame>): (b: seq<Byte>)
    requires forall f | f in fs :: f.Data?
  {
    if fs == [] then [] else fs[0].bytes + Flat(fs[1..])
  }

  lemma {:induction false} FlatAppend(fs: seq<Frame>, f: Frame)
    requires f.Data? && forall g | g in fs :: g.Data?
    ensures Flat(fs + [f]) == Flat(fs) + f.bytes
  {
    if fs != [] {
      FlatAppend(fs[1..], f);
      assert (fs + [f])[1..] == fs[1..] + [f];
    }
  }

  lemma FlatCons(f: Frame, fs: seq<Frame>)
    requires f.Data? && forall g | g in fs :: g.Data?
    ensures Flat([f] + fs) == f.bytes + Flat(fs)
  {
    assert ([f] + fs)[1..] == fs;
  }

  lemma FlatSplit(fs: seq<Frame>, k: nat)
    requires fs != [] && forall g | g in fs :: g.Data?
    ensures var (f, rest) := Split(fs, k);
            f.Data? && (forall g | g in rest :: g.Data?) && Flat(fs) == f.bytes + Flat(rest)
  {
    hide Flat;
    var f, rest := fs[0], fs[1..];
    assert fs == [f] + rest;
    FlatCons(f, rest);
    if 0 < k < |f.bytes| {
      var b, c := f.bytes[..k], f.bytes[k..];
      FlatCons(Data(c), rest);
      assert f.bytes == b + c;
      Associates(b, c, Flat(rest));
    }
  }

  /** The stages of the protocol. */
  ghost predicate Stage(file: seq<Byte>, s: System)
  {
    match s.server.state
    case FSS_CONNECTED =>
      && s.s2c == [] && s.client.out == [] && s.dataFrames == 0
      && if s.client.state.FSC_CONNECTED? then s.c2s == []
         else s.client.state.FSC_WAIT_CONFIRM? && s.c2s == [Header(FSS_FILE_REQ, 1)]
    case FSS_HEADER_READY =>
      && s.s2c == [] && s.c2s == [] && s.client.state.FSC_WAIT_CONFIRM? && s.client.out == [] && s.dataFrames == 0
    case FSS_WAIT_START =>
      && s.client.out == [] && s.dataFrames == 0
      && match s.client.state {
           case FSC_WAIT_CONFIRM => s.c2s == [] && s.s2c == [Header(FSS_FILE_RESP_OK, 0)]
           case FSC_CONFIRMED => s.c2s == [] && s.s2c == []
           case FSC_TRANSFER => s.c2s == [Header(FSS_FILE_START, 1)] && s.s2c == []
           case _ => false
         }
    case FSS_TRANSFER => Transferring(file, s) && s.server.pos == CHUNK * s.dataFrames
    case FSS_DONE => Transferring(file, s) && s.server.pos == |file| && s.dataFrames == |file| / CHUNK + 1
    case FSS_ERROR => s.client.state.FSC_TRANSFER? && s.client.out == [] && s.c2s == [] && s.s2c == [] && s.dataFrames == 0
    case FSS_NONE => false
  }

  /** What the client has written and what is under way to it are what the server has read. */
  ghost predicate Transferring(file: seq<Byte>, s: System)
  {
    && s.client.state.FSC_TRANSFER? && s.c2s == [] && (forall f | f in s.s2c :: f.Data?)
    && s.server.pos <= |file| && s.client.out + Flat(s.s2c) == file[..s.server.pos]
  }

  ghost predicate Invariant(file: seq<Byte>, s: System)
  {
    && Stage(file, s)
    && !s.unexpected && s.client.bytes == AsInt(|s.client.out|)
    && (s.link == Closed ==> s.client.state.FSC_CONFIRMED?)
    && (s.link == Exited <==> s.client.bytes == STOP_AT)
  }

  lemma ClientWritesKeeps(file: seq<Byte>, s: System, opens: bool)
    requires s.server.pos <= |file| && s.link == Open && Invariant(file, s)
    ensures Invariant(file, Step(file, s, ClientWriteable(opens)))
  {
    hide Flat, AsInt;
  }

  lemma ServerWritesKeeps(file: seq<Byte>, s: System)
    requires s.server.pos <= |file| && s.link == Open && Invariant(file, s)
    ensures Invariant(file, Step(file, s, ServerWriteable))
  {
    hide Flat, AsInt, Transferring;
    if s.server.state.FSS_TRANSFER? {
      var n := Min(CHUNK, |file| - s.server.pos);
      SendChunk(file, s, n);
      if n < CHUNK {
        DivModUnique(|file|, CHUNK, s.dataFrames, n);
      }
    } else if s.server.state.FSS_DONE? {
      SendNothing(file, s);
    }
  }

  lemma SendNothing(file: seq<Byte>, s: System)
    requires s.server.pos <= |file| && s.server.state.FSS_DONE?
    ensures Step(file, s, ServerWriteable) == s
  {
    assert s.s2c + [] == s.s2c;
  }

  lemma SendChunk(file: seq<Byte>, s: System, n: nat)
    requires Transferring(file, s) && s.link == Open && s.server.state.FSS_TRANSFER?
    requires n == Min(CHUNK, |file| - s.server.pos)
    ensures Transferring(file, Step(file, s, ServerWriteable))
  {
    hide Flat;
    var pos := s.server.pos;
    var f := Data(file[pos..pos + n]);
    FlatAppend(s.s2c, f);
    assert file[..pos] + f.bytes == file[..pos + n];
    Associates(s.client.out, Flat(s.s2c), f.bytes);
  }

  lemma ClientReadsKeeps(file: seq<Byte>, s: System, k: nat)
    requires s.server.pos <= |file| && s.link == Open && Invariant(file, s)
    ensures Invariant(file, Step(file, s, ClientReceive(k)))
  {
    hide Flat, AsInt, Split;
    if s.s2c != [] {
      HeaderWhole(s.s2c, k);
      if s.client.state.FSC_TRANSFER? {
        FlatSplit(s.s2c, k);
        var (f, rest) := Split(s.s2c, k);
        AsIntSum(|s.client.out|, |f.bytes|);
        Associates(s.client.out, f.bytes, Flat(rest));
      }
    }
  }

  lemma HeaderWhole(fs: seq<Frame>, k: nat)
    requires fs != []
    ensures fs[0].Header? ==> Split(fs, k) == (fs[0], fs[1..])
  {
  }

  lemma ServerReadsKeeps(file: seq<Byte>, s: System, opens: bool)
    requires s.server.pos <= |file| && s.link == Open && Invariant(file, s)
    ensures Invariant(file, Step(file, s, ServerReceive(opens)))
  {
    hide AsInt;
    assert FSS_FILE_REQ & 0xffff0000 == FSS_MAGIC;
  }

  lemma {:induction false} RunKeepsInvariant(file: seq<Byte>, es: seq<Event>)
    ensures Invariant(file, Run(file, es))
  {
    hide Step, Stage, Invariant;
    if es == [] {
      InitInvariant(file);
    } else {
      var s, e := Run(file, es[..|es| - 1]), es[|es| - 1];
      RunKeepsInvariant(file, es[..|es| - 1]);
      StepKeepsInvariant(file, s, e);
    }
  }

  lemma InitInvariant(file: seq<Byte>)
    ensures Invariant(file, Init())
  {
  }

  lemma StepKeepsInvariant(file: seq<Byte>, s: System, e: Event)
    requires s.server.pos <= |file| && Invariant(file, s)
    ensures Invariant(file, Step(file, s, e))
  {
    hide Stage, Invariant, ClientWrites, ClientReads, ServerWrites, ServerReads, Split;
    if s.link == Open {
      match e
      case ClientWriteable(opens) => ClientWritesKeeps(file, s, opens);
      case ServerWriteable => ServerWritesKeeps(file, s);
      case ClientReceive(k) => ClientReadsKeeps(file, s, k);
      case ServerReceive(opens) => ServerReadsKeeps(file, s, opens);
    }
  }

  // ----- the theorems ----------------------------------------------------------------------------

  /** Over every run: no frame arrives in a state in which it does not belong; what the client has
      written is a prefix of the file; and bytes is its length, as a 32-bit int. */
  lemma Safety(file: seq<Byte>, es: seq<Event>)
    ensures var s := Run(file, es);
            && !s.unexpected && s.client.out <= file
            && s.client.bytes == AsInt(|s.client.out|)
            && (|file| < 0x8000_0000 ==> s.client.bytes == |s.client.out|)
  {
    hide Run, Step, Flat;
    RunKeepsInvariant(file, es);
  }

  /** The server is done if and only if it has written floor(|file| / CHUNK) + 1 data frames. */
  lemma FramesUntilDone(file: seq<Byte>, es: seq<Event>)
    ensures var s := Run(file, es);
            && s.dataFrames <= |file| / 10000 + 1
            && (s.server.state.FSS_DONE? <==> s.dataFrames == |file| / 10000 + 1)
  {
    hide Run, Step, Flat;
    RunKeepsInvariant(file, es);
  }

  /** When the server is done, the client has the whole file if and only if nothing but empty frames is
      still under way. */
  lemma DoneAndDelivered(file: seq<Byte>, es: seq<Event>)
    requires Run(file, es).server.state.FSS_DONE?
    ensures forall f | f in Run(file, es).s2c :: f.Data?
    ensures Run(file, es).client.out == file <==> Flat(Run(file, es).s2c) == []
  {
    hide Run, Step, Flat;
    RunKeepsInvariant(file, es);
    var s := Run(file, es);
    assert file[..|file|] == file;
    assert |s.client.out + Flat(s.s2c)| == |file|;
    if Flat(s.s2c) == [] {
      assert s.client.out + [] == s.client.out;
    }
  }

  /** At event i the client, confirmed, could not open its file. */
  predicate OpenFails(file: seq<Byte>, es: seq<Event>, i: nat)
    requires i < |es|
  {
    var s := Run(file, es[..i]);
    es[i] == ClientWriteable(false) && s.link == Open && s.client.state.FSC_CONFIRMED?
  }

  lemma ClosingStep(file: seq<Byte>, s: System, e: Event)
    requires s.server.pos <= |file| && Invariant(file, s)
    ensures Step(file, s, e).link == Closed <==>
              s.link == Closed || (s.link == Open && e == ClientWriteable(false) && s.client.state.FSC_CONFIRMED?)
  {
    hide Flat, AsInt;
    if s.s2c != [] && e.ClientReceive? { HeaderWhole(s.s2c, e.k); }
  }

  lemma {:induction false} ClosedIfOpenFails(file: seq<Byte>, es: seq<Event>)
    ensures Run(file, es).link == Closed <==> exists i :: 0 <= i < |es| && OpenFails(file, es, i)
  {
    hide Step, Invariant;
    if es != [] {
      var n := |es| - 1;
      var es' := es[..n];
      ClosedIfOpenFails(file, es');
      RunKeepsInvariant(file, es');
      ClosingStep(file, Run(file, es'), es[n]);
      forall i | 0 <= i < n ensures OpenFails(file, es', i) <==> OpenFails(file, es, i) {
        assert es'[..i] == es[..i];
      }
      if exists i :: 0 <= i < |es| && OpenFails(file, es, i) {
        var i :| 0 <= i < |es| && OpenFails(file, es, i);
        assert i < n ==> OpenFails(file, es', i);
      }
      if Run(file, es).link == Closed && Run(file, es').link != Closed {
        assert OpenFails(file, es, n);
      }
    }
  }

  /** The connection is closed if and only if the client could not open its file, and that is before any
      data; the client leaves the program if and only if it has counted STOP_AT bytes. */
  lemma HowItEnds(file: seq<Byte>, es: seq<Event>)
    ensures var s := Run(file, es);
            && (s.link == Closed <==> exists i :: 0 <= i < |es| && OpenFails(file, es, i))
            && (s.link == Closed ==> s.client.state.FSC_CONFIRMED? && s.dataFrames == 0)
            && (s.link == Exited <==> AsInt(|s.client.out|) == 83762340)
  {
    hide Run, Step, Flat, AsInt, OpenFails;
    RunKeepsInvariant(file, es);
    ClosedIfOpenFails(file, es);
  }

  // ----- progress ----------------------------------------------------------------------------------

  const HANDSHAKE: seq<Event> := [ClientWriteable(true), ServerReceive(true), ServerWriteable, ClientReceive(0),
                                  ClientWriteable(true), ServerReceive(true)]

  /** How many steps of the handshake are behind. */
  function StageNumber(s: System): (n: nat)
    ensures n <= 6
  {
    match s.server.state
    case FSS_CONNECTED => if s.client.state.FSC_CONNECTED? then 0 else 1
    case FSS_HEADER_READY => 2
    case FSS_WAIT_START =>
      if s.client.state.FSC_WAIT_CONFIRM? then 3 else if s.client.state.FSC_CONFIRMED? then 4 else 5
    case FSS_TRANSFER => 6
    case FSS_DONE => 6
    case _ => 0
  }

  lemma HandshakeStep(file: seq<Byte>, s: System, i: nat)
    requires s.server.pos <= |file| && Invariant(file, s) && s.link != Closed && !s.server.state.FSS_ERROR?
    requires i < 6 && (s.link == Exited || i <= StageNumber(s))
    ensures var s' := Step(file, s, HANDSHAKE[i]);
            s'.link != Closed && !s'.server.state.FSS_ERROR? && (s'.link == Exited || i + 1 <= StageNumber(s'))
  {
    hide Flat, AsInt, Transferring;
    assert FSS_FILE_REQ & 0xffff0000 == FSS_MAGIC;
    StepKeepsInvariant(file, s, HANDSHAKE[i]);
    if s.s2c != [] { HeaderWhole(s.s2c, 0); }
  }

  lemma RunStep(file: seq<Byte>, es: seq<Event>, e: Event)
    ensures Run(file, es + [e]) == Step(file, Run(file, es), e)
  {
    assert (es + [e])[..|es|] == es;
  }

  lemma {:induction false} HandshakeRuns(file: seq<Byte>, es: seq<Event>, i: nat)
    requires Run(file, es).link == Open && !Run(file, es).server.state.FSS_ERROR? && i <= 6
    ensures var s := Run(file, es + HANDSHAKE[..i]);
            s.link != Closed && !s.server.state.FSS_ERROR? && (s.link == Exited || i <= StageNumber(s))
  {
    hide Run, Step, Invariant;
    if i == 0 {
      assert es + HANDSHAKE[..0] == es;
    } else {
      HandshakeRuns(file, es, i - 1);
      var es' := es + HANDSHAKE[..i - 1];
      assert es + HANDSHAKE[..i] == es' + [HANDSHAKE[i - 1]];
      RunKeepsInvariant(file, es');
      HandshakeStep(file, Run(file, es'), i - 1);
      RunStep(file, es', HANDSHAKE[i - 1]);
    }
  }

  function Repeat(e: Event, n: nat): (es: seq<Event>)
  {
    if n == 0 then [] else Repeat(e, n - 1) + [e]
  }

  lemma {:induction false} ServerFinishes(file: seq<Byte>, es: seq<Event>, n: nat)
    requires Run(file, es).link == Open && Run(file, es).dataFrames + n <= |file| / CHUNK + 1
    requires Run(file, es).server.state in {FSS_TRANSFER, FSS_DONE}
    ensures var s := Run(file, es + Repeat(ServerWriteable, n));
            && s.link == Open && s.dataFrames == Run(file, es).dataFrames + n
            && s.server.state in {FSS_TRANSFER, FSS_DONE}
  {
    hide Run, Step;
    if n == 0 {
      assert es + [] == es;
    } else {
      ServerFinishes(file, es, n - 1);
      var es' := es + Repeat(ServerWriteable, n - 1);
      assert es + Repeat(ServerWriteable, n) == es' + [ServerWriteable];
      RunStep(file, es', ServerWriteable);
      FramesUntilDone(file, es');
      ChunkWritten(file, Run(file, es'));
    }
  }

  lemma ChunkWritten(file: seq<Byte>, s: System)
    requires s.server.pos <= |file| && s.link == Open && s.server.state.FSS_TRANSFER?
    ensures var s' := Step(file, s, ServerWriteable);
            s'.link == Open && s'.dataFrames == s.dataFrames + 1 && s'.server.state in {FSS_TRANSFER, FSS_DONE}
  {
  }

  lemma {:induction false} ClientDrains(file: seq<Byte>, es: seq<Event>, n: nat)
    requires Run(file, es).link == Open && Run(file, es).server.state.FSS_DONE? && n <= |Run(file, es).s2c|
    ensures var s := Run(file, es + Repeat(ClientReceive(0), n));
            s.server.state.FSS_DONE? && (s.link == Exited || (s.link == Open && |s.s2c| == |Run(file, es).s2c| - n))
  {
    hide Run, Step, Invariant;
    if n == 0 {
      assert es + [] == es;
    } else {
      ClientDrains(file, es, n - 1);
      var es' := es + Repeat(ClientReceive(0), n - 1);
      assert es + Repeat(ClientReceive(0), n) == es' + [ClientReceive(0)];
      RunStep(file, es', ClientReceive(0));
      RunKeepsInvariant(file, es');
      FrameRead(file, Run(file, es'));
    }
  }

  lemma FrameRead(file: seq<Byte>, s: System)
    requires s.server.pos <= |file| && Invariant(file, s) && s.server.state.FSS_DONE?
    requires s.link == Exited || (s.link == Open && s.s2c != [])
    ensures var s' := Step(file, s, ClientReceive(0));
            && s'.server.state.FSS_DONE? && (s.link == Exited ==> s'.link == Exited)
            && (s'.link == Exited || (s'.link == Open && |s'.s2c| == |s.s2c| - 1))
  {
    hide Flat, AsInt;
  }

  /** The transfer is over: the client has exactly the file, or it has left at STOP_AT bytes. */
  predicate Over(file: seq<Byte>, s: System)
  {
    || (s.link == Open && s.server.state.FSS_DONE? && s.client.out == file)
    || (s.link == Exited && AsInt(|s.client.out|) == STOP_AT)
  }

  /** From every reachable state in which the connection is up and the server could open its file, the
      two can go on to the end. */
  lemma CanGoOn(file: seq<Byte>, es: seq<Event>) returns (rest: seq<Event>)
    requires Run(file, es).link == Open && !Run(file, es).server.state.FSS_ERROR?
    ensures Over(file, Run(file, es + rest))
  {
    hide Run, Step, AsInt, Flat, Repeat;
    HandshakeRuns(file, es, 6);
    rest := HANDSHAKE[..6];
    HowItEnds(file, es + rest);
    if Run(file, es + rest).link == Open {
      var es1 := es + rest;
      var todo := Repeat(ServerWriteable, |file| / CHUNK + 1 - FramesSent(file, es1));
      ServerFinishes(file, es1, |file| / CHUNK + 1 - FramesSent(file, es1));
      var es2 := es1 + todo;
      FramesUntilDone(file, es2);
      var last := Repeat(ClientReceive(0), |Run(file, es2).s2c|);
      ClientDrains(file, es2, |Run(file, es2).s2c|);
      rest := rest + todo + last;
      assert es + rest == es2 + last;
      HowItEnds(file, es + rest);
      if Run(file, es + rest).link == Open {
        DoneAndDelivered(file, es + rest);
        FlatNothing();
      }
    }
  }

  /** At event i the server, waiting for the start, could not open its file. */
  predicate ServerOpenFails(file: seq<Byte>, es: seq<Event>, i: nat)
    requires i < |es|
  {
    var s := Run(file, es[..i]);
    es[i] == ServerReceive(false) && s.link == Open && s.server.state.FSS_WAIT_START? && s.c2s != []
  }

  lemma ServerErrorStep(file: seq<Byte>, s: System, e: Event)
    requires s.server.pos <= |file| && Invariant(file, s)
    ensures Step(file, s, e).server.state.FSS_ERROR? <==>
              || s.server.state.FSS_ERROR?
              || (e == ServerReceive(false) && s.link == Open && s.server.state.FSS_WAIT_START? && s.c2s != [])
    ensures s.server.state.FSS_ERROR? ==> Step(file, s, e) == s
  {
    hide Flat, AsInt;
    assert FSS_FILE_REQ & 0xffff0000 == FSS_MAGIC;
    assert s.s2c + [] == s.s2c && s.c2s + [] == s.c2s;
  }

  /** The server is in its error state if and only if it could not open its file. */
  lemma {:induction false} ErrorIfServerOpenFails(file: seq<Byte>, es: seq<Event>)
    ensures Run(file, es).server.state.FSS_ERROR? <==> exists i :: 0 <= i < |es| && ServerOpenFails(file, es, i)
  {
    hide Step, Invariant;
    if es != [] {
      var n := |es| - 1;
      var es' := es[..n];
      ErrorIfServerOpenFails(file, es');
      RunKeepsInvariant(file, es');
      ServerErrorStep(file, Run(file, es'), es[n]);
      forall i | 0 <= i < n ensures ServerOpenFails(file, es', i) <==> ServerOpenFails(file, es, i) {
        assert es'[..i] == es[..i];
      }
      if exists i :: 0 <= i < |es| && ServerOpenFails(file, es, i) {
        var i :| 0 <= i < |es| && ServerOpenFails(file, es, i);
        assert i < n ==> ServerOpenFails(file, es', i);
      }
      if Run(file, es).server.state.FSS_ERROR? && !Run(file, es').server.state.FSS_ERROR? {
        assert ServerOpenFails(file, es, n);
      }
    }
  }

  /** Then nothing moves any more: the server tells the client nothing, and both wait for ever. */
  lemma {:induction false} ErrorHangs(file: seq<Byte>, es: seq<Event>, rest: seq<Event>)
    requires Run(file, es).server.state.FSS_ERROR?
    ensures Run(file, es + rest) == Run(file, es)
    ensures Run(file, es).link == Open && Run(file, es).client.state.FSC_TRANSFER? && Run(file, es).client.out == []
  {
    hide Run, Step, Flat;
    RunKeepsInvariant(file, es);
    if rest == [] {
      assert es + rest == es;
    } else {
      var rest', e := rest[..|rest| - 1], rest[|rest| - 1];
      ErrorHangs(file, es, rest');
      assert es + rest == (es + rest') + [e];
      RunStep(file, es + rest', e);
      ServerErrorStep(file, Run(file, es), e);
    }
  }

  /** As long as the connection is up, the transfer can be completed if and only if the server has not
      failed to open its file. */
  lemma Completes(file: seq<Byte>, es: seq<Event>)
    requires Run(file, es).link == Open
    ensures (exists rest :: Over(file, Run(file, es + rest))) <==>
              !(exists i :: 0 <= i < |es| && ServerOpenFails(file, es, i))
  {
    hide Run, AsInt, ServerOpenFails;
    ErrorIfServerOpenFails(file, es);
    if Run(file, es).server.state.FSS_ERROR? {
      forall rest ensures !Over(file, Run(file, es + rest)) {
        ErrorHangs(file, es, rest);
      }
    } else {
      var rest := CanGoOn(file, es);
    }
  }

  /** A run that ends so: the handshake, up to an fopen that fails at the server. */
  lemma ServerHangs(file: seq<Byte>) returns (es: seq<Event>)
    ensures Run(file, es).link == Open && Run(file, es).server.state.FSS_ERROR?
    ensures forall rest :: Run(file, es + rest) == Run(file, es)
  {
    hide Run, AsInt;
    var e3 := HANDSHAKE[..3];
    StartedHandshake(file);
    var e5 := e3 + [ClientReceive(0)] + [ClientWriteable(true)];
    es := e5 + [ServerReceive(false)];
    RunStep(file, e3, ClientReceive(0));
    RunStep(file, e3 + [ClientReceive(0)], ClientWriteable(true));
    RunStep(file, e5, ServerReceive(false));
    forall rest ensures Run(file, es + rest) == Run(file, es) {
      ErrorHangs(file, es, rest);
    }
  }

  /** After three steps the server has confirmed. */
  lemma StartedHandshake(file: seq<Byte>)
    ensures Run(file, HANDSHAKE[..3]) ==
              System(Client(FSC_WAIT_CONFIRM, 0, []), Server(FSS_WAIT_START, 1, 0), [], [Header(FSS_FILE_RESP_OK, 0)],
                     Open, false, 0)
  {
    hide AsInt;
    var e0: seq<Event> := [];
    var e1 := e0 + [ClientWriteable(true)];
    var e2 := e1 + [ServerReceive(true)];
    assert HANDSHAKE[..3] == e2 + [ServerWriteable];
    assert FSS_FILE_REQ & 0xffff0000 == FSS_MAGIC;
    RunStep(file, e0, ClientWriteable(true));
    RunStep(file, e1, ServerReceive(true));
    assert Run(file, e2).server == Server(FSS_HEADER_READY, 1, 0);
    RunStep(file, e2, ServerWriteable);
  }

  function FramesSent(file: seq<Byte>, es: seq<Event>): (n: nat)
    ensures n <= |file| / CHUNK + 1
  {
    FramesUntilDone(file, es);
    Run(file, es).dataFrames
  }

  lemma FlatNothing()
    ensures Flat([]) == []
  {
  }

  // ----- what either party does with any frame -----------------------------------------------------------

  /** What counts as a frame that does not belong: for the client, anything but a header in reply to its request
      and data after the start; for the server, data in place of the request, and after the start anything but
      0x98AC000F. */
  lemma WhatIsUnexpected(file: seq<Byte>, s: System, e: Event)
    requires s.server.pos <= |file| && s.link == Open && !s.unexpected
    ensures Step(file, s, e).unexpected <==>
              || (e.ClientReceive? && s.s2c != []
                  && s.client.state != (if s.s2c[0].Header? then FSC_WAIT_CONFIRM else FSC_TRANSFER))
              || (e.ServerReceive? && s.c2s != [] && !s.server.state.FSS_WAIT_START?
                  && (s.c2s[0].Data? || !(s.server.state.FSS_CONNECTED? || s.c2s[0].kind == 0x98AC000F)))
  {
    hide AsInt;
  }

  /** The header of a request that the server accepts: the magic number in its upper half, and at most 256 MB. */
  predicate Acceptable(f: Frame)
  {
    f.Header? && f.kind >> 16 == 0x98AC && f.filesize <= 268435456
  }

  /** What the client sends, and when: its request, and after the confirmation the start. */
  lemma ClientSends(c: Client, opens: bool)
    ensures var (c', f, v) := ClientWrites(c, opens);
            && f == (if c.state.FSC_CONNECTED? then Some(Header(0x98AC0001, 1))
                     else if c.state.FSC_CONFIRMED? && opens then Some(Header(0x98AC0004, 1)) else None)
            && v == (if c.state.FSC_CONFIRMED? && !opens then Close else Continue)
            && c'.state == (if f.None? then c.state else if c.state.FSC_CONNECTED? then FSC_WAIT_CONFIRM else FSC_TRANSFER)
            && c'.bytes == c.bytes && c'.out == if c'.state.FSC_TRANSFER? && c' != c then [] else c.out
  {
  }

  /** What makes the server leave the state it is in, and which frames it has no use for. */
  lemma ServerVerdict(s: Server, f: Frame, opens: bool)
    ensures var (s', v) := ServerReads(s, f, opens);
            && (s'.state.FSS_ERROR? <==>
                  || s.state.FSS_ERROR?
                  || (s.state.FSS_CONNECTED? && f.Header? && !Acceptable(f))
                  || (s.state.FSS_WAIT_START? && !opens))
            && (s'.state.FSS_HEADER_READY? && s' != s <==> s.state.FSS_CONNECTED? && Acceptable(f))
            && (s'.state.FSS_TRANSFER? && s' != s <==> s.state.FSS_WAIT_START? && opens)
            && (s'.state != s.state || s' == s)
            && v == if (s.state.FSS_CONNECTED? && f.Header?) || s.state.FSS_WAIT_START?
                       || (!s.state.FSS_CONNECTED? && f.Header? && f.kind == 0x98AC000F) then Continue else Unexpected
  {
  }

  /** Which reply closes the connection, when the client leaves the program, and which frames it has no use for. */
  lemma ClientVerdict(c: Client, f: Frame)
    ensures var (c', v) := ClientReads(c, f);
            && (v == Close <==> c.state.FSC_WAIT_CONFIRM? && f.Header? && f.kind != 0x98AC0002)
            && (v == Exit <==> c.state.FSC_TRANSFER? && f.Data? && AsInt(c.bytes + |f.bytes|) == 83762340)
            && (v == Continue && c'.state != c.state <==>
                  c.state.FSC_WAIT_CONFIRM? && f.Header? && f.kind == 0x98AC0002)
            && (v == Unexpected <==>
                  !(c.state.FSC_WAIT_CONFIRM? && f.Header?) && !(c.state.FSC_TRANSFER? && f.Data?))
            && (v in {Close, Unexpected} ==> c' == c)
            && c'.out == (if c.state.FSC_TRANSFER? && f.Data? then c.out + f.bytes else c.out)
            && c'.bytes == if c.state.FSC_TRANSFER? && f.Data? then AsInt(c.bytes + |f.bytes|) else c.bytes
  {
  }

  /** What happens to a server, whatever the client is: it receives a frame, or becomes writeable. */
  datatype Input = Gets(f: Frame, opens: bool) | Writes

  /** The server after these inputs, and the frames it has written. */
  function Serve(file: seq<Byte>, ins: seq<Input>): (r: (Server, seq<Frame>))
    ensures r.0.pos <= |file|
  {
    if ins == [] then (Init().server, [])
    else
      var (s, fs) := Serve(file, ins[..|ins| - 1]);
      match ins[|ins| - 1]
      case Gets(f, opens) => (ServerReads(s, f, opens).0, fs)
      case Writes => var (s', f) := ServerWrites(s, file); (s', fs + Emitted(f))
  }

  /** The first header that the server gets. */
  function Request(ins: seq<Input>): (f: Option<Frame>)
  {
    if ins == [] then None
    else
      var r := Request(ins[..|ins| - 1]);
      if r.None? && ins[|ins| - 1].Gets? && ins[|ins| - 1].f.Header? then Some(ins[|ins| - 1].f) else r
  }

  /** The frames are the confirmation and then chunks of 10000 bytes, which are the file up to pos; the last
      chunk is shorter, if it is all. */
  ghost predicate Confirmed(file: seq<Byte>, fs: seq<Frame>, pos: nat, done: bool)
  {
    && fs != [] && fs[0] == Header(0x98AC0002, 0) && (forall f | f in fs[1..] :: f.Data?)
    && pos <= |file| && Flat(fs[1..]) == file[..pos] && (done ==> pos == |file| && 1 < |fs|)
    && forall i :: 1 <= i < |fs| ==>
         fs[i].Data? && |fs[i].bytes| <= 10000 && (|fs[i].bytes| < 10000 <==> done && i == |fs| - 1)
  }

  /** Against any client: the first header decides. Until it comes the server waits; if it is not acceptable the
      server is in its error state and never writes anything; if it is, the server writes nothing but its
      confirmation and the file, from the beginning, chunk by chunk, and is done when it has written all. */
  lemma {:induction false} AnyClient(file: seq<Byte>, ins: seq<Input>)
    ensures var (s, fs) := Serve(file, ins);
            match Request(ins)
            case None => s == Server(FSS_CONNECTED, 0, 0) && fs == []
            case Some(h) =>
              if !Acceptable(h) then s == Server(FSS_ERROR, 0, 0) && fs == []
              else
                && s.filesize == h.filesize
                && (fs == [] <==> s.state.FSS_HEADER_READY?)
                && (fs != [] ==> Confirmed(file, fs, s.pos, s.state.FSS_DONE?))
                && s.state in {FSS_HEADER_READY, FSS_WAIT_START, FSS_TRANSFER, FSS_DONE, FSS_ERROR}
                && (s.state !in {FSS_TRANSFER, FSS_DONE} ==> s.pos == 0 && |fs| <= 1)
  {
    hide Flat, Confirmed, Acceptable;
    if ins != [] {
      AnyClient(file, ins[..|ins| - 1]);
      var (s, fs) := Serve(file, ins[..|ins| - 1]);
      match ins[|ins| - 1] {
        case Gets(f, opens) => ServerVerdict(s, f, opens);
        case Writes => ConfirmedGrows(file, s, fs);
      }
    }
  }

  lemma ConfirmedGrows(file: seq<Byte>, s: Server, fs: seq<Frame>)
    requires s.pos <= |file|
    ensures var (s', f) := ServerWrites(s, file);
            && (s.state.FSS_HEADER_READY? && fs == [] && s.pos == 0 ==>
                  |fs + Emitted(f)| == 1 && Confirmed(file, fs + Emitted(f), s'.pos, false))
            && (s.state.FSS_TRANSFER? && Confirmed(file, fs, s.pos, false) ==>
                  Confirmed(file, fs + Emitted(f), s'.pos, s'.state.FSS_DONE?))
            && (f.None? ==> fs + Emitted(f) == fs)
  {
    var (s', f) := ServerWrites(s, file);
    if s.state.FSS_TRANSFER? && Confirmed(file, fs, s.pos, false) {
      FlatAppend(fs[1..], f.value);
      assert (fs + [f.value])[1..] == fs[1..] + [f.value];
      assert file[..s.pos] + f.value.bytes == file[..s'.pos];
    }
  }

  // ----- the code ------------------------------------------------------------------------------------

  /** per_session_file_info and the open file. */
  class FileServer {
    var state: ServerState
    var filesize: int
    var pos: nat
    const file: seq<Byte>

    ghost function Abstract(): (s: Server)
      reads this
    {
      Server(state, filesize, pos)
    }

    /** LWS_CALLBACK_ESTABLISHED. */
    constructor (file: seq<Byte>)
      ensures Abstract() == Init().server && this.file == file
    {
      state, filesize, pos, this.file := FSS_CONNECTED, 0, 0, file;
    }

    /** LWS_CALLBACK_SERVER_WRITEABLE. written is what lws_write returns for a frame of the given length;
        when it is too little the connection is closed, in the state before, with the chunk read. */
    method Writeable(written: int -> int) returns (frame: Option<Frame>, ret: int)
      requires pos <= |file|
      modifies this
      ensures pos <= |file|
      ensures frame == ServerWrites(old(Abstract()), file).1
      ensures ret == if frame.Some? && written(Length(frame.value)) < Length(frame.value) then -1 else 0
      ensures var s := ServerWrites(old(Abstract()), file).0;
              Abstract() == if ret == 0 then s else s.(state := old(state))
    {
      frame, ret := None, 0;
      if state == FSS_HEADER_READY {
        frame := Some(Header(FSS_FILE_RESP_OK, 0));
        if written(FSS_HSK_HDR_SIZE) < FSS_HSK_HDR_SIZE {
          return frame, -1;
        }
        state := FSS_WAIT_START;
      } else if state == FSS_TRANSFER {
        var n := Min(CHUNK, |file| - pos);
        frame := Some(Data(file[pos..pos + n]));
        pos := pos + n;
        if written(n) < n {
          return frame, -1;
        }
        if n < CHUNK {
          state := FSS_DONE;
        }
      }
    }

    /** LWS_CALLBACK_RECEIVE. */
    method Receive(f: Frame, opens: bool) returns (verdict: Verdict)
      modifies this
      ensures (Abstract(), verdict) == ServerReads(old(Abstract()), f, opens)
    {
      verdict := Continue;
      if state == FSS_CONNECTED {
        if f.Data? {
          return Unexpected;
        }
        if f.kind & 0xffff0000 != FSS_MAGIC || f.filesize > FSS_MAX_FILE_SIZE {
          state := FSS_ERROR;
        } else {
          filesize := f.filesize;
          state := FSS_HEADER_READY;
        }
      } else if state == FSS_WAIT_START {
        if opens {
          pos := 0;
          state := FSS_TRANSFER;
        } else {
          state := FSS_ERROR;
        }
      } else if !(f.Header? && f.kind == FSS_DUMMY) {
        return Unexpected;
      }
    }
  }

  /** The length of a frame from the server. */
  function Length(f: Frame): (n: nat)
  {
    if f.Header? then 8 else |f.bytes|
  }

  /** per_session_file_client_info and the output file. */
  class FileClient {
    var state: ClientState
    var bytes: int
    var out: seq<Byte>

    ghost function Abstract(): (c: Client)
      reads this
    {
      Client(state, bytes, out)
    }

    /** LWS_CALLBACK_CLIENT_ESTABLISHED. */
    constructor ()
      ensures Abstract() == Init().client
    {
      state, bytes, out := FSC_CONNECTED, 0, [];
    }

    /** LWS_CALLBACK_CLIENT_WRITEABLE. written is what lws_write returns. The comparison with sizeof is
        one of unsigned numbers, so an error, a negative value, passes it. */
    method Writeable(opens: bool, written: int) returns (frame: Option<Frame>, verdict: Verdict)
      requires -0x8000_0000 <= written < 0x8000_0000
      modifies this
      ensures var (c, f, v) := ClientWrites(old(Abstract()), opens);
              if 0 <= written < 296 then
                && Abstract() == c.(state := old(state)) && frame == f
                && verdict == if old(state) in {FSC_CONNECTED, FSC_CONFIRMED} then Close else Continue
              else
                Abstract() == c && frame == f && verdict == v
    {
      frame, verdict := None, Continue;
      if state == FSC_CONNECTED {
        frame := Some(Header(FSS_FILE_REQ, 1));
        if AsSize(written) < HEADER_SIZE {
          return frame, Close;
        }
        state := FSC_WAIT_CONFIRM;
      } else if state == FSC_CONFIRMED {
        if !opens {
          return None, Close;
        }
        out := [];
        frame := Some(Header(FSS_FILE_START, 1));
        if AsSize(written) < HEADER_SIZE {
          return frame, Close;
        }
        state := FSC_TRANSFER;
      }
    }

    /** LWS_CALLBACK_CLIENT_RECEIVE. */
    method Receive(f: Frame) returns (verdict: Verdict)
      modifies this
      ensures (Abstract(), verdict) == ClientReads(old(Abstract()), f)
    {
      verdict := Continue;
      if state == FSC_WAIT_CONFIRM {
        if f.Data? {
          return Unexpected;
        }
        if f.kind == FSS_FILE_RESP_OK {
          state := FSC_CONFIRMED;
        } else {
          return Close;
        }
      } else if state == FSC_TRANSFER {
        if f.Header? {
          return Unexpected;
        }
        bytes := AsInt(bytes + |f.bytes|);
        out := out + f.bytes;
        if bytes == STOP_AT {
          return Exit;
        }
      } else {
        return Unexpected;
      }
    }
  }
}
