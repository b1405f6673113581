/** A client and its connection together, over two byte streams that are cut into pieces at will:
    what the client takes for the result is the minimum and maximum of the matrix it encoded. */
module EndToEnd {
  import opened Wire
  import opened Framing
  import opened MatrixCodec
  import opened MatrixServer
  import opened MinMax

  datatype Phase =
    | AwaitDataOk
    | AwaitStartOk
    | AwaitStatus
    | Finished(minValue: I32, maxValue: I32)
    | Failed

  /** Each direction is a queue of bytes in three places: still with the sender, in flight, and
      with the receiver that has not consumed them. */
  datatype Stream = Stream(unsent: seq<Byte>, inFlight: seq<Byte>, received: seq<Byte>)

  const SILENT := Stream([], [], [])

  datatype World = World(phase: Phase, up: Stream, conn: Conn, down: Stream)

  function Content(s: Stream): seq<Byte> {
    s.received + s.inFlight + s.unsent
  }

  datatype Step =
    | ClientSends(n: nat)
    | ServerReceives(n: nat)
    | ServerHandles
    | ServerThread(e: MatrixServer.Step)   // the worker, or the return of a join
    | ServerSends(n: nat)
    | ClientReceives(n: nat)
    | ClientHandles

  predicate CanSend(s: Stream, n: nat) { 0 < n <= |s.unsent| }

  function Sent(s: Stream, n: nat): (s': Stream)
    requires CanSend(s, n)
    ensures Content(s') == Content(s)
  {
    assert s.inFlight + s.unsent == (s.inFlight + s.unsent[..n]) + s.unsent[n..];
    assert s.received + (s.inFlight + s.unsent) == Content(s);
    s.(inFlight := s.inFlight + s.unsent[..n], unsent := s.unsent[n..])
  }

  predicate CanReceive(s: Stream, n: nat) { 0 < n <= |s.inFlight| }

  function Received(s: Stream, n: nat): (s': Stream)
    requires CanReceive(s, n)
    ensures Content(s') == Content(s)
  {
    assert s.inFlight == s.inFlight[..n] + s.inFlight[n..];
    s.(received := s.received + s.inFlight[..n], inFlight := s.inFlight[n..])
  }

  function DataMessage(q: Request): Message { Message(MSG_DATA, EncodeData(q)) }

  const START := Message(MSG_START, [])
  const STATUS := Message(MSG_STATUS, [])

  /** What the client has asked in a phase and waits to see answered. */
  function Asked(q: Request, p: Phase): Message {
    match p
    case AwaitDataOk => DataMessage(q)
    case AwaitStartOk => START
    case _ => STATUS
  }

  function Awaited(p: Phase): U16 {
    match p
    case AwaitDataOk => MSG_DATA_OK
    case AwaitStartOk => MSG_START_OK
    case _ => MSG_STATUS_RESP
  }

  predicate Waiting(p: Phase) { !p.Finished? && !p.Failed? }

  /** The client's reaction to an answer. */
  function React(p: Phase, m: Message): Phase {
    if m.typ == MSG_ERROR || m.typ != Awaited(p) then Failed
    else match p
         case AwaitDataOk => AwaitStartOk
         case AwaitStartOk => AwaitStatus
         case _ =>
           match DecodeStatus(m.payload)
           case None => Failed
           case Some(a) =>
             if a.status == STATUS_DONE then Finished(a.minValue, a.maxValue)
             else if a.status == STATUS_ERROR then Failed
             else AwaitStatus
  }

  /** What ends the exchange, whatever the server is: an answer of another type than the one the
      client waits for, an error above all, a status answer cut short, or one that reports a
      failure; and a status answer of at least 16 bytes that starts with the number of DONE, from
      which the result is read off the next eight. Nothing else does. */
  lemma ReactMeaning(p: Phase, m: Message)
    requires Waiting(p)
    ensures React(p, m).Failed? <==>
              || (p.AwaitDataOk? && m.typ != 101)
              || (p.AwaitStartOk? && m.typ != 102)
              || (p.AwaitStatus? && (m.typ != 103 || |m.payload| < 16 || m.payload[..4] == [0, 0, 0, 4]))
    ensures React(p, m).Finished? <==>
              p.AwaitStatus? && m.typ == 103 && |m.payload| >= 16 && m.payload[..4] == [0, 0, 0, 3]
    ensures React(p, m).Finished? ==>
              EncodeI32(React(p, m).minValue) == m.payload[4..8] && EncodeI32(React(p, m).maxValue) == m.payload[8..12]
    ensures React(p, m).AwaitStartOk? <==> p.AwaitDataOk? && m.typ == 101
    ensures React(p, m).AwaitStatus? ==> !p.AwaitDataOk?
    ensures !React(p, m).AwaitDataOk?
  {
    hide EncodeU32, DecodeU32, EncodeI32, DecodeI32;
    if |m.payload| >= 16 {
      U32RoundTripBytes(m.payload[..4]);
      U32RoundTrip(3);
      U32RoundTrip(4);
      U32Bytes(3);
      U32Bytes(4);
      I32RoundTripBytes(m.payload[4..8]);
      I32RoundTripBytes(m.payload[8..12]);
    }
  }

  /** The client starts by sending its matrix. */
  function Init(q: Request): World
    requires Sendable(DataMessage(q))
  {
    World(AwaitDataOk, SILENT.(unsent := Encode(DataMessage(q))), NEW_CONN, SILENT)
  }

  predicate Enabled(w: World, e: Step) {
    match e
    case ClientSends(n) => CanSend(w.up, n)
    case ServerReceives(n) => CanReceive(w.up, n)
    case ServerHandles => w.conn.handler.Listening? && w.down.unsent == [] && Parse(w.up.received).Some?
    case ServerThread(se) =>
      !se.Receive? && !se.ConnectionEnds? && !se.FinalJoin? && MatrixServer.Enabled(w.conn, se)
    case ServerSends(n) => CanSend(w.down, n)
    case ClientReceives(n) => CanReceive(w.down, n)
    case ClientHandles => Waiting(w.phase) && w.up.unsent == [] && Parse(w.down.received).Some?
  }

  function Reply(s: Stream, r: Option<Message>): Stream {
    match r
    case None => s
    case Some(m) => if Sendable(m) then s.(unsent := s.unsent + Encode(m)) else s
  }

  function Next(q: Request, w: World, e: Step): World
    requires Enabled(w, e)
  {
    match e
    case ClientSends(n) => w.(up := Sent(w.up, n))
    case ServerReceives(n) => w.(up := Received(w.up, n))
    case ServerHandles =>
      var (m, rest) := Parse(w.up.received).value;
      var (c, r) := Handle(w.conn, m);
      w.(up := w.up.(received := rest), conn := c, down := Reply(w.down, r))
    case ServerThread(se) => w.(conn := MatrixServer.Next(w.conn, se))
    case ServerSends(n) => w.(down := Sent(w.down, n))
    case ClientReceives(n) => w.(down := Received(w.down, n))
    case ClientHandles =>
      var (m, rest) := Parse(w.down.received).value;
      var p := React(w.phase, m);
      w.(phase := p, down := w.down.(received := rest),
         up := if Waiting(p) then Reply(w.up, Some(Asked(q, p))) else w.up)
  }

  predicate Legal(q: Request, w: World, run: seq<Step>)
    decreases |run|
  {
    run == [] || (Enabled(w, run[0]) && Legal(q, Next(q, w, run[0]), run[1..]))
  }

  function Exec(q: Request, w: World, run: seq<Step>): World
    requires Legal(q, w, run)
    decreases |run|
  {
    if run == [] then w else Exec(q, Next(q, w, run[0]), run[1..])
  }

  // ---- the invariant ----

  predicate Holds(c: Conn, q: Request) {
    c.data == q.data && c.rows == q.rows && c.cols == q.cols && c.numThreads == q.numThreads
  }

  /** The connection before the command of a phase has been handled. */
  predicate Before(q: Request, p: Phase, c: Conn) {
    match p
    case AwaitDataOk => c == NEW_CONN
    case AwaitStartOk => Holds(c, q) && c.status == STATUS_READY
    case _ => Holds(c, q) && c.status >= STATUS_RUNNING
  }

  predicate Answers(q: Request, p: Phase, c: Conn, m: Message) {
    && Sendable(m) && m.typ == Awaited(p) && |m.payload| <= 16
    && match p
       case AwaitDataOk => Before(q, AwaitStartOk, c)
       case AwaitStartOk => Before(q, AwaitStatus, c)
       case _ =>
         && Before(q, AwaitStatus, c)
         && DecodeStatus(m.payload).Some?
         && var a := DecodeStatus(m.payload).value;
            && (a.status == STATUS_DONE ==> IsMinMax(q.data, MinMaxResult(a.minValue, a.maxValue)))
            && (a.status == STATUS_ERROR ==> c.status == STATUS_ERROR)
  }

  /** One question or one answer is under way, never both. */
  ghost predicate Exchange(q: Request, w: World) {
    || (&& Sendable(Asked(q, w.phase)) && Content(w.up) == Encode(Asked(q, w.phase))
        && Content(w.down) == [] && Before(q, w.phase, w.conn))
    || (&& Content(w.up) == []
        && exists m :: Answers(q, w.phase, w.conn, m) && Content(w.down) == Encode(m))
  }

  predicate Quiet(w: World) { Content(w.up) == [] && Content(w.down) == [] }

  ghost predicate Inv(q: Request, w: World) {
    && MatrixServer.Inv(w.conn) && w.conn.handler.Listening?
    && match w.phase
       case Finished(lo, hi) => Quiet(w) && IsMinMax(q.data, MinMaxResult(lo, hi))
       case Failed => Quiet(w) && w.conn.status == STATUS_ERROR
       case _ => Exchange(q, w)
  }

  /** A whole message in a stream: as soon as one can be parsed it is that one, and the stream
      is empty after it. */
  lemma ParsedIsTheMessage(s: Stream, m: Message)
    requires Sendable(m) && Content(s) == Encode(m) && Parse(s.received).Some?
    ensures Parse(s.received).value == (m, [])
    ensures s.inFlight == [] && s.unsent == []
  {
    hide Parse, Encode;
    var (m', rest) := Parse(s.received).value;
    ParseIsExact(s.received);
    assert Content(s) == Encode(m') + (rest + s.inFlight + s.unsent);
    ParseOfEncode(m', rest + s.inFlight + s.unsent);
    assert Encode(m) == Encode(m) + [];
    ParseOfEncode(m, []);
  }

  lemma NothingParsed(s: Stream)
    requires Content(s) == []
    ensures s.received == [] && Parse(s.received) == None
  {
  }

  lemma DataAnswered(q: Request)
    requires WellFormed(q) && Sendable(DataMessage(q))
    ensures Handle(NEW_CONN, DataMessage(q)) == (Install(NEW_CONN, q), Some(DATA_OK))
    ensures Answers(q, AwaitDataOk, Install(NEW_CONN, q), DATA_OK)
  {
    hide DecodeData, EncodeData;
    DecodeOfEncode(q);
  }

  lemma StartAnswered(q: Request, c: Conn)
    requires MatrixServer.Inv(c) && c.handler.Listening? && Before(q, AwaitStartOk, c)
    ensures var (c', r) := Handle(c, START);
            r == Some(START_OK) && c'.handler.Listening? && Answers(q, AwaitStartOk, c', START_OK)
  {
  }

  lemma StatusAnswered(q: Request, c: Conn)
    requires MatrixServer.Inv(c) && c.handler.Listening? && Before(q, AwaitStatus, c)
    ensures var (c', r) := Handle(c, STATUS);
            c' == c && r.Some? && Answers(q, AwaitStatus, c, r.value)
  {
    hide EncodeStatus, DecodeStatus;
    StatusReplyIsTrue(c, STATUS);
  }

  lemma HandleAnswers(q: Request, p: Phase, c: Conn) returns (r: Message)
    requires WellFormed(q) && Sendable(DataMessage(q)) && Waiting(p)
    requires MatrixServer.Inv(c) && c.handler.Listening? && Before(q, p, c)
    ensures var (c', reply) := Handle(c, Asked(q, p));
            && reply == Some(r) && Sendable(r)
            && c'.handler.Listening? && MatrixServer.Inv(c') && Answers(q, p, c', r)
  {
    hide Handle, MatrixServer.Inv;
    HandleKeepsInv(c, Asked(q, p));
    if p.AwaitDataOk? {
      DataAnswered(q);
    } else if p.AwaitStartOk? {
      StartAnswered(q, c);
    } else {
      StatusAnswered(q, c);
    }
    r := Handle(c, Asked(q, p)).1.value;
  }

  lemma ServerHandlesKeepsInv(q: Request, w: World)
    requires WellFormed(q) && Sendable(DataMessage(q))
    requires Inv(q, w) && Waiting(w.phase) && Enabled(w, ServerHandles)
    ensures Inv(q, Next(q, w, ServerHandles))
  {
    hide Handle, Answers, Before, MatrixServer.Inv, Encode, Parse;
    if Content(w.up) == [] {
      NothingParsed(w.up);
      assert false;
    }
    ParsedIsTheMessage(w.up, Asked(q, w.phase));
    var r := HandleAnswers(q, w.phase, w.conn);
    var w' := Next(q, w, ServerHandles);
    assert Content(w'.down) == Encode(r);
    assert Content(w'.up) == [];
  }

  lemma ReactToAnswer(q: Request, p: Phase, c: Conn, m: Message)
    requires Waiting(p) && Answers(q, p, c, m)
    ensures match React(p, m)
            case Finished(lo, hi) => IsMinMax(q.data, MinMaxResult(lo, hi))
            case Failed => c.status == STATUS_ERROR
            case p' => Before(q, p', c) && !p'.AwaitDataOk?
  {
  }

  /** The client takes the answer and sends the next question, if it has one. */
  lemma ClientStep(q: Request, w: World, m: Message)
    requires Enabled(w, ClientHandles) && Content(w.up) == []
    requires Sendable(m) && Content(w.down) == Encode(m)
    ensures var w' := Next(q, w, ClientHandles);
            && w'.phase == React(w.phase, m) && w'.conn == w.conn && w'.down == SILENT
            && w'.up == if Waiting(w'.phase) then Reply(SILENT, Some(Asked(q, w'.phase))) else SILENT
  {
    hide Parse, Encode, React, Asked;
    ParsedIsTheMessage(w.down, m);
    assert w.up == SILENT;
  }

  lemma ReplyContent(m: Message)
    requires Sendable(m)
    ensures Reply(SILENT, Some(m)).unsent == Encode(m)
    ensures Content(Reply(SILENT, Some(m))) == Encode(m)
  {
  }

  lemma ClientHandlesKeepsInv(q: Request, w: World)
    requires WellFormed(q) && Sendable(DataMessage(q))
    requires Inv(q, w) && Enabled(w, ClientHandles)
    ensures Inv(q, Next(q, w, ClientHandles))
  {
    hide Parse, Encode, Before, MatrixServer.Inv, React, Next, Reply;
    if Content(w.down) == [] {
      NothingParsed(w.down);
      assert false;
    }
    var m :| Answers(q, w.phase, w.conn, m) && Content(w.down) == Encode(m);
    ClientStep(q, w, m);
    ReactToAnswer(q, w.phase, w.conn, m);
    var p := React(w.phase, m);
    if Waiting(p) {
      ReplyContent(Asked(q, p));
    }
  }

  lemma ThreadKeepsBefore(q: Request, p: Phase, c: Conn, e: MatrixServer.Step)
    requires MatrixServer.Inv(c) && c.handler.Listening? && MatrixServer.Enabled(c, e)
    requires !e.Receive? && !e.ConnectionEnds? && !e.FinalJoin?
    requires Before(q, p, c)
    ensures Before(q, p, MatrixServer.Next(c, e))
    ensures c.status == STATUS_ERROR ==> MatrixServer.Next(c, e).status == STATUS_ERROR
  {
  }

  lemma ServerThreadKeepsInv(q: Request, w: World, e: MatrixServer.Step)
    requires Sendable(DataMessage(q))
    requires Inv(q, w) && Enabled(w, ServerThread(e))
    ensures Inv(q, Next(q, w, ServerThread(e)))
  {
    hide Encode, Parse;
    var c' := MatrixServer.Next(w.conn, e);
    MatrixServer.StepKeepsInv(w.conn, e);
    if Waiting(w.phase) {
      if Content(w.up) == [] {
        var m :| Answers(q, w.phase, w.conn, m) && Content(w.down) == Encode(m);
        var p' := if w.phase.AwaitDataOk? then AwaitStartOk else AwaitStatus;
        ThreadKeepsBefore(q, p', w.conn, e);
        assert Answers(q, w.phase, c', m);
      } else {
        ThreadKeepsBefore(q, w.phase, w.conn, e);
      }
    }
  }

  lemma QuietStreams(w: World)
    requires Quiet(w)
    ensures w.up.unsent == [] == w.up.inFlight && w.down.unsent == [] == w.down.inFlight
    ensures Parse(w.up.received) == None && Parse(w.down.received) == None
  {
  }

  lemma StepKeepsInv(q: Request, w: World, e: Step)
    requires WellFormed(q) && Sendable(DataMessage(q))
    requires Inv(q, w) && Enabled(w, e)
    ensures Inv(q, Next(q, w, e))
  {
    if !Waiting(w.phase) {
      QuietStreams(w);
    }
    match e
    case ServerHandles => ServerHandlesKeepsInv(q, w);
    case ClientHandles => ClientHandlesKeepsInv(q, w);
    case ServerThread(se) => ServerThreadKeepsInv(q, w, se);
    case _ =>
  }

  lemma InitInv(q: Request)
    requires Sendable(DataMessage(q))
    ensures Inv(q, Init(q))
  {
  }

  lemma {:induction false} RunKeepsInv(q: Request, w: World, run: seq<Step>)
    requires WellFormed(q) && Sendable(DataMessage(q))
    requires Inv(q, w) && Legal(q, w, run)
    ensures Inv(q, Exec(q, w, run))
    decreases |run|
  {
    if run != [] {
      StepKeepsInv(q, w, run[0]);
      RunKeepsInv(q, Next(q, w, run[0]), run[1..]);
    }
  }

  // ---- the theorems ----

  /** End to end, for every matrix a message can carry, every thread count, every way the streams
      are cut and every interleaving with the worker: a result the client prints is the minimum
      and maximum of the matrix it encoded, it gives up only if the worker failed, and the server
      never crashes on it. */
  lemma ResultIsTrue(q: Request, run: seq<Step>)
    requires WellFormed(q) && Sendable(DataMessage(q))
    requires Legal(q, Init(q), run)
    ensures var w := Exec(q, Init(q), run);
            && (w.phase.Finished? ==> IsMinMax(q.data, MinMaxResult(w.phase.minValue, w.phase.maxValue)))
            && (w.phase.Failed? ==> w.conn.error == ERR_INTERNAL)
            && !w.conn.handler.Crashed?
  {
    InitInv(q);
    RunKeepsInv(q, Init(q), run);
  }

  lemma WholeMessageParses(s: Stream, m: Message)
    requires Sendable(m) && Content(s) == Encode(m) && s.unsent == [] && s.inFlight == []
    ensures Parse(s.received) == Some((m, []))
  {
    ParseOfEncode(m, []);
    assert s.received == Encode(m) + [];
  }

  /** The exchange never gets stuck: while the client waits, some byte can move or a whole message
      can be handled. */
  lemma NeverStuck(q: Request, run: seq<Step>) returns (e: Step)
    requires WellFormed(q) && Sendable(DataMessage(q))
    requires Legal(q, Init(q), run) && Waiting(Exec(q, Init(q), run).phase)
    ensures Enabled(Exec(q, Init(q), run), e) && !e.ServerThread?
  {
    InitInv(q);
    RunKeepsInv(q, Init(q), run);
    var w := Exec(q, Init(q), run);
    if w.up.unsent != [] {
      e := ClientSends(|w.up.unsent|);
    } else if w.up.inFlight != [] {
      e := ServerReceives(|w.up.inFlight|);
    } else if w.down.unsent != [] {
      e := ServerSends(|w.down.unsent|);
    } else if w.down.inFlight != [] {
      e := ClientReceives(|w.down.inFlight|);
    } else if Content(w.up) == [] {
      var m :| Answers(q, w.phase, w.conn, m) && Content(w.down) == Encode(m);
      WholeMessageParses(w.down, m);
      e := ClientHandles;
    } else {
      WholeMessageParses(w.up, Asked(q, w.phase));
      e := ServerHandles;
    }
  }
}
