/** The protocol gets there: for every matrix there is a run that ends with the result. */
module EndToEndRun {
  import opened Wire
  import opened Framing
  import opened MatrixCodec
  import opened MatrixServer
  import opened MinMax
  import opened EndToEnd

  ghost predicate Reaches(q: Request, w: World, w': World) {
    exists run :: EndToEnd.Legal(q, w, run) && EndToEnd.Exec(q, w, run) == w'
  }

  lemma {:induction false} LegalAppend(q: Request, w: World, run: seq<EndToEnd.Step>, run': seq<EndToEnd.Step>)
    requires EndToEnd.Legal(q, w, run) && EndToEnd.Legal(q, EndToEnd.Exec(q, w, run), run')
    ensures EndToEnd.Legal(q, w, run + run')
    ensures EndToEnd.Exec(q, w, run + run') == EndToEnd.Exec(q, EndToEnd.Exec(q, w, run), run')
    decreases |run|
  {
    hide EndToEnd.Next, EndToEnd.Enabled;
    if run == [] {
      assert run + run' == run';
    } else {
      LegalAppend(q, EndToEnd.Next(q, w, run[0]), run[1..], run');
      assert (run + run')[1..] == run[1..] + run';
    }
  }

  lemma ReachTrans(q: Request, w: World, w': World, w'': World)
    requires Reaches(q, w, w') && Reaches(q, w', w'')
    ensures Reaches(q, w, w'')
  {
    var run :| EndToEnd.Legal(q, w, run) && EndToEnd.Exec(q, w, run) == w';
    var run' :| EndToEnd.Legal(q, w', run') && EndToEnd.Exec(q, w', run') == w'';
    LegalAppend(q, w, run, run');
  }

  lemma ReachSelf(q: Request, w: World)
    ensures Reaches(q, w, w)
  {
    assert EndToEnd.Legal(q, w, []) && EndToEnd.Exec(q, w, []) == w;
  }

  lemma ReachStep(q: Request, w: World, e: EndToEnd.Step)
    requires EndToEnd.Enabled(w, e)
    ensures Reaches(q, w, EndToEnd.Next(q, w, e))
  {
    var w' := EndToEnd.Next(q, w, e);
    assert [e][1..] == [];
    assert EndToEnd.Legal(q, w', []) && EndToEnd.Exec(q, w', []) == w';
    assert EndToEnd.Legal(q, w, [e]) && EndToEnd.Exec(q, w, [e]) == w';
  }

  lemma StepOn(q: Request, w: World, e: EndToEnd.Step) returns (w': World)
    requires WellFormed(q) && Sendable(DataMessage(q)) && EndToEnd.Inv(q, w) && EndToEnd.Enabled(w, e)
    ensures w' == EndToEnd.Next(q, w, e) && EndToEnd.Inv(q, w') && Reaches(q, w, w')
  {
    w' := EndToEnd.Next(q, w, e);
    EndToEnd.StepKeepsInv(q, w, e);
    ReachStep(q, w, e);
  }

  function Arrived(s: Stream): Stream { Stream([], [], Content(s)) }

  /** All bytes of the question reach the server's side. */
  lemma DeliverUp(q: Request, w: World) returns (w': World)
    requires WellFormed(q) && Sendable(DataMessage(q)) && EndToEnd.Inv(q, w)
    ensures w' == w.(up := Arrived(w.up)) && EndToEnd.Inv(q, w') && Reaches(q, w, w')
  {
    hide Reaches, EndToEnd.Inv;
    w' := w;
    ReachSelf(q, w);
    if w'.up.unsent != [] {
      var w1 := w';
      w' := StepOn(q, w1, ClientSends(|w1.up.unsent|));
      ReachTrans(q, w, w1, w');
    }
    if w'.up.inFlight != [] {
      var w1 := w';
      w' := StepOn(q, w1, ServerReceives(|w1.up.inFlight|));
      ReachTrans(q, w, w1, w');
    }
    assert Content(w'.up) == w'.up.received;
  }

  lemma DeliverDown(q: Request, w: World) returns (w': World)
    requires WellFormed(q) && Sendable(DataMessage(q)) && EndToEnd.Inv(q, w)
    ensures w' == w.(down := Arrived(w.down)) && EndToEnd.Inv(q, w') && Reaches(q, w, w')
  {
    hide Reaches, EndToEnd.Inv;
    w' := w;
    ReachSelf(q, w);
    if w'.down.unsent != [] {
      var w1 := w';
      w' := StepOn(q, w1, ServerSends(|w1.down.unsent|));
      ReachTrans(q, w, w1, w');
    }
    if w'.down.inFlight != [] {
      var w1 := w';
      w' := StepOn(q, w1, ClientReceives(|w1.down.inFlight|));
      ReachTrans(q, w, w1, w');
    }
    assert Content(w'.down) == w'.down.received;
  }

  /** The client has asked and the server has not handled the question. */
  predicate Asking(q: Request, w: World)
  {
    && Waiting(w.phase) && Sendable(Asked(q, w.phase)) && Content(w.up) == Encode(Asked(q, w.phase))
    && Content(w.down) == [] && Before(q, w.phase, w.conn)
  }

  /** The question is delivered and handled. */
  lemma AskRound(q: Request, w: World) returns (w': World, r: Message)
    requires WellFormed(q) && Sendable(DataMessage(q)) && EndToEnd.Inv(q, w) && Asking(q, w)
    ensures EndToEnd.Inv(q, w') && Reaches(q, w, w')
    ensures Handle(w.conn, Asked(q, w.phase)) == (w'.conn, Some(r)) && Answers(q, w.phase, w'.conn, r)
    ensures w'.phase == w.phase && Content(w'.up) == [] && Content(w'.down) == Encode(r)
  {
    hide Reaches, EndToEnd.Inv, Handle, Parse, Encode, Answers, Before, Encodable;
    r := AnswerOf(q, w);
    var w1 := DeliverUp(q, w);
    WholeMessageParses(w1.up, Asked(q, w.phase));
    HandlesTo(q, w1, Asked(q, w.phase), r);
    w' := StepOn(q, w1, ServerHandles);
    ReachTrans(q, w, w1, w');
  }

  lemma HandlesTo(q: Request, w: World, m: Message, r: Message)
    requires Sendable(DataMessage(q)) && Sendable(r)
    requires w.up == Arrived(w.up) && Parse(w.up.received) == Some((m, []))
    requires w.conn.handler.Listening? && Content(w.down) == [] && Handle(w.conn, m).1 == Some(r)
    ensures EndToEnd.Enabled(w, ServerHandles)
    ensures var w' := EndToEnd.Next(q, w, ServerHandles);
            && w'.phase == w.phase && w'.conn == Handle(w.conn, m).0
            && Content(w'.up) == [] && Content(w'.down) == Encode(r)
  {
  }

  lemma AnswerOf(q: Request, w: World) returns (r: Message)
    requires WellFormed(q) && Sendable(DataMessage(q)) && EndToEnd.Inv(q, w) && Asking(q, w)
    ensures var (c', reply) := Handle(w.conn, Asked(q, w.phase));
            && w.conn.handler.Listening?
            && reply == Some(r) && Sendable(r) && Answers(q, w.phase, c', r)
  {
    r := HandleAnswers(q, w.phase, w.conn);
  }

  /** The answer is delivered and the client reacts. */
  lemma AnswerRound(q: Request, w: World, r: Message) returns (w': World)
    requires WellFormed(q) && Sendable(DataMessage(q)) && EndToEnd.Inv(q, w) && Waiting(w.phase)
    requires Sendable(r) && Content(w.up) == [] && Content(w.down) == Encode(r)
    ensures EndToEnd.Inv(q, w') && Reaches(q, w, w')
    ensures w'.phase == React(w.phase, r) && w'.conn == w.conn
    ensures Content(w'.down) == []
    ensures Waiting(w'.phase) && Sendable(Asked(q, w'.phase)) ==> Content(w'.up) == Encode(Asked(q, w'.phase))
  {
    hide Reaches, EndToEnd.Inv, React, Parse, Encode;
    var w1 := DeliverDown(q, w);
    WholeMessageParses(w1.down, r);
    w' := StepOn(q, w1, ClientHandles);
    ReachTrans(q, w, w1, w');
  }

  lemma Round(q: Request, w: World) returns (w': World, r: Message)
    requires WellFormed(q) && Sendable(DataMessage(q)) && EndToEnd.Inv(q, w) && Asking(q, w)
    ensures EndToEnd.Inv(q, w') && Reaches(q, w, w')
    ensures Handle(w.conn, Asked(q, w.phase)) == (w'.conn, Some(r)) && Answers(q, w.phase, w'.conn, r)
    ensures w'.phase == React(w.phase, r) && (Waiting(w'.phase) ==> Asking(q, w'))
  {
    hide Reaches, EndToEnd.Inv, Handle, Encode;
    var w1: World;
    w1, r := AskRound(q, w);
    w' := AnswerRound(q, w1, r);
    ReachTrans(q, w, w1, w');
    ReactToAnswer(q, w.phase, w1.conn, r);
  }

  lemma {:induction false} MinMaxExists(data: seq<I32>) returns (lo: I32, hi: I32)
    requires data != []
    ensures IsMinMax(data, MinMaxResult(lo, hi))
  {
    var front, last := data[..|data| - 1], data[|data| - 1];
    assert data == front + [last];
    if front == [] {
      lo, hi := last, last;
    } else {
      lo, hi := MinMaxExists(front);
      WidenIsMinMax(front, MinMaxResult(lo, hi), last);
      lo, hi := if last < lo then last else lo, if last > hi then last else hi;
    }
  }

  /** The worker stores its result while the client waits to ask for the status. */
  lemma WorkerRound(q: Request, w: World) returns (w': World)
    requires WellFormed(q) && Sendable(DataMessage(q)) && EndToEnd.Inv(q, w) && Asking(q, w)
    requires w.phase == AwaitStatus && w.conn.status == STATUS_RUNNING
    ensures EndToEnd.Inv(q, w') && Reaches(q, w, w') && Asking(q, w')
    ensures w'.phase == AwaitStatus && w'.conn.status == STATUS_DONE
  {
    hide Reaches;
    JobNotEmpty(q);
    var lo, hi := MinMaxExists(q.data);
    w' := StepOn(q, w, ServerThread(WorkerStores(lo, hi)));
  }

  lemma DoneIsReported(q: Request, c: Conn, r: Message)
    requires Answers(q, AwaitStatus, c, r)
    requires c.status == STATUS_DONE && Handle(c, STATUS).1 == Some(r)
    ensures React(AwaitStatus, r).Finished?
  {
  }

  lemma FailureIsReported(q: Request, c: Conn, r: Message)
    requires Answers(q, AwaitStatus, c, r)
    requires c.status == STATUS_ERROR && Handle(c, STATUS).1 == Some(r)
    ensures React(AwaitStatus, r).Failed?
  {
  }

  /** How far the exchange is from its end, in rounds. */
  function RoundsLeft(w: World): nat {
    match w.phase
    case AwaitDataOk => 3
    case AwaitStartOk => 2
    case _ => if w.conn.status == STATUS_RUNNING then 1 else 0
  }

  /** A round that is not the last brings the client to the next question. */
  lemma EarlyRound(q: Request, w: World) returns (w': World)
    requires WellFormed(q) && Sendable(DataMessage(q)) && EndToEnd.Inv(q, w) && Asking(q, w)
    requires !w.phase.AwaitStatus?
    ensures EndToEnd.Inv(q, w') && Reaches(q, w, w') && Asking(q, w')
    ensures RoundsLeft(w') < RoundsLeft(w) && w.conn.status != STATUS_ERROR && w'.conn.status != STATUS_ERROR
  {
    hide Reaches, Encode, EndToEnd.Inv, EncodeData, DecodeData, MatrixServer.Inv;
    var r: Message;
    w', r := Round(q, w);
    if w.phase.AwaitDataOk? {
      DataAnswered(q);
    } else {
      InvHasConn(q, w);
      StartAccepted(q, w.conn);
    }
  }

  lemma StartAccepted(q: Request, c: Conn)
    requires Before(q, AwaitStartOk, c) && MatrixServer.Inv(c) && c.handler.Listening?
    ensures Handle(c, START).0.status == STATUS_RUNNING
  {
  }

  lemma InvHasConn(q: Request, w: World)
    requires EndToEnd.Inv(q, w)
    ensures MatrixServer.Inv(w.conn) && w.conn.handler.Listening?
  {
  }

  lemma {:induction false} FinishAsking(q: Request, w: World) returns (w': World)
    requires WellFormed(q) && Sendable(DataMessage(q)) && EndToEnd.Inv(q, w) && Asking(q, w)
    ensures Reaches(q, w, w')
    ensures w'.phase.Finished? || (w'.phase.Failed? && w.conn.status == STATUS_ERROR)
    decreases RoundsLeft(w)
  {
    hide Reaches, Encode, EndToEnd.Inv, EncodeData, DecodeData, Handle;
    if w.phase.AwaitStatus? && w.conn.status != STATUS_RUNNING {
      var r: Message;
      w', r := Round(q, w);
      InvHasConn(q, w);
      StatusKept(w.conn);
      if w.conn.status == STATUS_DONE {
        DoneIsReported(q, w'.conn, r);
      } else {
        FailureIsReported(q, w'.conn, r);
      }
    } else {
      var w1: World;
      if w.phase.AwaitStatus? {
        w1 := WorkerRound(q, w);
      } else {
        w1 := EarlyRound(q, w);
      }
      w' := FinishAsking(q, w1);
      ReachTrans(q, w, w1, w');
    }
  }

  lemma StatusKept(c: Conn)
    ensures Handle(c, STATUS).0 == c
  {
  }

  /** If an answer is under way, the client gets it first. */
  lemma FinishFrom(q: Request, w: World) returns (w': World)
    requires WellFormed(q) && Sendable(DataMessage(q)) && EndToEnd.Inv(q, w) && Waiting(w.phase)
    ensures Reaches(q, w, w')
    ensures w'.phase.Finished? || (w'.phase.Failed? && w.conn.status == STATUS_ERROR)
  {
    hide Reaches, Encode, EncodeData, DecodeData;
    if Content(w.up) != [] {
      w' := FinishAsking(q, w);
    } else {
      var m :| Answers(q, w.phase, w.conn, m) && Content(w.down) == Encode(m);
      var w1 := AnswerRound(q, w, m);
      ReactToAnswer(q, w.phase, w.conn, m);
      if Waiting(w1.phase) {
        w' := FinishAsking(q, w1);
        ReachTrans(q, w, w1, w');
      } else {
        w' := w1;
      }
    }
  }

  /** Wherever an exchange has got to, some way of going on ends it: with the result, or with a
      failure if the worker has failed by then. */
  lemma EveryRunCanFinish(q: Request, run: seq<EndToEnd.Step>) returns (rest: seq<EndToEnd.Step>)
    requires WellFormed(q) && Sendable(DataMessage(q))
    requires EndToEnd.Legal(q, Init(q), run) && Waiting(EndToEnd.Exec(q, Init(q), run).phase)
    ensures var w := EndToEnd.Exec(q, Init(q), run);
            && EndToEnd.Legal(q, w, rest)
            && var end := EndToEnd.Exec(q, w, rest);
               end.phase.Finished? || (end.phase.Failed? && w.conn.error == ERR_INTERNAL)
  {
    hide EndToEnd.Legal, EndToEnd.Exec, Encode, EncodeData;
    EndToEnd.InitInv(q);
    EndToEnd.RunKeepsInv(q, Init(q), run);
    var w := EndToEnd.Exec(q, Init(q), run);
    var w' := FinishFrom(q, w);
    rest :| EndToEnd.Legal(q, w, rest) && EndToEnd.Exec(q, w, rest) == w';
  }

  /** For every matrix and thread count some run ends with the result in the client's hands. */
  lemma SomeRunFinishes(q: Request) returns (run: seq<EndToEnd.Step>)
    requires WellFormed(q) && Sendable(DataMessage(q))
    ensures EndToEnd.Legal(q, Init(q), run)
    ensures EndToEnd.Exec(q, Init(q), run).phase.Finished?
  {
    hide EncodeData, Encode;
    assert EndToEnd.Legal(q, Init(q), []) && EndToEnd.Exec(q, Init(q), []) == Init(q);
    run := EveryRunCanFinish(q, []);
  }

  // ---- once the worker has finished, the end is near ----

  predicate Decided(c: Conn) { c.status == STATUS_DONE || c.status == STATUS_ERROR }

  /** Steps that are still needed to get the bytes of a stream to the receiver, at worst. */
  function Moves(s: Stream): nat { 2 * |s.unsent| + |s.inFlight| }

  /** The answer under way ends the exchange. */
  predicate LastAnswer(w: World) {
    match Parse(Content(w.down))
    case Some((m, _)) => !Waiting(React(w.phase, m))
    case None => false
  }

  /** A status question has 12 bytes, its answer 28; each is handled in one step. */
  const ANSWER_WORK := 2 * 28 + 1
  const QUESTION_WORK := 2 * 12 + 1

  function Work(w: World): nat {
    if !Waiting(w.phase) then 0
    else if Content(w.up) != [] then Moves(w.up) + 1 + ANSWER_WORK
    else if LastAnswer(w) then Moves(w.down) + 1
    else Moves(w.down) + 1 + QUESTION_WORK + ANSWER_WORK
  }

  lemma AskedWhenDecided(q: Request, w: World)
    requires EndToEnd.Inv(q, w) && Decided(w.conn) && Waiting(w.phase)
    ensures Content(w.up) != [] ==> w.phase.AwaitStatus? && Content(w.up) == Encode(STATUS) && Content(w.down) == []
    ensures Content(w.up) == [] ==> !w.phase.AwaitDataOk? && |Content(w.down)| <= 28
  {
    hide Encode;
  }

  lemma EncodedStatus()
    ensures Sendable(STATUS) && |Encode(STATUS)| == 12
  {
  }

  lemma ServerHandleWork(q: Request, w: World)
    requires WellFormed(q) && Sendable(DataMessage(q))
    requires EndToEnd.Inv(q, w) && Decided(w.conn) && Waiting(w.phase) && EndToEnd.Enabled(w, ServerHandles)
    ensures var w' := EndToEnd.Next(q, w, ServerHandles);
            Work(w') < Work(w) && w'.conn == w.conn
  {
    hide EndToEnd.Inv, Parse, Encode, Handle, React, EncodeStatus, DecodeStatus;
    if Content(w.up) == [] {
      NothingParsed(w.up);
      assert false;
    }
    AskedWhenDecided(q, w);
    EncodedStatus();
    ParsedIsTheMessage(w.up, STATUS);
    StatusKept(w.conn);
    InvHasConn(q, w);
    var r := FreshAnswer(w.conn);
    var w' := EndToEnd.Next(q, w, ServerHandles);
    assert w'.down.unsent == Encode(r) && w'.down.inFlight == [];
    assert Content(w'.down) == Encode(r) + [];
    ParseOfEncode(r, []);
    assert Content(w'.up) == [];
  }

  lemma FreshAnswer(c: Conn) returns (r: Message)
    requires MatrixServer.Inv(c) && c.handler.Listening? && Decided(c)
    ensures Handle(c, STATUS).1 == Some(r) && Sendable(r) && |Encode(r)| == 28
    ensures !Waiting(React(AwaitStatus, r))
  {
    hide DecodeStatus;
    StatusReplyIsTrue(c, STATUS);
    r := Handle(c, STATUS).1.value;
  }

  lemma ClientHandleWork(q: Request, w: World)
    requires WellFormed(q) && Sendable(DataMessage(q))
    requires EndToEnd.Inv(q, w) && Decided(w.conn) && EndToEnd.Enabled(w, ClientHandles)
    ensures var w' := EndToEnd.Next(q, w, ClientHandles);
            Work(w') < Work(w) && w'.conn == w.conn
  {
    hide Parse, Encode, React, Before, EndToEnd.Next, Work, EndToEnd.Inv;
    if Content(w.down) == [] {
      NothingParsed(w.down);
      assert false;
    }
    AnswerUnderWay(q, w);
    AskedWhenDecided(q, w);
    var m :| Answers(q, w.phase, w.conn, m) && Content(w.down) == Encode(m);
    AnswerHandleWork(q, w, m);
  }

  lemma AnswerHandleWork(q: Request, w: World, m: Message)
    requires EndToEnd.Enabled(w, ClientHandles) && Content(w.up) == [] && !w.phase.AwaitDataOk?
    requires Answers(q, w.phase, w.conn, m) && Content(w.down) == Encode(m)
    ensures var w' := EndToEnd.Next(q, w, ClientHandles);
            Work(w') < Work(w) && w'.conn == w.conn
  {
    hide Parse, Encode, React, Answers, EndToEnd.Next, Reply, Work;
    AnswerParses(q, w, m);
    ClientStep(q, w, m);
    var w' := EndToEnd.Next(q, w, ClientHandles);
    if Waiting(w'.phase) {
      ReactedTo(q, w.phase, w.conn, m);
      NextQuestionWork(w, w', m);
    } else {
      EndWork(w, w');
    }
  }

  lemma AnswerUnderWay(q: Request, w: World)
    requires EndToEnd.Inv(q, w) && Waiting(w.phase) && Content(w.down) != []
    ensures Content(w.up) == [] && exists m :: Answers(q, w.phase, w.conn, m) && Content(w.down) == Encode(m)
  {
  }

  lemma EndWork(w: World, w': World)
    requires Waiting(w.phase) && !Waiting(w'.phase)
    ensures Work(w') < Work(w)
  {
  }

  lemma NextQuestionWork(w: World, w': World, m: Message)
    requires Waiting(w.phase) && Content(w.up) == []
    requires Parse(Content(w.down)) == Some((m, [])) && Waiting(React(w.phase, m))
    requires w'.phase == AwaitStatus && w'.up == Reply(SILENT, Some(STATUS))
    ensures Work(w') < Work(w)
  {
    hide Parse, Encode, React;
    EncodedStatus();
    ReplyContent(STATUS);
  }

  lemma AnswerParses(q: Request, w: World, m: Message)
    requires Answers(q, w.phase, w.conn, m) && Content(w.down) == Encode(m)
    ensures Sendable(m) && Parse(Content(w.down)) == Some((m, []))
  {
    hide Parse, Encode;
    assert Content(w.down) == Encode(m) + [];
    ParseOfEncode(m, []);
  }

  lemma ReactedTo(q: Request, p: Phase, c: Conn, m: Message)
    requires Answers(q, p, c, m) && Waiting(p) && !p.AwaitDataOk?
    ensures Waiting(React(p, m)) ==> React(p, m) == AwaitStatus
  {
  }

  /** Once the worker has finished or failed, every step but the worker's own uses up work. */
  lemma DecidedStepShrinks(q: Request, w: World, e: EndToEnd.Step)
    requires WellFormed(q) && Sendable(DataMessage(q))
    requires EndToEnd.Inv(q, w) && Decided(w.conn) && EndToEnd.Enabled(w, e)
    ensures var w' := EndToEnd.Next(q, w, e);
            && Decided(w'.conn)
            && Work(w') + (if e.ServerThread? then 0 else 1) <= Work(w)
  {
    hide Parse, Encode, React, Handle;
    if !Waiting(w.phase) {
      QuietStreams(w);
    } else {
      AskedWhenDecided(q, w);
      match e
      case ServerHandles => ServerHandleWork(q, w);
      case ClientHandles => ClientHandleWork(q, w);
      case _ =>
    }
  }

  /** Steps of the client, the handler and the streams. */
  function ExchangeSteps(run: seq<EndToEnd.Step>): nat {
    if run == [] then 0 else (if run[0].ServerThread? then 0 else 1) + ExchangeSteps(run[1..])
  }

  lemma {:induction false} DecidedRun(q: Request, w: World, run: seq<EndToEnd.Step>)
    requires WellFormed(q) && Sendable(DataMessage(q))
    requires EndToEnd.Inv(q, w) && Decided(w.conn) && EndToEnd.Legal(q, w, run)
    ensures ExchangeSteps(run) + Work(EndToEnd.Exec(q, w, run)) <= Work(w)
    decreases |run|
  {
    hide EndToEnd.Inv, EndToEnd.Next, EndToEnd.Enabled, Work, Decided;
    if run != [] {
      DecidedStepShrinks(q, w, run[0]);
      EndToEnd.StepKeepsInv(q, w, run[0]);
      DecidedRun(q, EndToEnd.Next(q, w, run[0]), run[1..]);
    }
  }

  lemma WorkBound(q: Request, w: World)
    requires EndToEnd.Inv(q, w) && Decided(w.conn)
    ensures Work(w) <= 139
  {
  }

  /** When the worker has finished or failed, at most 139 more steps of client, handler and
      streams are made, however they interleave; and by NeverStuck one can be made until the
      client has its result or has given up. */
  lemma PollingEnds(q: Request, before: seq<EndToEnd.Step>, after: seq<EndToEnd.Step>)
    requires WellFormed(q) && Sendable(DataMessage(q))
    requires EndToEnd.Legal(q, Init(q), before)
    requires EndToEnd.Legal(q, EndToEnd.Exec(q, Init(q), before), after)
    requires Decided(EndToEnd.Exec(q, Init(q), before).conn)
    ensures ExchangeSteps(after) <= 139
  {
    hide EndToEnd.Inv, EndToEnd.Next, EndToEnd.Enabled, Work;
    EndToEnd.InitInv(q);
    EndToEnd.RunKeepsInv(q, Init(q), before);
    DecidedRun(q, EndToEnd.Exec(q, Init(q), before), after);
    WorkBound(q, EndToEnd.Exec(q, Init(q), before));
  }
}
