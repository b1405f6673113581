/** The two loops at the ends of a connection: the server's command loop, whose every execution is
    a run of the step system, and the client's exchange with its polling loop. */
module ConnectionLoops {
  import opened Wire
  import opened Framing
  import opened MatrixCodec
  import opened MatrixServer
  import opened MinMax
  import EndToEnd

  /** The answers that a run gives; an answer to a matrix may have to wait for a join. */
  function Replies(c: Conn, run: seq<Step>): seq<Message>
    requires Legal(c, run)
    decreases |run|
  {
    if run == [] then [] else ReplyIn(c, run[0]) + Replies(Next(c, run[0]), run[1..])
  }

  function ReplyIn(c: Conn, e: Step): seq<Message> {
    match e
    case Receive(m) => (match Handle(c, m).1
                        case Some(r) => [r]
                        case None => [])
    case JoinReturns => [DATA_OK]
    case _ => []
  }

  lemma {:induction false} CommandsAppend(run: seq<Step>, run': seq<Step>)
    ensures Commands(run + run') == Commands(run) + Commands(run')
  {
    hide CommandIn;
    if run == [] {
      assert run + run' == run';
    } else {
      assert (run + run')[1..] == run[1..] + run';
      CommandsAppend(run[1..], run');
      Reassociate(CommandIn(run[0]), Commands(run[1..]), Commands(run'));
    }
  }

  lemma {:induction false} RepliesAppend(c: Conn, run: seq<Step>, run': seq<Step>)
    requires Legal(c, run) && Legal(Exec(c, run), run') && Legal(c, run + run')
    ensures Replies(c, run + run') == Replies(c, run) + Replies(Exec(c, run), run')
    decreases |run|
  {
    hide Next, Enabled, ReplyIn;
    if run == [] {
      assert run + run' == run';
    } else {
      var c' := Next(c, run[0]);
      assert (run + run')[1..] == run[1..] + run';
      RepliesAppend(c', run[1..], run');
      Reassociate(ReplyIn(c, run[0]), Replies(c', run[1..]), Replies(Exec(c, run), run'));
    }
  }

  lemma Reassociate(a: seq<Message>, b: seq<Message>, c: seq<Message>)
    ensures a + (b + c) == (a + b) + c
  {
  }

  lemma SingleStep(c: Conn, e: Step)
    requires Enabled(c, e)
    ensures Legal(c, [e]) && Exec(c, [e]) == Next(c, e)
    ensures Commands([e]) == CommandIn(e) && Replies(c, [e]) == ReplyIn(c, e)
  {
  }

  /** run leads from a new connection to c; it receives the commands and gives the replies. */
  ghost predicate LeadsTo(run: seq<Step>, c: Conn, commands: seq<Message>, replies: seq<Message>) {
    && Legal(NEW_CONN, run) && Exec(NEW_CONN, run) == c
    && Commands(run) == commands && Replies(NEW_CONN, run) == replies
  }

  lemma Extend(run: seq<Step>, c: Conn, commands: seq<Message>, replies: seq<Message>, e: Step)
    requires LeadsTo(run, c, commands, replies) && Enabled(c, e)
    ensures LeadsTo(run + [e], Next(c, e), commands + CommandIn(e), replies + ReplyIn(c, e))
  {
    hide Next, Enabled, ReplyIn, CommandIn, Legal, Exec, Commands, Replies;
    SingleStep(c, e);
    LegalAppend(NEW_CONN, run, [e]);
    CommandsAppend(run, [e]);
    RepliesAppend(NEW_CONN, run, [e]);
  }

  lemma ExtendSilently(run: seq<Step>, c: Conn, commands: seq<Message>, replies: seq<Message>, e: Step)
    requires LeadsTo(run, c, commands, replies) && Enabled(c, e) && !e.Receive? && !e.JoinReturns?
    ensures LeadsTo(run + [e], Next(c, e), commands, replies)
  {
    hide LeadsTo, Next, Enabled;
    Extend(run, c, commands, replies, e);
    assert commands + [] == commands && replies + [] == replies;
  }

  /** Between two commands the worker may get on, or not. */
  method LetWorkerRun(state: ClientState, ghost run: seq<Step>, ghost commands: seq<Message>, ghost replies: seq<Message>)
    returns (ghost run': seq<Step>)
    requires LeadsTo(run, state.Abs(), commands, replies) && Inv(state.Abs())
    modifies state
    ensures LeadsTo(run', state.Abs(), commands, replies) && Inv(state.Abs())
  {
    hide LeadsTo;
    run' := run;
    var runs: bool, fails: bool, exits: bool :| true;
    if runs && state.worker.Computing? {
      ghost var c := state.Abs();
      state.RunWorker(fails);
      ghost var e := if fails then WorkerFails else WorkerStores(state.minValue, state.maxValue);
      ExtendSilently(run', c, commands, replies, e);
      run' := run' + [e];
    }
    if exits && state.worker.Leaving? {
      ExtendSilently(run', state.Abs(), commands, replies, WorkerExits);
      run' := run' + [WorkerExits];
      state.worker := Terminated;
    }
  }

  /** The steps that end a join under the mutex. */
  lemma JoinSteps(run: seq<Step>, c: Conn, commands: seq<Message>, replies: seq<Message>) returns (run': seq<Step>)
    requires LeadsTo(run, c, commands, replies) && Inv(c) && c.handler.Joining?
    ensures LeadsTo(run', Install(c, c.handler.q).(worker := NoWorker, handler := Listening),
                    commands, replies + [DATA_OK])
  {
    hide LeadsTo;
    run' := run;
    var c' := c;
    if c.worker.Leaving? {
      ExtendSilently(run', c', commands, replies, WorkerExits);
      run' := run' + [WorkerExits];
      c' := Next(c, WorkerExits);
    }
    Extend(run', c', commands, replies, JoinReturns);
    assert commands + [] == commands;
    run' := run' + [JoinReturns];
  }

  /** One command: the reply, or none if the process is terminated. */
  method Dispatch(state: ClientState, m: Message,
                  ghost run: seq<Step>, ghost commands: seq<Message>, ghost replies: seq<Message>)
    returns (reply: Option<Message>, ghost run': seq<Step>)
    requires LeadsTo(run, state.Abs(), commands, replies) && Inv(state.Abs()) && |m.payload| < SIZE_RANGE
    modifies state
    ensures reply.Some? ==>
              && Inv(state.Abs()) && Sendable(reply.value)
              && LeadsTo(run', state.Abs(), commands + [m], replies + [reply.value])
    ensures reply.None? ==>
              && Legal(NEW_CONN, run') && Exec(NEW_CONN, run').handler.Crashed?
              && Commands(run') == commands + [m] && Replies(NEW_CONN, run') == replies
    ensures reply.None? <==> Fatal(old(state.Abs()), m)
  {
    hide Legal, Exec, Commands, Replies, DecodeData;
    ghost var c := state.Abs();
    Extend(run, c, commands, replies, Receive(m));
    run' := run + [Receive(m)];
    FatalExactlyWhen(c, m);
    if m.typ == MSG_DATA {
      ghost var c' := Next(c, Receive(m));
      reply := state.HandleDataCommand(m.payload);
      if c'.handler.Joining? {
        HandleKeepsInv(c, m);
        assert replies + [] == replies;
        run' := JoinSteps(run', c', commands + [m], replies);
      }
    } else if m.typ == MSG_START {
      reply := state.HandleStartCommand();
    } else if m.typ == MSG_STATUS {
      var r := state.HandleStatusCommand();
      reply := Some(r);
    } else {
      reply := Some(ErrorReply(ERR_INVALID_PAYLOAD));
    }
  }

  datatype Ending = AllServed | SendFailed | ProcessTerminated

  lemma CrashMeansUnsafe(run: seq<Step>, commands: seq<Message>)
    requires Legal(NEW_CONN, run) && Exec(NEW_CONN, run).handler.Crashed? && Commands(run) <= commands
    ensures !SafeCommands(commands)
  {
    hide Legal, Exec, Commands, SafeCommands;
    CrashFreeExactlyWhen(commands);
  }

  /** All replies have gone out behind what was sent before. */
  ghost predicate AllSent(before: seq<Byte>, replies: seq<Message>, out: seq<Byte>) {
    && (forall i :: 0 <= i < |replies| ==> Sendable(replies[i]))
    && out == before + EncodeAll(replies)
  }

  /** All replies but the last have, and of the last a part. */
  ghost predicate LastUnfinished(before: seq<Byte>, replies: seq<Message>, out: seq<Byte>) {
    && replies != []
    && (forall i :: 0 <= i < |replies| ==> Sendable(replies[i]))
    && before + EncodeAll(replies[..|replies| - 1]) <= out
    && out < before + EncodeAll(replies)
  }

  lemma OneMoreSent(before: seq<Byte>, replies: seq<Message>, out: seq<Byte>, reply: Message)
    requires AllSent(before, replies, out) && Sendable(reply)
    ensures AllSent(before, replies + [reply], out + Encode(reply))
    ensures forall n :: 0 <= n < |Encode(reply)| ==> LastUnfinished(before, replies + [reply], out + Encode(reply)[..n])
  {
    hide Encode, EncodeAll;
    EncodeAllSnoc(replies, reply);
    assert (replies + [reply])[..|replies|] == replies;
    assert out + Encode(reply) == before + (EncodeAll(replies) + Encode(reply));
    forall n | 0 <= n < |Encode(reply)|
      ensures LastUnfinished(before, replies + [reply], out + Encode(reply)[..n])
    {
      CutShort(out, Encode(reply), n);
    }
  }

  lemma CutShort(out: seq<Byte>, b: seq<Byte>, n: nat)
    requires n < |b|
    ensures out <= out + b[..n] < out + b
  {
  }

  /** One command with its reply. The ending AllServed says that the loop goes on. */
  method Serve(socket: Socket, state: ClientState, m: Message, ghost before: seq<Byte>,
               ghost run: seq<Step>, ghost commands: seq<Message>, ghost replies: seq<Message>)
    returns (ending: Ending, ghost run': seq<Step>, ghost replies': seq<Message>)
    requires LeadsTo(run, state.Abs(), commands, replies) && Inv(state.Abs()) && |m.payload| < SIZE_RANGE
    requires AllSent(before, replies, socket.outgoing)
    modifies state, socket`outgoing, socket`failures
    ensures !ending.ProcessTerminated? ==> LeadsTo(run', state.Abs(), commands + [m], replies') && Inv(state.Abs())
    ensures ending.ProcessTerminated? ==>
              && Legal(NEW_CONN, run') && Exec(NEW_CONN, run').handler.Crashed?
              && Commands(run') == commands + [m] && Replies(NEW_CONN, run') == replies'
    ensures if ending.SendFailed? then
              LastUnfinished(before, replies', socket.outgoing) && socket.failures > old(socket.failures)
            else
              AllSent(before, replies', socket.outgoing) && socket.failures == old(socket.failures)
  {
    hide LeadsTo, Legal, Exec, Commands, Replies, Inv, Encode, AllSent, LastUnfinished, Fatal;
    var reply: Option<Message>;
    reply, run' := Dispatch(state, m, run, commands, replies);
    replies' := replies;
    if reply.None? {
      return ProcessTerminated, run', replies';
    }
    OneMoreSent(before, replies, socket.outgoing, reply.value);
    replies' := replies + [reply.value];
    var ok := socket.SendMessage(reply.value);
    ending := if ok then AllServed else SendFailed;
  }

  /** The command loop of a connection, down to the final join. Every execution is a run of the
      step system on the messages of the stream: on all of them with all answers sent, unless a
      send fails or the process is terminated, which safe commands never do. A failing send leaves
      its reply unfinished and all earlier ones sent. */
  method HandleClient(socket: Socket) returns (ending: Ending, ghost run: seq<Step>)
    modifies socket
    ensures Legal(NEW_CONN, run) && Commands(run) <= ParseAll(old(socket.incoming)).0
    ensures ending.ProcessTerminated? ==> Exec(NEW_CONN, run).handler.Crashed?
    ensures SafeCommands(ParseAll(old(socket.incoming)).0) ==> !ending.ProcessTerminated?
    ensures !ending.ProcessTerminated? ==> Exec(NEW_CONN, run).handler.Closed? && !Joinable(Exec(NEW_CONN, run))
    ensures ending.SendFailed? <==> socket.failures > old(socket.failures)
    ensures ending.AllServed? ==> Commands(run) == ParseAll(old(socket.incoming)).0
    ensures var replies := Replies(NEW_CONN, run);
            && (forall i :: 0 <= i < |replies| ==> Sendable(replies[i]))
            && if ending.SendFailed? then
                 && replies != []
                 && old(socket.outgoing) + EncodeAll(replies[..|replies| - 1]) <= socket.outgoing
                 && socket.outgoing < old(socket.outgoing) + EncodeAll(replies)
               else socket.outgoing == old(socket.outgoing) + EncodeAll(replies)
  {
    hide Exec, Legal, Commands, Replies, LeadsTo, Parse, ParseAll, SafeCommands, Inv, AllSent, LastUnfinished;
    var state := new ClientState();
    run := [];
    ghost var commands: seq<Message>, replies: seq<Message> := [], [];
    StartOfRun();
    NothingSent(socket.outgoing);
    ending := AllServed;
    while true
      invariant LeadsTo(run, state.Abs(), commands, replies) && Inv(state.Abs()) && fresh(state)
      invariant ParseAll(old(socket.incoming)).0 == commands + ParseAll(socket.incoming).0
      invariant AllSent(old(socket.outgoing), replies, socket.outgoing)
      invariant ending == AllServed && socket.failures == old(socket.failures)
      decreases |socket.incoming|
    {
      run := LetWorkerRun(state, run, commands, replies);
      ParseAllStep(socket.incoming);
      var m := socket.RecvMessage();
      if m.None? {
        break;
      }
      ghost var rest := ParseAll(socket.incoming).0;
      assert commands + ([m.value] + rest) == (commands + [m.value]) + rest;
      ending, run, replies := Serve(socket, state, m.value, old(socket.outgoing), run, commands, replies);
      commands := commands + [m.value];
      if ending.ProcessTerminated? {
        CrashMeansUnsafe(run, ParseAll(old(socket.incoming)).0);
        SentMeans(old(socket.outgoing), replies, socket.outgoing);
        return;
      }
      if ending.SendFailed? {
        break;
      }
    }
    ghost var end: Conn;
    run, end := CloseConnection(state, run, commands, replies);
    RunOf(run, end, commands, replies);
    SentMeans(old(socket.outgoing), replies, socket.outgoing);
  }

  lemma NothingSent(before: seq<Byte>)
    ensures AllSent(before, [], before)
  {
    assert before + [] == before;
  }

  lemma SentMeans(before: seq<Byte>, replies: seq<Message>, out: seq<Byte>)
    requires AllSent(before, replies, out) || LastUnfinished(before, replies, out)
    ensures forall i :: 0 <= i < |replies| ==> Sendable(replies[i])
    ensures AllSent(before, replies, out) ==> out == before + EncodeAll(replies)
    ensures LastUnfinished(before, replies, out) ==>
              && replies != [] && before + EncodeAll(replies[..|replies| - 1]) <= out
              && out < before + EncodeAll(replies)
  {
  }

  lemma RunOf(run: seq<Step>, c: Conn, commands: seq<Message>, replies: seq<Message>)
    requires LeadsTo(run, c, commands, replies)
    ensures Legal(NEW_CONN, run) && Exec(NEW_CONN, run) == c
    ensures Commands(run) == commands && Replies(NEW_CONN, run) == replies
  {
  }

  lemma StartOfRun()
    ensures LeadsTo([], NEW_CONN, [], [])
  {
  }

  /** The final join: the worker stores its result or fails and terminates before it returns. */
  method CloseConnection(state: ClientState, ghost run: seq<Step>, ghost commands: seq<Message>, ghost replies: seq<Message>)
    returns (ghost run': seq<Step>, ghost end: Conn)
    requires LeadsTo(run, state.Abs(), commands, replies) && Inv(state.Abs())
    modifies state
    ensures LeadsTo(run', end, commands, replies) && end.handler.Closed? && !Joinable(end)
    ensures state.worker.NoWorker?
  {
    hide LeadsTo;
    run' := run;
    if state.worker.Computing? {
      ghost var c := state.Abs();
      var fails: bool :| true;
      state.RunWorker(fails);
      ghost var e := if fails then WorkerFails else WorkerStores(state.minValue, state.maxValue);
      ExtendSilently(run', c, commands, replies, e);
      run' := run' + [e];
    }
    run', end := CloseSteps(run', state.Abs(), commands, replies);
    if !state.worker.NoWorker? {
      state.worker := NoWorker;
    }
  }

  /** The end of the connection, the worker's own way out, and the final join. */
  lemma CloseSteps(run: seq<Step>, c: Conn, commands: seq<Message>, replies: seq<Message>)
    returns (run': seq<Step>, end: Conn)
    requires LeadsTo(run, c, commands, replies) && Inv(c) && c.handler.Listening? && !c.worker.Computing?
    ensures LeadsTo(run', end, commands, replies) && end.handler.Closed? && !Joinable(end)
  {
    hide LeadsTo;
    ExtendSilently(run, c, commands, replies, ConnectionEnds);
    run' := run + [ConnectionEnds];
    var c' := Next(c, ConnectionEnds);
    if c'.worker.Leaving? {
      ExtendSilently(run', c', commands, replies, WorkerExits);
      run', c' := run' + [WorkerExits], Next(c', WorkerExits);
    }
    ExtendSilently(run', c', commands, replies, FinalJoin);
    run', end := run' + [FinalJoin], Next(c', FinalJoin);
  }

  // ---- the client ----

  /** What the client makes of a stream of answers: it fails when the stream ends or an answer is
      not the one it waits for. */
  function Outcome(p: EndToEnd.Phase, s: seq<Byte>): EndToEnd.Phase
    decreases |s|
  {
    if !EndToEnd.Waiting(p) then p
    else match Parse(s)
         case None => EndToEnd.Failed
         case Some((m, rest)) => Outcome(EndToEnd.React(p, m), rest)
  }

  /** What the client asks on a stream of answers. */
  function Questions(q: Request, p: EndToEnd.Phase, s: seq<Byte>): seq<Message>
    decreases |s|
  {
    if !EndToEnd.Waiting(p) then []
    else
      [EndToEnd.Asked(q, p)] +
      match Parse(s)
      case None => []
      case Some((m, rest)) => Questions(q, EndToEnd.React(p, m), rest)
  }

  /** It asks for the status over and over once the search is started, and a start precedes that. */
  lemma {:induction false} QuestionsFrom(q: Request, p: EndToEnd.Phase, s: seq<Byte>)
    ensures var asked := Questions(q, p, s);
            && (p.AwaitStatus? ==> forall i :: 0 <= i < |asked| ==> asked[i] == EndToEnd.STATUS)
            && (p.AwaitStartOk? ==>
                  asked != [] && asked[0] == EndToEnd.START && forall i :: 1 <= i < |asked| ==> asked[i] == EndToEnd.STATUS)
    decreases |s|
  {
    hide Parse, EndToEnd.DataMessage;
    hide Encode;
    if EndToEnd.Waiting(p) {
      if Parse(s).Some? {
        var (m, rest) := Parse(s).value;
        ParseIsExact(s);
        var p' := EndToEnd.React(p, m);
        QuestionsFrom(q, p', rest);
        assert Questions(q, p, s) == [EndToEnd.Asked(q, p)] + Questions(q, p', rest);
      }
    }
  }

  /** Whatever it is answered, the client asks DATA, START and then STATUS repeated, up to the
      question that ends the exchange. */
  lemma ConversationShape(q: Request, s: seq<Byte>)
    ensures var asked := Questions(q, EndToEnd.AwaitDataOk, s);
            && asked != []
            && forall i :: 0 <= i < |asked| ==>
                 asked[i] == if i == 0 then EndToEnd.DataMessage(q) else if i == 1 then EndToEnd.START else EndToEnd.STATUS
  {
    hide Parse, EndToEnd.DataMessage;
    if Parse(s).Some? {
      var (m, rest) := Parse(s).value;
      QuestionsFrom(q, EndToEnd.React(EndToEnd.AwaitDataOk, m), rest);
    }
  }

  lemma {:induction false} NoStarts(commands: seq<Message>)
    requires forall i :: 0 <= i < |commands| ==> commands[i].typ != MSG_START
    ensures Starts(commands) == 0
  {
    if commands != [] {
      NoStarts(commands[1..]);
    }
  }

  /** So a server at the other end survives it, however its worker is scheduled. */
  lemma ConversationIsSafe(q: Request, s: seq<Byte>)
    requires WellFormed(q) && Sendable(EndToEnd.DataMessage(q))
    ensures SafeCommands(Questions(q, EndToEnd.AwaitDataOk, s))
  {
    hide DecodeData, EncodeData, Questions;
    var asked := Questions(q, EndToEnd.AwaitDataOk, s);
    ConversationShape(q, s);
    DecodeOfEncode(q);
    if |asked| > 1 {
      NoStarts(asked[2..]);
      assert asked[1..][1..] == asked[2..];
    }
  }

  lemma QuestionsAreSendable(q: Request, p: EndToEnd.Phase, s: seq<Byte>)
    requires Sendable(EndToEnd.DataMessage(q))
    ensures forall i :: 0 <= i < |Questions(q, p, s)| ==> Sendable(Questions(q, p, s)[i])
    decreases |s|
  {
    hide Parse, EndToEnd.DataMessage, EndToEnd.React;
    if EndToEnd.Waiting(p) && Parse(s).Some? {
      var (m, rest) := Parse(s).value;
      ParseIsExact(s);
      QuestionsAreSendable(q, EndToEnd.React(p, m), rest);
    }
  }

  function QuestionBytes(q: Request, p: EndToEnd.Phase, s: seq<Byte>): seq<Byte>
    requires Sendable(EndToEnd.DataMessage(q))
  {
    QuestionsAreSendable(q, p, s);
    EncodeAll(Questions(q, p, s))
  }

  lemma NextQuestion(q: Request, p: EndToEnd.Phase, s: seq<Byte>)
    requires Sendable(EndToEnd.DataMessage(q)) && EndToEnd.Waiting(p)
    ensures Sendable(EndToEnd.Asked(q, p))
    ensures QuestionBytes(q, p, s) ==
            Encode(EndToEnd.Asked(q, p)) +
            match Parse(s)
            case None => []
            case Some((m, rest)) => QuestionBytes(q, EndToEnd.React(p, m), rest)
  {
    hide Parse, Encode, EndToEnd.React;
    QuestionsAreSendable(q, p, s);
    var asked := Questions(q, p, s);
    assert Sendable(asked[0]) && EncodeAll(asked) == Encode(asked[0]) + EncodeAll(asked[1..]);
    if Parse(s).Some? {
      var (m, rest) := Parse(s).value;
      assert asked[1..] == Questions(q, EndToEnd.React(p, m), rest);
    } else {
      assert asked[1..] == [];
    }
  }

  /** A stream whose first answer is an error or of another type than the one asked for, or ends
      before it, is a failure; so is a status answer that is cut short or reports a failure. */
  lemma WrongAnswerFails(p: EndToEnd.Phase, s: seq<Byte>)
    requires EndToEnd.Waiting(p)
    requires match Parse(s)
             case None => true
             case Some((m, _)) =>
               || m.typ == 200
               || m.typ != (if p.AwaitDataOk? then 101 else if p.AwaitStartOk? then 102 else 103)
               || (p.AwaitStatus? && (|m.payload| < 16 || m.payload[..4] == [0, 0, 0, 4]))
    ensures Outcome(p, s) == EndToEnd.Failed
  {
    hide Parse, EndToEnd.React;
    if Parse(s).Some? {
      EndToEnd.ReactMeaning(p, Parse(s).value.0);
    }
  }

  /** Send the matrix, start the search, poll until there is a result or a failure. All questions
      go out in order, or as far as a failing send lets them. */
  method RunClient(socket: Socket, q: Request) returns (outcome: EndToEnd.Phase, sendFailed: bool)
    requires Sendable(EndToEnd.DataMessage(q))
    modifies socket
    ensures !EndToEnd.Waiting(outcome)
    ensures outcome == if sendFailed then EndToEnd.Failed else Outcome(EndToEnd.AwaitDataOk, old(socket.incoming))
    ensures var all := old(socket.outgoing) + QuestionBytes(q, EndToEnd.AwaitDataOk, old(socket.incoming));
            socket.outgoing <= all && (sendFailed <==> socket.outgoing != all)
    ensures sendFailed <==> socket.failures > old(socket.failures)
  {
    hide EndToEnd.React, EndToEnd.Asked, Parse, Encode, EncodeData, QuestionBytes;
    ghost var all := old(socket.outgoing) + QuestionBytes(q, EndToEnd.AwaitDataOk, old(socket.incoming));
    outcome, sendFailed := EndToEnd.AwaitDataOk, false;
    while EndToEnd.Waiting(outcome)
      invariant Outcome(outcome, socket.incoming) == Outcome(EndToEnd.AwaitDataOk, old(socket.incoming))
      invariant !sendFailed && socket.failures == old(socket.failures)
      invariant all == socket.outgoing + QuestionBytes(q, outcome, socket.incoming)
      decreases |socket.incoming|
    {
      ghost var before := socket.incoming;
      NextQuestion(q, outcome, before);
      var ok := socket.SendMessage(EndToEnd.Asked(q, outcome));
      if !ok {
        return EndToEnd.Failed, true;
      }
      var m := socket.RecvMessage();
      if m.None? {
        return EndToEnd.Failed, false;
      }
      ParseIsExact(before);
      outcome := EndToEnd.React(outcome, m.value);
    }
    NoMoreQuestions(q, outcome, socket.incoming);
  }

  lemma NoMoreQuestions(q: Request, p: EndToEnd.Phase, s: seq<Byte>)
    requires Sendable(EndToEnd.DataMessage(q)) && !EndToEnd.Waiting(p)
    ensures QuestionBytes(q, p, s) == []
  {
  }
}
