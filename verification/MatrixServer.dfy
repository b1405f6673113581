/** One connection of the server as a step system: the handler of its commands and the worker
    thread it starts, which meet in the connection state under a mutex. */
module MatrixServer {
  import opened Wire
  import opened Framing
  import opened MatrixCodec
  import opened MinMax

  const STATUS_IDLE: U32 := 0
  const STATUS_READY: U32 := 1
  const STATUS_RUNNING: U32 := 2
  const STATUS_DONE: U32 := 3
  const STATUS_ERROR: U32 := 4

  const ERR_NONE: U32 := 0
  const ERR_INVALID_PAYLOAD: U32 := 1
  const ERR_NO_DATA: U32 := 2
  const ERR_ALREADY_RUNNING: U32 := 3
  const ERR_INTERNAL: U32 := 4

  /** The worker thread and its handle; the handle is joinable unless there is no worker. */
  datatype Worker =
    | NoWorker
    | Computing(job: Request)   // has its own copy of the matrix, will need the mutex once more
    | Leaving                   // past its last critical section
    | Terminated

  datatype Handler =
    | Listening
    | Joining(q: Request)       // holds the mutex and waits for the worker to terminate
    | Closing                   // the connection is over, waits for the worker without the mutex
    | Closed
    | Crashed                   // std::terminate: a joinable handle assigned to, or an exception out of the thread

  datatype Conn = Conn(
    data: seq<I32>,
    rows: U32,
    cols: U32,
    numThreads: U32,
    status: U32,
    error: U32,
    minValue: I32,
    maxValue: I32,
    hasData: bool,
    worker: Worker,
    handler: Handler
  )

  const NEW_CONN := Conn([], 0, 0, 0, STATUS_IDLE, ERR_NONE, 0, 0, false, NoWorker, Listening)

  function ErrorReply(code: U32): Message { Message(MSG_ERROR, EncodeU32(code)) }

  const DATA_OK := Message(MSG_DATA_OK, [])
  const START_OK := Message(MSG_START_OK, [])

  function StatusOf(c: Conn): StatusAnswer {
    StatusAnswer(c.status,
                 if c.status == STATUS_DONE then c.minValue else 0,
                 if c.status == STATUS_DONE then c.maxValue else 0,
                 c.error)
  }

  function Install(c: Conn, q: Request): Conn {
    c.(data := q.data, rows := q.rows, cols := q.cols, numThreads := q.numThreads,
       status := STATUS_READY, error := ERR_NONE, hasData := true)
  }

  function Joinable(c: Conn): bool { !c.worker.NoWorker? }

  function HandleData(c: Conn, payload: seq<Byte>): (Conn, Option<Message>) {
    match DecodeData(payload)
    case Malformed => (c, Some(ErrorReply(ERR_INVALID_PAYLOAD)))
    case Throws => (c.(handler := Crashed), None)   // nothing above the handler catches it
    case Taken(q) =>
      if c.status == STATUS_RUNNING then (c, Some(ErrorReply(ERR_ALREADY_RUNNING)))
      else if Joinable(c) then (c.(handler := Joining(q)), None)
      else (Install(c, q), Some(DATA_OK))
  }

  function HandleStart(c: Conn): (Conn, Option<Message>) {
    if !c.hasData then (c, Some(ErrorReply(ERR_NO_DATA)))
    else if c.status == STATUS_RUNNING then (c, Some(ErrorReply(ERR_ALREADY_RUNNING)))
    else
      var c' := c.(status := STATUS_RUNNING, error := ERR_NONE);
      if Joinable(c) then (c'.(handler := Crashed), None)
      else (c'.(worker := Computing(Request(c.rows, c.cols, c.numThreads, c.data))), Some(START_OK))
  }

  function HandleStatus(c: Conn): (Conn, Option<Message>) {
    (c, Some(Message(MSG_STATUS_RESP, EncodeStatus(StatusOf(c)))))
  }

  function Handle(c: Conn, m: Message): (Conn, Option<Message>) {
    if m.typ == MSG_DATA then HandleData(c, m.payload)
    else if m.typ == MSG_START then HandleStart(c)
    else if m.typ == MSG_STATUS then HandleStatus(c)
    else (c, Some(ErrorReply(ERR_INVALID_PAYLOAD)))
  }

  datatype Step =
    | Receive(m: Message)
    | JoinReturns
    | ConnectionEnds                       // recvMessage or a send failed
    | FinalJoin
    | WorkerStores(minValue: I32, maxValue: I32)
    | WorkerFails
    | WorkerExits

  predicate MutexFree(c: Conn) { !c.handler.Joining? }

  predicate Enabled(c: Conn, e: Step) {
    && !c.handler.Crashed?
    && match e
       case Receive(_) => c.handler.Listening?
       case JoinReturns => c.handler.Joining? && c.worker.Terminated?
       case ConnectionEnds => c.handler.Listening?
       case FinalJoin => c.handler.Closing? && (c.worker.NoWorker? || c.worker.Terminated?)
       case WorkerStores(lo, hi) =>
         c.worker.Computing? && MutexFree(c) && IsMinMax(c.worker.job.data, MinMaxResult(lo, hi))
       case WorkerFails => c.worker.Computing? && MutexFree(c)
       case WorkerExits => c.worker.Leaving?
  }

  function Next(c: Conn, e: Step): Conn
    requires Enabled(c, e)
  {
    match e
    case Receive(m) => Handle(c, m).0
    case JoinReturns => Install(c, c.handler.q).(worker := NoWorker, handler := Listening)
    case ConnectionEnds => c.(handler := Closing)
    case FinalJoin => c.(worker := NoWorker, handler := Closed)
    case WorkerStores(lo, hi) =>
      c.(minValue := lo, maxValue := hi, status := STATUS_DONE, error := ERR_NONE, worker := Leaving)
    case WorkerFails => c.(status := STATUS_ERROR, error := ERR_INTERNAL, worker := Leaving)
    case WorkerExits => c.(worker := Terminated)
  }

  predicate Legal(c: Conn, run: seq<Step>)
    decreases |run|
  {
    run == [] || (Enabled(c, run[0]) && Legal(Next(c, run[0]), run[1..]))
  }

  function Exec(c: Conn, run: seq<Step>): Conn
    requires Legal(c, run)
    decreases |run|
  {
    if run == [] then c else Exec(Next(c, run[0]), run[1..])
  }

  lemma {:induction false} LegalAppend(c: Conn, run: seq<Step>, run': seq<Step>)
    requires Legal(c, run) && Legal(Exec(c, run), run')
    ensures Legal(c, run + run') && Exec(c, run + run') == Exec(Exec(c, run), run')
    decreases |run|
  {
    hide Next, Enabled;
    if run == [] {
      assert run + run' == run';
    } else {
      LegalAppend(Next(c, run[0]), run[1..], run');
      assert (run + run')[1..] == run[1..] + run';
    }
  }

  /** The commands that a run receives. */
  function Commands(run: seq<Step>): seq<Message> {
    if run == [] then [] else CommandIn(run[0]) + Commands(run[1..])
  }

  function CommandIn(e: Step): seq<Message> {
    if e.Receive? then [e.m] else []
  }

  // ---- the invariant ----

  predicate Results(c: Conn) {
    && (c.hasData <==> c.status != STATUS_IDLE)
    && c.error == (if c.status == STATUS_ERROR then ERR_INTERNAL else ERR_NONE)
    && c.status <= STATUS_ERROR
    && (c.hasData ==> WellFormed(Request(c.rows, c.cols, c.numThreads, c.data)))
    && (c.status == STATUS_DONE ==> IsMinMax(c.data, MinMaxResult(c.minValue, c.maxValue)))
  }

  /** The handle is joinable exactly in RUNNING, DONE and ERROR, and the worker still has its last
      critical section before it exactly in RUNNING, on a copy of the current matrix. */
  predicate Threads(c: Conn) {
    && (Joinable(c) <==> c.status >= STATUS_RUNNING)
    && (c.worker.Computing? <==> c.status == STATUS_RUNNING)
    && (c.worker.Computing? ==> c.worker.job == Request(c.rows, c.cols, c.numThreads, c.data))
  }

  predicate Inv(c: Conn) {
    match c.handler
    case Crashed => true
    case Joining(q) => Results(c) && Threads(c) && c.status > STATUS_RUNNING && WellFormed(q)
    case Closed => Results(c) && c.worker.NoWorker?
    case _ => Results(c) && Threads(c)
  }

  lemma HandleKeepsInv(c: Conn, m: Message)
    requires Inv(c) && c.handler.Listening?
    ensures Inv(Handle(c, m).0)
  {
  }

  lemma StepKeepsInv(c: Conn, e: Step)
    requires Inv(c) && Enabled(c, e)
    ensures Inv(Next(c, e))
  {
  }

  lemma {:induction false} RunKeepsInv(c: Conn, run: seq<Step>)
    requires Inv(c) && Legal(c, run)
    ensures Inv(Exec(c, run))
    decreases |run|
  {
    if run != [] {
      StepKeepsInv(c, run[0]);
      RunKeepsInv(Next(c, run[0]), run[1..]);
    }
  }

  /** The handler serves commands until the connection ends, one at a time; only then, and only
      when there is no worker any more, is the connection closed. The worker does not move it. */
  lemma HandlerDiscipline(c: Conn, e: Step)
    requires Enabled(c, e)
    ensures var c' := Next(c, e);
            match c.handler
            case Listening =>
              if e.Receive? then c'.handler.Listening? || c'.handler.Joining? || c'.handler.Crashed?
              else c'.handler == if e.ConnectionEnds? then Closing else Listening
            case Joining(_) =>
              if e.JoinReturns? then c.worker.Terminated? && c'.worker.NoWorker? && c'.handler.Listening?
              else e.WorkerExits? && c'.handler == c.handler
            case Closing =>
              if e.FinalJoin? then !c.worker.Computing? && !c.worker.Leaving? && c'.worker.NoWorker? && c'.handler.Closed?
              else !e.Receive? && c'.handler == c.handler
            case _ => c'.handler == c.handler && !e.Receive?
  {
    hide DecodeData;
  }

  // ---- theorems over all command sequences and interleavings ----

  /** What the connection state says, in every run that has not crashed. */
  lemma StatusMeansWhatItSays(run: seq<Step>)
    requires Legal(NEW_CONN, run) && !Exec(NEW_CONN, run).handler.Crashed?
    ensures var c := Exec(NEW_CONN, run);
            && (c.hasData <==> c.status != STATUS_IDLE)
            && (c.error == ERR_INTERNAL <==> c.status == STATUS_ERROR)
            && (c.hasData ==> c.rows > 0 && c.cols > 0 && |c.data| == c.rows * c.cols)
            && (c.status == STATUS_DONE ==> IsMinMax(c.data, MinMaxResult(c.minValue, c.maxValue)))
            && (c.handler.Listening? ==>
                  && (Joinable(c) <==> c.status in {STATUS_RUNNING, STATUS_DONE, STATUS_ERROR})
                  && (c.status != STATUS_RUNNING ==> !c.worker.Computing?))
  {
    RunKeepsInv(NEW_CONN, run);
  }

  /** The matrix of a running job cannot be replaced, and a reply to STATUS shows the results of
      the current matrix when done and zeros otherwise. */
  lemma RunningKeepsData(c: Conn, e: Step)
    requires Inv(c) && Enabled(c, e)
    requires c.status == STATUS_RUNNING && !Next(c, e).handler.Crashed?
    ensures var c' := Next(c, e);
            c'.data == c.data && c'.rows == c.rows && c'.cols == c.cols && c'.hasData
  {
  }

  lemma StatusReplyIsTrue(c: Conn, m: Message)
    requires Inv(c) && c.handler.Listening? && m.typ == MSG_STATUS
    ensures var (c', r) := Handle(c, m);
            && c' == c && r.Some? && r.value.typ == MSG_STATUS_RESP
            && DecodeStatus(r.value.payload).Some?
            && var a := DecodeStatus(r.value.payload).value;
               && a.status == c.status && a.error == c.error
               && (a.status == STATUS_DONE ==> IsMinMax(c.data, MinMaxResult(a.minValue, a.maxValue)))
               && (a.status != STATUS_DONE ==> a.minValue == 0 == a.maxValue)
  {
    StatusRoundTrip(StatusOf(c));
  }

  /** A command is refused, with the code for the reason and no change of state, exactly if it is a
      matrix that is no encoding of a well-formed request or comes while a job runs, a start
      without a matrix or while a job runs, or no command at all. */
  lemma RefusedExactlyWhen(c: Conn, m: Message)
    requires Inv(c) && c.handler.Listening? && |m.payload| < SIZE_RANGE
    ensures var (c', r) := Handle(c, m);
            && (r.Some? && r.value.typ == MSG_ERROR <==>
                  || (m.typ == MSG_DATA && DecodeData(m.payload).Malformed?)
                  || (m.typ == MSG_DATA && DecodeData(m.payload).Taken? && c.status == STATUS_RUNNING)
                  || (m.typ == MSG_START && c.status in {STATUS_IDLE, STATUS_RUNNING})
                  || m.typ !in {MSG_DATA, MSG_START, MSG_STATUS})
            && (r.Some? && r.value.typ == MSG_ERROR ==>
                  && c' == c && |r.value.payload| == 4
                  && var code := DecodeU32(r.value.payload);
                     && (code == 2 <==> m.typ == MSG_START && !c.hasData)
                     && (code == 3 <==> c.status == STATUS_RUNNING && m.typ != MSG_STATUS &&
                                        (m.typ == MSG_DATA ==> DecodeData(m.payload).Taken?) && m.typ in {MSG_DATA, MSG_START})
                     && (code == 1 <==> m.typ != MSG_START && !(m.typ == MSG_DATA && DecodeData(m.payload).Taken?)))
  {
    hide DecodeData, EncodeU32, DecodeU32;
    U32RoundTrip(ERR_INVALID_PAYLOAD);
    U32RoundTrip(ERR_NO_DATA);
    U32RoundTrip(ERR_ALREADY_RUNNING);
  }

  predicate IsMatrix(m: Message) { m.typ == MSG_DATA && DecodeData(m.payload).Taken? }

  /** The state after a command and, if the handler has to join, after its join has returned. */
  function Settled(c: Conn): Conn {
    if c.handler.Joining? then Install(c, c.handler.q).(worker := NoWorker, handler := Listening) else c
  }

  /** The bytes of the commands and of the replies that carry no result. */
  lemma CommandAndReplyBytes()
    ensures Encode(Message(MSG_START, [])) == [0x4D, 0x4D, 0x58, 0x31, 0, 1, 0, 2, 0, 0, 0, 0]
    ensures Encode(Message(MSG_STATUS, [])) == [0x4D, 0x4D, 0x58, 0x31, 0, 1, 0, 3, 0, 0, 0, 0]
    ensures Encode(DATA_OK) == [0x4D, 0x4D, 0x58, 0x31, 0, 1, 0, 101, 0, 0, 0, 0]
    ensures Encode(START_OK) == [0x4D, 0x4D, 0x58, 0x31, 0, 1, 0, 102, 0, 0, 0, 0]
    ensures Encode(ErrorReply(ERR_INVALID_PAYLOAD)) == [0x4D, 0x4D, 0x58, 0x31, 0, 1, 0, 200, 0, 0, 0, 4, 0, 0, 0, 1]
    ensures Encode(ErrorReply(ERR_NO_DATA)) == [0x4D, 0x4D, 0x58, 0x31, 0, 1, 0, 200, 0, 0, 0, 4, 0, 0, 0, 2]
    ensures Encode(ErrorReply(ERR_ALREADY_RUNNING)) == [0x4D, 0x4D, 0x58, 0x31, 0, 1, 0, 200, 0, 0, 0, 4, 0, 0, 0, 3]
  {
    hide Encode, EncodeU32;
    U32Bytes(1);
    U32Bytes(2);
    U32Bytes(3);
    EncodedBytes(Message(MSG_START, []));
    EncodedBytes(Message(MSG_STATUS, []));
    EncodedBytes(DATA_OK);
    EncodedBytes(START_OK);
    EncodedBytes(ErrorReply(ERR_INVALID_PAYLOAD));
    EncodedBytes(ErrorReply(ERR_NO_DATA));
    EncodedBytes(ErrorReply(ERR_ALREADY_RUNNING));
  }

  /** A matrix of one row sent, and the answer to STATUS when its search is done. */
  lemma SessionBytes()
    ensures Encode(Message(MSG_DATA, EncodeData(Request(1, 2, 3, [-2, 258])))) ==
            [0x4D, 0x4D, 0x58, 0x31, 0, 1, 0, 1, 0, 0, 0, 20]
            + [0, 0, 0, 1, 0, 0, 0, 2, 0, 0, 0, 3, 0xFF, 0xFF, 0xFF, 0xFE, 0, 0, 1, 2]
    ensures var c := NEW_CONN.(status := STATUS_DONE, minValue := -2, maxValue := 258);
            Handle(c, Message(MSG_STATUS, [])).1.Some? &&
            Encode(Handle(c, Message(MSG_STATUS, [])).1.value) ==
            [0x4D, 0x4D, 0x58, 0x31, 0, 1, 0, 103, 0, 0, 0, 16]
            + [0, 0, 0, 3, 0xFF, 0xFF, 0xFF, 0xFE, 0, 0, 1, 2, 0, 0, 0, 0]
  {
    hide Encode, EncodeData, EncodeU32, EncodeI32;
    DataExample();
    EncodedBytes(Message(MSG_DATA, EncodeData(Request(1, 2, 3, [-2, 258]))));
    U32Bytes(3);
    I32Bytes(-2);
    I32Bytes(258);
    U32Bytes(0);
    EncodedBytes(Message(MSG_STATUS_RESP, EncodeStatus(StatusAnswer(3, -2, 258, 0))));
  }

  /** The numbers of the states, and what leads from one to the next. */
  lemma StatusNumbers(c: Conn, m: Message)
    requires Inv(c) && c.handler.Listening?
    ensures NEW_CONN.status == 0 && NEW_CONN.error == 0
    ensures IsMatrix(m) && c.status != 2 ==> Settled(Handle(c, m).0).status == 1
    ensures m.typ == MSG_START && c.status == 1 ==>
              var c' := Handle(c, m).0;
              c'.status == 2 && c'.worker == Computing(Request(c.rows, c.cols, c.numThreads, c.data))
    ensures forall lo, hi :: Enabled(c, WorkerStores(lo, hi)) ==>
              var c' := Next(c, WorkerStores(lo, hi));
              c.status == 2 && c'.status == 3 && c'.error == 0 && c'.minValue == lo && c'.maxValue == hi
    ensures Enabled(c, WorkerFails) ==>
              c.status == 2 && Next(c, WorkerFails).status == 4 && Next(c, WorkerFails).error == 4
    ensures c.status == 2 ==> Enabled(c, WorkerFails)
    ensures c.status == 2 ==> forall lo, hi :: IsMinMax(c.data, MinMaxResult(lo, hi)) ==> Enabled(c, WorkerStores(lo, hi))
  {
    hide DecodeData;
  }

  /** A matrix sent in any state but RUNNING ends up as the current matrix, ready to be searched,
      whether or not an earlier worker has to be joined first. */
  lemma DataReplacesMatrix(c: Conn, q: Request)
    requires Inv(c) && c.handler.Listening? && c.status != STATUS_RUNNING
    requires WellFormed(q) && |EncodeData(q)| < SIZE_RANGE
    ensures var (c', r) := Handle(c, Message(MSG_DATA, EncodeData(q)));
            var done := Settled(c');
            && (r == None <==> c.status == STATUS_DONE || c.status == STATUS_ERROR)
            && (r != None ==> r == Some(DATA_OK))
            && Request(done.rows, done.cols, done.numThreads, done.data) == q
            && done.status == STATUS_READY && done.hasData && done.worker.NoWorker? && Inv(done)
  {
    hide DecodeData, EncodeData;
    DecodeOfEncode(q);
  }

  /** Joining under the mutex cannot deadlock: the worker no longer needs the mutex, and after at
      most its own exit the join returns. */
  lemma JoinUnderMutexReturns(run: seq<Step>)
    requires Legal(NEW_CONN, run) && Exec(NEW_CONN, run).handler.Joining?
    ensures var c := Exec(NEW_CONN, run);
            && (c.worker.Leaving? || c.worker.Terminated?)
            && (Enabled(c, JoinReturns) || (Enabled(c, WorkerExits) && Enabled(Next(c, WorkerExits), JoinReturns)))
  {
    RunKeepsInv(NEW_CONN, run);
  }

  /** Nor can the join at the end of the connection, which lets the worker have the mutex. */
  lemma FinalJoinReturns(run: seq<Step>) returns (rest: seq<Step>)
    requires Legal(NEW_CONN, run) && Exec(NEW_CONN, run).handler.Closing?
    ensures Legal(Exec(NEW_CONN, run), rest) && Exec(Exec(NEW_CONN, run), rest).handler.Closed?
    ensures |rest| <= 3
  {
    RunKeepsInv(NEW_CONN, run);
    var c := Exec(NEW_CONN, run);
    var last := [FinalJoin];
    var exit := [WorkerExits, FinalJoin];
    assert last[1..] == [] && exit[1..] == last;
    if c.worker.Computing? {
      var c' := Next(c, WorkerFails);
      assert Legal(Next(c', WorkerExits), last);
      assert Legal(c', exit);
      rest := [WorkerFails, WorkerExits, FinalJoin];
      assert rest[1..] == exit;
    } else if c.worker.Leaving? {
      assert Legal(Next(c, WorkerExits), last);
      rest := exit;
    } else {
      rest := last;
    }
  }

  // ---- what brings the process down ----

  /** handleStartCommand assigns to the handle without joining first. It brings the process down
      exactly when the previous job has finished: in DONE and in ERROR, and never in READY. */
  lemma StartCrashesExactlyWhen(c: Conn, m: Message)
    requires Inv(c) && c.handler.Listening? && m.typ == MSG_START
    ensures Handle(c, m).0.handler.Crashed? <==> c.status == STATUS_DONE || c.status == STATUS_ERROR
    ensures c.status == STATUS_READY ==> Handle(c, m).1 == Some(START_OK)
  {
  }

  /** handleDataCommand does so exactly for a payload whose size test passes by wrapping, in
      every state of the connection: 2^62 elements or more are announced, and the bytes of their
      number modulo 2^62 are there. */
  lemma DataCrashesExactlyWhen(c: Conn, payload: seq<Byte>)
    requires c.handler.Listening? && |payload| < SIZE_RANGE
    ensures Handle(c, Message(MSG_DATA, payload)).0.handler.Crashed? <==>
              && |payload| >= 12
              && var total := DecodeU32(payload[..4]) as int * DecodeU32(payload[4..8]);
                 total >= QUARTER && |payload| == 12 + 4 * (total % QUARTER)
  {
    hide DecodeData, DecodeU32;
    ThrowsExactlyWhen(payload);
  }

  predicate Fatal(c: Conn, m: Message) {
    || (m.typ == MSG_DATA && DecodeData(m.payload).Throws?)
    || (m.typ == MSG_START && c.status in {STATUS_DONE, STATUS_ERROR})
  }

  /** No other command brings the process down; and a command is left without an answer only by a
      crash or while a join is pending. */
  lemma FatalExactlyWhen(c: Conn, m: Message)
    requires Inv(c) && c.handler.Listening?
    ensures Handle(c, m).0.handler.Crashed? <==> Fatal(c, m)
    ensures Handle(c, m).1.None? <==> Handle(c, m).0.handler.Crashed? || Handle(c, m).0.handler.Joining?
  {
  }

  predicate IsStart(m: Message) { m.typ == MSG_START }

  function Starts(commands: seq<Message>): nat {
    if commands == [] then 0 else (if IsStart(commands[0]) then 1 else 0) + Starts(commands[1..])
  }

  /** How many STARTs follow the first well-formed matrix. */
  function StartsAfterMatrix(commands: seq<Message>): nat {
    if commands == [] then 0
    else if IsMatrix(commands[0]) then Starts(commands[1..])
    else StartsAfterMatrix(commands[1..])
  }

  predicate NoneThrows(commands: seq<Message>) {
    forall m :: m in commands && m.typ == MSG_DATA ==> !DecodeData(m.payload).Throws?
  }

  /** What is left to come cannot bring the connection down, whatever the worker does. */
  predicate Harmless(c: Conn, commands: seq<Message>) {
    && NoneThrows(commands)
    && if c.status == STATUS_IDLE then StartsAfterMatrix(commands) <= 1
       else if c.status == STATUS_READY then Starts(commands) <= 1
       else Starts(commands) == 0
  }

  lemma StepKeepsHarmless(c: Conn, e: Step, commands: seq<Message>)
    requires Inv(c) && Enabled(c, e) && Harmless(c, CommandIn(e) + commands)
    ensures Harmless(Next(c, e), commands) && !Next(c, e).handler.Crashed?
  {
    hide DecodeData;
    if e.Receive? {
      var m := e.m;
      assert ([m] + commands)[1..] == commands;
      assert m in [m] + commands;
      assert NoneThrows(commands) by {
        forall x | x in commands ensures x in [m] + commands {
        }
      }
    } else {
      assert [] + commands == commands;
    }
  }

  lemma {:induction false} HarmlessRun(c: Conn, run: seq<Step>, commands: seq<Message>)
    requires Inv(c) && !c.handler.Crashed? && Legal(c, run)
    requires Commands(run) <= commands && Harmless(c, commands)
    ensures !Exec(c, run).handler.Crashed?
    decreases |run|
  {
    hide Harmless, Next, Enabled;
    if run != [] {
      var rest := commands[|CommandIn(run[0])|..];
      assert commands == CommandIn(run[0]) + rest;
      StepKeepsHarmless(c, run[0], rest);
      StepKeepsInv(c, run[0]);
      HarmlessRun(Next(c, run[0]), run[1..], rest);
    }
  }

  lemma OneStep(c: Conn, e: Step)
    requires Enabled(c, e)
    ensures Legal(c, [e]) && Exec(c, [e]) == Next(c, e) && Commands([e]) == CommandIn(e)
  {
  }

  lemma StepThenRun(c: Conn, e: Step, run: seq<Step>)
    requires Enabled(c, e) && Legal(Next(c, e), run)
    ensures Legal(c, [e] + run) && Exec(c, [e] + run) == Exec(Next(c, e), run)
    ensures Commands([e] + run) == CommandIn(e) + Commands(run)
  {
  }

  /** Until the worker finishes, handling a command that is not fatal uses up no chance. */
  lemma HarmStays(c: Conn, commands: seq<Message>)
    requires Inv(c) && c.handler.Listening? && c.status <= STATUS_RUNNING
    requires commands != [] && !Harmless(c, commands) && !Fatal(c, commands[0])
    requires commands[0].typ == MSG_START ==> c.status != STATUS_RUNNING
    ensures var c' := Next(c, Receive(commands[0]));
            c'.handler.Listening? && c'.status <= STATUS_RUNNING && Inv(c') && !Harmless(c', commands[1..])
  {
    hide DecodeData;
    StepKeepsInv(c, Receive(commands[0]));
    if NoneThrows(commands[1..]) {
      assert NoneThrows(commands) by {
        assert commands == [commands[0]] + commands[1..];
      }
    }
  }

  /** A schedule that crashes: let the worker compute until a second START is there, then let it
      fail. */
  lemma {:induction false} HarmHappens(c: Conn, commands: seq<Message>) returns (run: seq<Step>)
    requires Inv(c) && c.handler.Listening? && c.status <= STATUS_RUNNING && !Harmless(c, commands)
    ensures Legal(c, run) && Commands(run) <= commands && Exec(c, run).handler.Crashed?
    decreases |commands|
  {
    hide DecodeData, Legal, Exec, Commands;
    var m := commands[0];
    FatalExactlyWhen(c, m);
    if Fatal(c, m) {
      OneStep(c, Receive(m));
      run := [Receive(m)];
    } else if m.typ == MSG_START && c.status == STATUS_RUNNING {
      var c' := Next(c, WorkerFails);
      StepKeepsInv(c, WorkerFails);
      FatalExactlyWhen(c', m);
      OneStep(c', Receive(m));
      StepThenRun(c, WorkerFails, [Receive(m)]);
      run := [WorkerFails] + [Receive(m)];
    } else {
      HarmStays(c, commands);
      var rest := HarmHappens(Next(c, Receive(m)), commands[1..]);
      StepThenRun(c, Receive(m), rest);
      run := [Receive(m)] + rest;
    }
  }

  /** No size test passes by wrapping and at most one START follows the first well-formed matrix. */
  predicate SafeCommands(commands: seq<Message>) {
    NoneThrows(commands) && StartsAfterMatrix(commands) <= 1
  }

  /** Which commands a client may send: however worker and handler interleave, and whether or not
      the worker fails, they do not bring the process down, exactly if they are safe. */
  lemma CrashFreeExactlyWhen(commands: seq<Message>)
    ensures (forall run :: Legal(NEW_CONN, run) && Commands(run) <= commands ==> !Exec(NEW_CONN, run).handler.Crashed?)
            <==> SafeCommands(commands)
  {
    hide DecodeData, Legal, Exec, Commands;
    if SafeCommands(commands) {
      forall run | Legal(NEW_CONN, run) && Commands(run) <= commands
        ensures !Exec(NEW_CONN, run).handler.Crashed?
      {
        HarmlessRun(NEW_CONN, run, commands);
      }
    } else {
      var run := HarmHappens(NEW_CONN, commands);
    }
  }

  /** A concrete crash: a matrix of one element, a START, and another one after the worker has
      failed. */
  lemma SecondStartCrashes()
    ensures var m := Message(MSG_DATA, EncodeData(Request(1, 1, 1, [5])));
            var run := [Receive(m), Receive(Message(MSG_START, [])), WorkerFails, Receive(Message(MSG_START, []))];
            Legal(NEW_CONN, run) && Exec(NEW_CONN, run).handler.Crashed?
  {
    hide DecodeData, EncodeData, Legal, Exec, Commands;
    var q := Request(1, 1, 1, [5]);
    var m, start := Message(MSG_DATA, EncodeData(q)), Message(MSG_START, []);
    DecodeOfEncode(q);
    var ready := Next(NEW_CONN, Receive(m));
    var running := Next(ready, Receive(start));
    var failed := Next(running, WorkerFails);
    OneStep(failed, Receive(start));
    StepThenRun(running, WorkerFails, [Receive(start)]);
    assert [WorkerFails] + [Receive(start)] == [WorkerFails, Receive(start)];
    StepThenRun(ready, Receive(start), [WorkerFails, Receive(start)]);
    assert [Receive(start)] + [WorkerFails, Receive(start)] == [Receive(start), WorkerFails, Receive(start)];
    StepThenRun(NEW_CONN, Receive(m), [Receive(start), WorkerFails, Receive(start)]);
    assert [Receive(m)] + [Receive(start), WorkerFails, Receive(start)] ==
           [Receive(m), Receive(start), WorkerFails, Receive(start)];
  }

  /** Another: a matrix of 2^31 rows and columns without its elements, in a message that every
      receiver takes, whatever the connection has gone through before. */
  lemma WrappedSizeCrashes(c: Conn, numThreads: U32)
    requires c.handler.Listening?
    ensures var m := Message(MSG_DATA, EncodeShape(0x8000_0000, 0x8000_0000, numThreads));
            Sendable(m) && Enabled(c, Receive(m)) && Next(c, Receive(m)).handler.Crashed?
  {
    hide DecodeData;
    ExpectedSizeWraps(numThreads);
  }

  // ---- the connection object ----

  class ClientState {
    var data: seq<I32>
    var rows: U32
    var cols: U32
    var numThreads: U32
    var status: U32
    var error: U32
    var minValue: I32
    var maxValue: I32
    var hasData: bool
    var worker: Worker

    ghost function Abs(): Conn
      reads this
    {
      Conn(data, rows, cols, numThreads, status, error, minValue, maxValue, hasData, worker, Listening)
    }

    constructor ()
      ensures Abs() == NEW_CONN && Inv(Abs())
      ensures data == [] && rows == cols == numThreads == 0 && !hasData && worker == NoWorker
      ensures status == 0 && error == 0 && minValue == 0 == maxValue
    {
      data, rows, cols, numThreads := [], 0, 0, 0;
      status, error, minValue, maxValue := STATUS_IDLE, ERR_NONE, 0, 0;
      hasData, worker := false, NoWorker;
    }

    /** The join under the mutex, which waits until the worker has terminated. */
    method JoinWorker()
      requires !worker.NoWorker? && !worker.Computing?
      modifies this`worker
      ensures worker.NoWorker?
    {
      worker := NoWorker;
    }

    /** If a finished worker has to be joined first, the outcome is that of the handler step and
        the return of the join together. No reply stands for std::terminate. */
    method HandleDataCommand(payload: seq<Byte>) returns (reply: Option<Message>)
      requires Inv(Abs()) && |payload| < SIZE_RANGE
      modifies this
      ensures Inv(Abs())
      ensures reply.None? <==> HandleData(old(Abs()), payload).0.handler.Crashed?
      ensures var (c, r) := HandleData(old(Abs()), payload);
              if c.handler.Joining? then
                reply == Some(DATA_OK) && Abs() == Install(old(Abs()), c.handler.q).(worker := NoWorker)
              else r == reply && Abs() == c.(handler := Listening)
    {
      hide DecodeData, EncodeData;
      HandleKeepsInv(Abs(), Message(MSG_DATA, payload));
      var parsed := ReadData(payload);
      if parsed.Malformed? {
        return Some(ErrorReply(ERR_INVALID_PAYLOAD));
      }
      if parsed.Throws? {
        return None;
      }
      var q := parsed.q;
      if status == STATUS_RUNNING {
        return Some(ErrorReply(ERR_ALREADY_RUNNING));
      }
      if !worker.NoWorker? {
        JoinWorker();
      }
      data := q.data;
      rows := q.rows;
      cols := q.cols;
      numThreads := q.numThreads;
      status := STATUS_READY;
      error := ERR_NONE;
      hasData := true;
      return Some(DATA_OK);
    }

    /** No reply stands for std::terminate, which the assignment to a joinable handle calls. */
    method HandleStartCommand() returns (reply: Option<Message>)
      requires Inv(Abs())
      modifies this
      ensures reply == HandleStart(old(Abs())).1
      ensures reply.None? <==> old(status) == STATUS_DONE || old(status) == STATUS_ERROR
      ensures reply.Some? ==> Inv(Abs()) && Abs() == HandleStart(old(Abs())).0
    {
      if !hasData {
        return Some(ErrorReply(ERR_NO_DATA));
      }
      if status == STATUS_RUNNING {
        return Some(ErrorReply(ERR_ALREADY_RUNNING));
      }
      status := STATUS_RUNNING;
      error := ERR_NONE;
      if !worker.NoWorker? {
        return None;
      }
      worker := Computing(Request(rows, cols, numThreads, data));
      return Some(START_OK);
    }

    method HandleStatusCommand() returns (reply: Message)
      requires Inv(Abs())
      ensures HandleStatus(Abs()) == (Abs(), Some(reply))
    {
      var lo := if status == STATUS_DONE then minValue else 0;
      var hi := if status == STATUS_DONE then maxValue else 0;
      return Message(MSG_STATUS_RESP, EncodeStatus(StatusAnswer(status, lo, hi, error)));
    }

    /** The body of the worker: search the copy, then store the result or the failure. */
    method RunWorker(fails: bool)
      requires Inv(Abs()) && worker.Computing?
      modifies this
      ensures Inv(Abs())
      ensures fails ==> Enabled(old(Abs()), WorkerFails) && Abs() == Next(old(Abs()), WorkerFails)
      ensures !fails ==> Enabled(old(Abs()), WorkerStores(minValue, maxValue)) &&
                         Abs() == Next(old(Abs()), WorkerStores(minValue, maxValue))
    {
      var job := worker.job;
      if fails {
        status := STATUS_ERROR;
        error := ERR_INTERNAL;
        worker := Leaving;
        return;
      }
      var result := FindMinMaxParallel(job.data, job.rows, job.cols, job.numThreads);
      JobNotEmpty(job);
      minValue := result.minValue;
      maxValue := result.maxValue;
      status := STATUS_DONE;
      error := ERR_NONE;
      worker := Leaving;
    }
  }

  lemma JobNotEmpty(q: Request)
    requires WellFormed(q)
    ensures q.data != []
  {
  }
}
