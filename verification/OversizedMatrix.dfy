/** A client whose matrix is over the limit of a message. It cuts the length to 32 bits and sends
    that many bytes of its payload. */
module OversizedMatrix {
  import opened Wire
  import opened Framing
  import opened MatrixCodec
  import MatrixServer
  import opened EndToEnd

  predicate Oversized(q: Request) {
    WellFormed(q) && MAX_PAYLOAD_BYTES < |EncodeData(q)| < SIZE_RANGE
  }

  function CutMessage(q: Request): (m: Message)
    ensures Encodable(m)
  {
    var payload := EncodeData(q);
    Message(MSG_DATA, payload[..|payload| % 0x1_0000_0000])
  }

  function OversizedInit(q: Request): World {
    World(AwaitDataOk, SILENT.(unsent := Encode(CutMessage(q))), MatrixServer.NEW_CONN, SILENT)
  }

  const REFUSAL := MatrixServer.ErrorReply(MatrixServer.ERR_INVALID_PAYLOAD)

  lemma SamePrefix(s: seq<Byte>, n: nat)
    requires 12 <= n <= |s|
    ensures s[..n][..4] == s[..4] && s[..n][4..8] == s[4..8]
  {
  }

  /** If the cut brings the message under the limit, its size does not fit its shape any more. */
  lemma CutIsMalformed(q: Request)
    requires Oversized(q) && Sendable(CutMessage(q))
    ensures DecodeData(CutMessage(q).payload) == Malformed
  {
    hide ExpectedSize, EncodeU32, DecodeU32, EncodeElements, DecodeElements;
    var payload, cut := EncodeData(q), CutMessage(q).payload;
    if |cut| >= 12 {
      ShapeParts(payload, EncodeU32(q.rows), EncodeU32(q.cols), EncodeU32(q.numThreads), EncodeElements(q.data));
      SamePrefix(payload, |cut|);
      U32RoundTrip(q.rows);
      U32RoundTrip(q.cols);
      ExpectedSizeUnwrapped(q.rows, q.cols);
    }
  }

  /** A message that no receiver takes is never parsed, however much of it has come. */
  lemma UnsendableIsNotParsed(s: Stream, m: Message)
    requires Encodable(m) && !Sendable(m) && Content(s) == Encode(m)
    ensures Parse(s.received) == None
  {
    hide Parse, Encode;
    if Parse(s.received).Some? {
      var (m', rest) := Parse(s.received).value;
      ParseIsExact(s.received);
      assert Content(s) == Encode(m') + (rest + s.inFlight + s.unsent);
      assert Encode(m) == Encode(m) + [];
      ParseOfEncode(m, []);
      ParseOfEncode(m', rest + s.inFlight + s.unsent);
    }
  }

  predicate Unserved(q: Request, w: World) {
    && w.conn == MatrixServer.NEW_CONN
    && match w.phase
       case AwaitDataOk =>
         || (Content(w.up) == Encode(CutMessage(q)) && Content(w.down) == [])
         || (Content(w.up) == [] && Content(w.down) == Encode(REFUSAL))
       case Failed => Quiet(w)
       case _ => false
  }

  lemma ServerRefuses(q: Request, w: World)
    requires Oversized(q) && Unserved(q, w) && Enabled(w, ServerHandles)
    ensures Unserved(q, Next(q, w, ServerHandles))
  {
    hide Parse, Encode, DecodeData, EncodeData, CutMessage;
    var m := CutMessage(q);
    if Content(w.up) == [] {
      NothingParsed(w.up);
      assert false;
    }
    if !Sendable(m) {
      UnsendableIsNotParsed(w.up, m);
      assert false;
    }
    ParsedIsTheMessage(w.up, m);
    CutIsMalformed(q);
    assert CutMessage(q).typ == MSG_DATA by {
      CutType(q);
    }
    assert Content(Next(q, w, ServerHandles).down) == Encode(REFUSAL);
  }

  lemma CutType(q: Request)
    ensures CutMessage(q).typ == MSG_DATA
  {
  }

  lemma ClientGivesUp(q: Request, w: World)
    requires Unserved(q, w) && Enabled(w, ClientHandles)
    ensures Unserved(q, Next(q, w, ClientHandles))
  {
    hide Parse, Encode, EncodeData, CutMessage;
    if Content(w.down) == [] {
      NothingParsed(w.down);
      assert false;
    }
    ParsedIsTheMessage(w.down, REFUSAL);
  }

  lemma StepKeepsUnserved(q: Request, w: World, e: Step)
    requires Oversized(q) && Unserved(q, w) && Enabled(w, e)
    ensures Unserved(q, Next(q, w, e))
  {
    hide Parse, Encode, CutMessage;
    if w.phase.Failed? {
      QuietStreams(w);
    } else {
      match e
      case ServerHandles => ServerRefuses(q, w);
      case ClientHandles => ClientGivesUp(q, w);
      case _ =>
    }
  }

  lemma {:induction false} RunKeepsUnserved(q: Request, w: World, run: seq<Step>)
    requires Oversized(q) && Unserved(q, w) && Legal(q, w, run)
    ensures Unserved(q, Exec(q, w, run))
    decreases |run|
  {
    hide Unserved, Next, Enabled;
    if run != [] {
      StepKeepsUnserved(q, w, run[0]);
      RunKeepsUnserved(q, Next(q, w, run[0]), run[1..]);
    }
  }

  /** A client with such a matrix never prints a result, and the server takes nothing from it. */
  lemma OversizedIsNeverServed(q: Request, run: seq<Step>)
    requires Oversized(q) && Legal(q, OversizedInit(q), run)
    ensures var w := Exec(q, OversizedInit(q), run);
            (w.phase.AwaitDataOk? || w.phase.Failed?) && w.conn == MatrixServer.NEW_CONN
  {
    RunKeepsUnserved(q, OversizedInit(q), run);
  }
}
