/** The payloads: the matrix a client sends, as both clients write it and the server reads it,
    and the status answer, as the server writes it and both clients read it. */
module MatrixCodec {
  import opened Wire
  import opened Framing

  const MSG_DATA: U16 := 1
  const MSG_START: U16 := 2
  const MSG_STATUS: U16 := 3
  const MSG_DATA_OK: U16 := 101
  const MSG_START_OK: U16 := 102
  const MSG_STATUS_RESP: U16 := 103
  const MSG_ERROR: U16 := 200

  /** The range of size_t. */
  const SIZE_RANGE := 0x1_0000_0000_0000_0000

  const QUARTER := 0x4000_0000_0000_0000

  /** No vector holds more 32-bit integers, since their bytes could not be counted in a size_t;
      the constructor of a longer one throws std::length_error whatever memory there is. */
  const MAX_ELEMENTS := QUARTER - 1

  datatype Request = Request(rows: U32, cols: U32, numThreads: U32, data: seq<I32>)

  predicate WellFormed(q: Request) {
    q.rows > 0 && q.cols > 0 && |q.data| == q.rows * q.cols
  }

  function EncodeElements(data: seq<I32>): (b: seq<Byte>)
    ensures |b| == 4 * |data|
  {
    if data == [] then [] else EncodeElements(data[..|data| - 1]) + EncodeI32(data[|data| - 1])
  }

  function EncodeShape(rows: U32, cols: U32, numThreads: U32): (b: seq<Byte>)
    ensures |b| == 12
  {
    EncodeU32(rows) + EncodeU32(cols) + EncodeU32(numThreads)
  }

  function EncodeData(q: Request): (b: seq<Byte>)
    ensures |b| == 12 + 4 * |q.data|
  {
    EncodeShape(q.rows, q.cols, q.numThreads) + EncodeElements(q.data)
  }

  /** Four bytes an element, counted from the end. */
  function DecodeElements(b: seq<Byte>): (data: seq<I32>)
    ensures |data| == |b| / 4
  {
    if |b| < 4 then [] else DecodeElements(b[..|b| - 4]) + [DecodeI32(b[|b| - 4..])]
  }

  /** The size test of the handler, in the arithmetic of size_t. */
  function ExpectedSize(rows: U32, cols: U32): nat {
    SizeFor(rows as int * cols)
  }

  function SizeFor(elements: nat): nat {
    var total := elements % SIZE_RANGE;
    (12 + total * 4 % SIZE_RANGE) % SIZE_RANGE
  }

  /** What becomes of a payload before the handler looks at the connection state. */
  datatype Parsed = Malformed | Throws | Taken(q: Request)

  function DecodeData(payload: seq<Byte>): Parsed {
    if |payload| < 12 then Malformed
    else
      var rows, cols := DecodeU32(payload[..4]), DecodeU32(payload[4..8]);
      var numThreads := DecodeU32(payload[8..12]);
      var total := rows as int * cols;
      if rows == 0 || cols == 0 then Malformed
      else if |payload| != ExpectedSize(rows, cols) then Malformed
      else if total > MAX_ELEMENTS then Throws           // the vector of total elements cannot be made
      else if |payload| != 12 + 4 * total then Malformed // the read loop; ReadLoopSucceeds
      else Taken(Request(rows, cols, numThreads, DecodeElements(payload[12..])))
  }

  lemma {:induction false} ElementsRoundTrip(data: seq<I32>)
    ensures DecodeElements(EncodeElements(data)) == data
  {
    if data != [] {
      var front, last := data[..|data| - 1], data[|data| - 1];
      var b := EncodeElements(data);
      ElementsRoundTrip(front);
      I32RoundTrip(last);
      assert b[..|b| - 4] == EncodeElements(front) && b[|b| - 4..] == EncodeI32(last);
    }
  }

  lemma {:induction false} ElementsRoundTripBytes(b: seq<Byte>)
    requires |b| % 4 == 0
    ensures EncodeElements(DecodeElements(b)) == b
  {
    if b != [] {
      var data := DecodeElements(b);
      ElementsRoundTripBytes(b[..|b| - 4]);
      I32RoundTripBytes(b[|b| - 4..]);
      assert data[..|data| - 1] == DecodeElements(b[..|b| - 4]);
      assert b == b[..|b| - 4] + b[|b| - 4..];
    }
  }

  lemma EncodeElementsNext(matrix: seq<I32>, i: nat)
    requires i < |matrix|
    ensures EncodeElements(matrix[..i + 1]) == EncodeElements(matrix[..i]) + EncodeI32(matrix[i])
  {
    assert matrix[..i + 1][..i] == matrix[..i];
  }

  /** Where element i is in a payload. */
  lemma {:induction false} ElementAt(data: seq<I32>, i: nat)
    requires i < |data|
    ensures EncodeElements(data)[4 * i..4 * i + 4] == EncodeI32(data[i])
  {
    hide EncodeI32;
    var front := data[..|data| - 1];
    if i < |front| {
      ElementAt(front, i);
      assert EncodeElements(data)[4 * i..4 * i + 4] == EncodeElements(front)[4 * i..4 * i + 4];
    }
  }

  /** The layout of a matrix: rows, columns, threads, then the elements in order. */
  lemma DataLayout(q: Request)
    ensures var b := EncodeData(q);
            && b[..4] == EncodeU32(q.rows) && b[4..8] == EncodeU32(q.cols) && b[8..12] == EncodeU32(q.numThreads)
            && forall i :: 0 <= i < |q.data| ==> b[12 + 4 * i..16 + 4 * i] == EncodeI32(q.data[i])
  {
    hide EncodeU32, EncodeI32, EncodeElements;
    var b, elements := EncodeData(q), EncodeElements(q.data);
    ShapeParts(b, EncodeU32(q.rows), EncodeU32(q.cols), EncodeU32(q.numThreads), elements);
    forall i | 0 <= i < |q.data|
      ensures b[12 + 4 * i..16 + 4 * i] == EncodeI32(q.data[i])
    {
      ElementAt(q.data, i);
      assert b[12 + 4 * i..16 + 4 * i] == b[12..][4 * i..4 * i + 4];
    }
  }

  /** One row of two elements, one of them negative, for three threads. */
  lemma DataExample()
    ensures EncodeData(Request(1, 2, 3, [-2, 258])) ==
            [0, 0, 0, 1, 0, 0, 0, 2, 0, 0, 0, 3, 0xFF, 0xFF, 0xFF, 0xFE, 0, 0, 1, 2]
  {
    hide EncodeU32, EncodeI32;
    U32Bytes(1);
    U32Bytes(2);
    U32Bytes(3);
    I32Bytes(-2);
    I32Bytes(258);
    assert [-2, 258][..1] == [-2];
    assert EncodeElements([-2, 258]) == EncodeElements([-2]) + EncodeI32(258);
    assert EncodeElements([-2]) == EncodeElements([]) + EncodeI32(-2);
  }

  lemma ShapeParts(s: seq<Byte>, a: seq<Byte>, b: seq<Byte>, c: seq<Byte>, rest: seq<Byte>)
    requires |a| == |b| == |c| == 4 && s == a + b + c + rest
    ensures s[..4] == a && s[4..8] == b && s[8..12] == c && s[12..] == rest
  {
  }

  lemma ProductMonotone(x: nat, y: nat, x': nat, y': nat)
    requires x <= x' && y <= y'
    ensures x * y <= x' * y'
  {
  }

  /** rows * cols never wraps; the byte count does not either as long as it is a size_t. */
  lemma ExpectedSizeUnwrapped(rows: U32, cols: U32)
    ensures 0 <= rows as int * cols < SIZE_RANGE
    ensures 12 + 4 * (rows as int * cols) < SIZE_RANGE ==> ExpectedSize(rows, cols) == 12 + 4 * (rows as int * cols)
  {
    hide SizeFor;
    ProductMonotone(rows, cols, 0xffff_ffff, 0xffff_ffff);
    SizeUnwrapped(rows as int * cols);
  }

  lemma SizeUnwrapped(total: nat)
    requires total < SIZE_RANGE
    ensures 12 + 4 * total < SIZE_RANGE ==> SizeFor(total) == 12 + 4 * total
  {
  }

  lemma FourTimes(k: nat, r: nat)
    requires k < 4 && r < QUARTER
    ensures (QUARTER * k + r) * 4 % SIZE_RANGE == 4 * r
    ensures (QUARTER * k + r) % QUARTER == r
  {
    if {
      case k == 0 =>
      case k == 1 =>
      case k == 2 =>
      case k == 3 =>
    }
  }

  lemma QuarterParts(total: nat) returns (k: nat, r: nat)
    requires total < SIZE_RANGE
    ensures k < 4 && r < QUARTER && total == QUARTER * k + r
  {
    k := if total < QUARTER then 0 else if total < 2 * QUARTER then 1 else if total < 3 * QUARTER then 2 else 3;
    r := total - QUARTER * k;
  }

  /** The size test lets a number of elements through exactly if it is right modulo 2^62. */
  lemma SizeTest(total: nat, size: nat)
    requires total < SIZE_RANGE && 12 <= size < SIZE_RANGE
    ensures size == SizeFor(total) <==> size == 12 + 4 * (total % QUARTER)
  {
    var k, r := QuarterParts(total);
    FourTimes(k, r);
    Wrapped(4 * r, size);
  }

  lemma Wrapped(bytes: nat, size: nat)
    requires bytes < SIZE_RANGE && 12 <= size
    ensures size == (12 + bytes) % SIZE_RANGE <==> size == 12 + bytes && size < SIZE_RANGE
  {
  }

  /** Behind the size test and the vector, no size has wrapped and every element is there. */
  lemma SizeTestIsExact(rows: U32, cols: U32, size: nat)
    requires 12 <= size < SIZE_RANGE && size == ExpectedSize(rows, cols)
    ensures rows as int * cols <= MAX_ELEMENTS <==> size == 12 + 4 * (rows as int * cols)
  {
    hide SizeFor;
    ExpectedSizeUnwrapped(rows, cols);
    var total: nat := rows as int * cols;
    SizeTest(total, size);
    var k, r := QuarterParts(total);
    FourTimes(k, r);
  }

  /** A payload makes the vector constructor throw exactly if it announces 2^62 elements or more
      and has the bytes of their number modulo 2^62. */
  lemma ThrowsExactlyWhen(payload: seq<Byte>)
    requires |payload| < SIZE_RANGE
    ensures DecodeData(payload).Throws? <==>
              && |payload| >= 12
              && var total := DecodeU32(payload[..4]) as int * DecodeU32(payload[4..8]);
                 total >= QUARTER && |payload| == 12 + 4 * (total % QUARTER)
  {
    hide DecodeU32, DecodeElements, SizeFor;
    if |payload| >= 12 {
      var rows, cols := DecodeU32(payload[..4]), DecodeU32(payload[4..8]);
      ExpectedSizeUnwrapped(rows, cols);
      SizeTest(rows as int * cols, |payload|);
    }
  }

  /** The refusal after a failed read is never reached: what passes the size test and does not
      throw is taken. */
  lemma ReadLoopSucceeds(payload: seq<Byte>)
    requires 12 <= |payload| < SIZE_RANGE
    ensures var rows, cols := DecodeU32(payload[..4]), DecodeU32(payload[4..8]);
            && (rows == 0 || cols == 0 ==> DecodeData(payload).Malformed?)
            && (rows > 0 && cols > 0 ==> (DecodeData(payload).Malformed? <==> |payload| != ExpectedSize(rows, cols)))
  {
    hide DecodeU32, DecodeElements, ExpectedSize;
    var rows, cols := DecodeU32(payload[..4]), DecodeU32(payload[4..8]);
    if |payload| == ExpectedSize(rows, cols) {
      SizeTestIsExact(rows, cols, |payload|);
    }
  }

  /** A payload of a well-formed request is taken as that request, provided its size is a size_t. */
  lemma DecodeOfEncode(q: Request)
    requires WellFormed(q) && |EncodeData(q)| < SIZE_RANGE
    ensures DecodeData(EncodeData(q)) == Taken(q)
  {
    hide ExpectedSize, EncodeU32, DecodeU32, EncodeElements, DecodeElements;
    var payload := EncodeData(q);
    ShapeParts(payload, EncodeU32(q.rows), EncodeU32(q.cols), EncodeU32(q.numThreads), EncodeElements(q.data));
    U32RoundTrip(q.rows);
    U32RoundTrip(q.cols);
    U32RoundTrip(q.numThreads);
    ElementsRoundTrip(q.data);
    ExpectedSizeUnwrapped(q.rows, q.cols);
  }

  /** Whatever is taken is a well-formed request, and re-encoding it gives back the payload. */
  lemma EncodeOfDecode(payload: seq<Byte>)
    requires DecodeData(payload).Taken?
    ensures var q := DecodeData(payload).q;
            WellFormed(q) && EncodeData(q) == payload
  {
    hide ExpectedSize, DecodeU32, EncodeU32, DecodeElements, EncodeElements;
    var q := DecodeData(payload).q;
    U32RoundTripBytes(payload[..4]);
    U32RoundTripBytes(payload[4..8]);
    U32RoundTripBytes(payload[8..12]);
    ElementsRoundTripBytes(payload[12..]);
    assert payload == payload[..4] + payload[4..8] + payload[8..12] + payload[12..];
  }

  /** A payload is taken exactly if it is the encoding of a well-formed request; the wrap of the
      expected size lets nothing else through. */
  lemma TakenExactlyWhenEncoded(payload: seq<Byte>, q: Request)
    requires |payload| < SIZE_RANGE
    ensures DecodeData(payload) == Taken(q) <==> WellFormed(q) && payload == EncodeData(q)
  {
    if DecodeData(payload) == Taken(q) {
      EncodeOfDecode(payload);
    }
    if WellFormed(q) && payload == EncodeData(q) {
      DecodeOfEncode(q);
    }
  }

  /** A size test passed by wrapping alone: 2^31 rows and columns expect 12 bytes, and no vector
      holds their 2^62 elements. */
  lemma ExpectedSizeWraps(numThreads: U32)
    ensures ExpectedSize(0x8000_0000, 0x8000_0000) == 12
    ensures DecodeData(EncodeShape(0x8000_0000, 0x8000_0000, numThreads)) == Throws
  {
  }

  /** The first half of the DATA handler. Once the vector is made, the read loop cannot fail. */
  method ReadData(payload: seq<Byte>) returns (r: Parsed)
    requires |payload| < SIZE_RANGE
    ensures r == DecodeData(payload)
  {
    hide DecodeU32, DecodeElements;
    var header := ReadShape(payload);
    if header.None? {
      return Malformed;
    }
    var (rows, cols, numThreads) := header.value;
    if rows == 0 || cols == 0 {
      return Malformed;
    }
    var total := rows as int * cols % SIZE_RANGE;
    var expectedSize := (12 + total * 4 % SIZE_RANGE) % SIZE_RANGE;
    assert expectedSize == ExpectedSize(rows, cols);
    if |payload| != expectedSize {
      return Malformed;
    }
    ExpectedSizeUnwrapped(rows, cols);
    assert total == rows as int * cols;
    SizeTestIsExact(rows, cols, |payload|);
    hide ExpectedSize;
    if total > MAX_ELEMENTS {
      return Throws;
    }
    var elements := ReadElements(payload, total);
    // The refusal that follows a failed read in the source is never reached.
    assert elements.Some?;
    assert payload[12..][..4 * total] == payload[12..];
    return Taken(Request(rows, cols, numThreads, elements.value));
  }

  method ReadShape(payload: seq<Byte>) returns (r: Option<(U32, U32, U32)>)
    ensures r.None? <==> |payload| < 12
    ensures r.Some? ==> r.value == (DecodeU32(payload[..4]), DecodeU32(payload[4..8]), DecodeU32(payload[8..12]))
  {
    var rows := ReadU32(payload, 0);
    if rows.None? { return None; }
    var cols := ReadU32(payload, rows.value.1);
    if cols.None? { return None; }
    var numThreads := ReadU32(payload, cols.value.1);
    if numThreads.None? { return None; }
    return Some((rows.value.0, cols.value.0, numThreads.value.0));
  }

  lemma NoElements(b: seq<Byte>)
    ensures DecodeElements(b[..0]) == []
  {
  }

  lemma DecodeElementsNext(b: seq<Byte>, i: nat)
    requires 4 * i + 4 <= |b|
    ensures DecodeElements(b[..4 * i + 4]) == DecodeElements(b[..4 * i]) + [DecodeI32(b[4 * i..4 * i + 4])]
  {
    hide DecodeI32;
    var read := b[..4 * i + 4];
    assert read[..4 * i] == b[..4 * i] && read[4 * i..] == b[4 * i..4 * i + 4];
  }

  /** The read loop: total elements from offset 12, or failure if they are not all there. */
  method ReadElements(payload: seq<Byte>, total: nat) returns (r: Option<seq<I32>>)
    requires |payload| >= 12
    ensures r.Some? <==> 12 + 4 * total <= |payload|
    ensures r.Some? ==> r.value == DecodeElements(payload[12..][..4 * total])
  {
    hide DecodeElements, DecodeI32;
    var offset := 12;
    var data := [];
    ghost var elements := payload[12..];
    NoElements(elements);
    for i := 0 to total
      invariant offset == 12 + 4 * i <= |payload|
      invariant data == DecodeElements(elements[..4 * i])
    {
      var value := ReadI32(payload, offset);
      if value.None? {
        return None;
      }
      DecodeElementsNext(elements, i);
      assert elements[4 * i..4 * i + 4] == payload[offset..offset + 4];
      data := data + [value.value.0];
      offset := value.value.1;
    }
    return Some(data);
  }

  // ---- the two clients ----

  /** The C++ client appends the numbers to the payload one after the other. */
  method BuildPayload(rows: U32, cols: U32, numThreads: U32, matrix: seq<I32>) returns (payload: seq<Byte>)
    ensures payload == EncodeData(Request(rows, cols, numThreads, matrix))
  {
    payload := EncodeU32(rows);
    payload := payload + EncodeU32(cols);
    payload := payload + EncodeU32(numThreads);
    for i := 0 to |matrix|
      invariant payload == EncodeShape(rows, cols, numThreads) + EncodeElements(matrix[..i])
    {
      payload := payload + EncodeI32(matrix[i]);
      EncodeElementsNext(matrix, i);
    }
    assert matrix[..|matrix|] == matrix;
  }

  /** The Go client writes header and payload into one buffer; the length is computed from the
      element count and cut to 32 bits. What it sends is the message the C++ client sends. */
  method BuildGoData(rows: U32, cols: U32, numThreads: U32, matrix: seq<I32>) returns (buf: seq<Byte>)
    ensures var q := Request(rows, cols, numThreads, matrix);
            |EncodeData(q)| < 0x1_0000_0000 ==> buf == Encode(Message(MSG_DATA, EncodeData(q)))
  {
    hide EncodeU16, EncodeU32;
    buf := EncodeU32(PROTOCOL_MAGIC);
    buf := buf + EncodeU16(PROTOCOL_VERSION);
    buf := buf + EncodeU16(MSG_DATA);
    buf := buf + EncodeU32((12 + 4 * |matrix|) % 0x1_0000_0000);
    ghost var header := buf;
    buf := buf + EncodeU32(rows);
    buf := buf + EncodeU32(cols);
    buf := buf + EncodeU32(numThreads);
    for i := 0 to |matrix|
      invariant buf == header + (EncodeShape(rows, cols, numThreads) + EncodeElements(matrix[..i]))
    {
      buf := buf + EncodeI32(matrix[i]);
      EncodeElementsNext(matrix, i);
    }
    assert matrix[..|matrix|] == matrix;
  }

  // ---- the status answer ----

  datatype StatusAnswer = StatusAnswer(status: U32, minValue: I32, maxValue: I32, error: U32)

  function EncodeStatus(a: StatusAnswer): (b: seq<Byte>)
    ensures |b| == 16
  {
    EncodeU32(a.status) + EncodeI32(a.minValue) + EncodeI32(a.maxValue) + EncodeU32(a.error)
  }

  function DecodeStatus(b: seq<Byte>): Option<StatusAnswer> {
    if |b| < 16 then None
    else Some(StatusAnswer(DecodeU32(b[..4]), DecodeI32(b[4..8]), DecodeI32(b[8..12]), DecodeU32(b[12..16])))
  }

  /** The layout of a status answer: status, minimum, maximum, error. */
  lemma StatusLayout(a: StatusAnswer)
    ensures var b := EncodeStatus(a);
            && b[..4] == EncodeU32(a.status) && b[4..8] == EncodeI32(a.minValue)
            && b[8..12] == EncodeI32(a.maxValue) && b[12..16] == EncodeU32(a.error)
  {
    hide EncodeU32, EncodeI32;
  }

  lemma StatusExample()
    ensures EncodeStatus(StatusAnswer(3, -5, 7, 0)) ==
            [0, 0, 0, 3, 0xFF, 0xFF, 0xFF, 0xFB, 0, 0, 0, 7, 0, 0, 0, 0]
  {
    hide EncodeU32, EncodeI32;
    U32Bytes(3);
    I32Bytes(-5);
    I32Bytes(7);
    U32Bytes(0);
  }

  /** An answer is decoded exactly if its 16 bytes are there, and encoding gives them back. */
  lemma StatusRoundTripBytes(b: seq<Byte>)
    ensures DecodeStatus(b).Some? <==> |b| >= 16
    ensures |b| >= 16 ==> EncodeStatus(DecodeStatus(b).value) == b[..16]
  {
    hide EncodeU32, EncodeI32, DecodeU32, DecodeI32;
    if |b| >= 16 {
      U32RoundTripBytes(b[..4]);
      I32RoundTripBytes(b[4..8]);
      I32RoundTripBytes(b[8..12]);
      U32RoundTripBytes(b[12..16]);
      assert b[..16] == b[..4] + b[4..8] + b[8..12] + b[12..16];
    }
  }

  lemma StatusRoundTrip(a: StatusAnswer)
    ensures DecodeStatus(EncodeStatus(a)) == Some(a)
  {
    var b := EncodeStatus(a);
    ShapeParts(b, EncodeU32(a.status), EncodeI32(a.minValue), EncodeI32(a.maxValue), EncodeU32(a.error));
    assert b[12..16] == b[12..];
    U32RoundTrip(a.status);
    I32RoundTrip(a.minValue);
    I32RoundTrip(a.maxValue);
    U32RoundTrip(a.error);
  }

  /** The C++ client reads the four numbers one after the other. */
  method ReadStatus(payload: seq<Byte>) returns (r: Option<StatusAnswer>)
    ensures r == DecodeStatus(payload)
  {
    var status := ReadU32(payload, 0);
    if status.None? { return None; }
    var minValue := ReadI32(payload, status.value.1);
    if minValue.None? { return None; }
    var maxValue := ReadI32(payload, minValue.value.1);
    if maxValue.None? { return None; }
    var error := ReadU32(payload, maxValue.value.1);
    if error.None? { return None; }
    return Some(StatusAnswer(status.value.0, minValue.value.0, maxValue.value.0, error.value.0));
  }

  /** The Go client checks the length once and cuts the four numbers out. */
  method ReadGoStatus(payload: seq<Byte>) returns (r: Option<StatusAnswer>)
    ensures r == DecodeStatus(payload)
  {
    if |payload| < 16 {
      return None;
    }
    var status := DecodeU32(payload[0..4]);
    var lo := Signed(DecodeU32(payload[4..8]));
    var hi := Signed(DecodeU32(payload[8..12]));
    var errCode := DecodeU32(payload[12..16]);
    return Some(StatusAnswer(status, lo, hi, errCode));
  }
}
