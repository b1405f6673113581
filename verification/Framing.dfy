/** Messages on a byte stream: a header of 12 bytes with the payload length, then the payload.
    The stream hands out its bytes in pieces of any positive size. */
module Framing {
  import opened Wire

  const PROTOCOL_MAGIC: U32 := 0x4D4D5831
  const PROTOCOL_VERSION: U16 := 1
  const MAX_PAYLOAD_BYTES: U32 := 256 * 1024 * 1024
  const HEADER_BYTES := 12

  datatype Message = Message(typ: U16, payload: seq<Byte>)

  function EncodeHeader(typ: U16, length: U32): (b: seq<Byte>)
    ensures |b| == HEADER_BYTES
  {
    EncodeU32(PROTOCOL_MAGIC) + EncodeU16(PROTOCOL_VERSION) + EncodeU16(typ) + EncodeU32(length)
  }

  /** The length fits the header field. */
  predicate Encodable(m: Message) {
    |m.payload| < 0x1_0000_0000
  }

  /** A receiver takes it. */
  predicate Sendable(m: Message) {
    Encodable(m) && |m.payload| <= MAX_PAYLOAD_BYTES
  }

  function Encode(m: Message): (b: seq<Byte>)
    requires Encodable(m)
    ensures |b| == HEADER_BYTES + |m.payload|
  {
    EncodeHeader(m.typ, |m.payload|) + m.payload
  }

  lemma EncodedParts(m: Message)
    requires Encodable(m)
    ensures Encode(m) == EncodeHeader(m.typ, |m.payload|) + m.payload
  {
  }

  lemma CutInHeader(m: Message, n: nat)
    requires Encodable(m) && n < HEADER_BYTES
    ensures Encode(m)[..n] == EncodeHeader(m.typ, |m.payload|)[..n]
  {
    hide EncodeHeader;
  }

  lemma CutInPayload(m: Message, n: nat)
    requires Encodable(m) && n < |m.payload|
    ensures Encode(m)[..HEADER_BYTES + n] == EncodeHeader(m.typ, |m.payload|) + m.payload[..n]
  {
    hide EncodeHeader;
  }

  /** The bytes of a message: "MMX1", version 1, then type, length and payload. */
  lemma EncodedBytes(m: Message)
    requires Encodable(m)
    ensures var n := |m.payload|;
            Encode(m) == [0x4D, 0x4D, 0x58, 0x31, 0, 1]
                         + [m.typ / 0x100, m.typ % 0x100]
                         + [n / 0x100_0000, n / 0x1_0000 % 0x100, n / 0x100 % 0x100, n % 0x100]
                         + m.payload
  {
    hide EncodeU32, EncodeU16;
    U32Bytes(0x4D4D5831);
    U16Bytes(1);
    U16Bytes(m.typ);
    U32Bytes(|m.payload|);
  }

  /** A receiver takes payloads up to 256 MiB. */
  lemma PayloadLimit(m: Message)
    ensures Sendable(m) <==> |m.payload| <= 268435456
  {
  }

  /** The type and length of a header that passes validation. */
  function ParseHeader(h: seq<Byte>): Option<(U16, U32)>
    requires |h| == HEADER_BYTES
  {
    var magic, version := DecodeU32(h[..4]), DecodeU16(h[4..6]);
    var typ, length := DecodeU16(h[6..8]), DecodeU32(h[8..]);
    if magic != PROTOCOL_MAGIC || version != PROTOCOL_VERSION || length > MAX_PAYLOAD_BYTES then None
    else Some((typ, length))
  }

  /** The first message of a stream and what follows it. */
  function Parse(s: seq<Byte>): Option<(Message, seq<Byte>)> {
    if |s| < HEADER_BYTES then None
    else match ParseHeader(s[..HEADER_BYTES])
         case None => None
         case Some((typ, length)) =>
           if |s| < HEADER_BYTES + length then None
           else Some((Message(typ, s[HEADER_BYTES..HEADER_BYTES + length]), s[HEADER_BYTES + length..]))
  }

  lemma HeaderRoundTrip(typ: U16, length: U32)
    ensures ParseHeader(EncodeHeader(typ, length)) == if length <= MAX_PAYLOAD_BYTES then Some((typ, length)) else None
  {
  }

  lemma HeaderRoundTripBytes(h: seq<Byte>)
    requires |h| == HEADER_BYTES && ParseHeader(h).Some?
    ensures h == EncodeHeader(ParseHeader(h).value.0, ParseHeader(h).value.1)
  {
    U32RoundTripBytes(h[..4]);
    U16RoundTripBytes(h[4..6]);
    U16RoundTripBytes(h[6..8]);
    U32RoundTripBytes(h[8..]);
    assert h == h[..4] + h[4..6] + h[6..8] + h[8..];
  }

  /** What was encoded is what is parsed, and exactly its bytes are consumed, unless the payload
      is over the limit; then the message is refused. */
  lemma ParseOfEncode(m: Message, rest: seq<Byte>)
    requires Encodable(m)
    ensures Parse(Encode(m) + rest) == if Sendable(m) then Some((m, rest)) else None
  {
    var s := Encode(m) + rest;
    var header := EncodeHeader(m.typ, |m.payload|);
    HeaderRoundTrip(m.typ, |m.payload|);
    assert s == header + (m.payload + rest);
    assert s[..HEADER_BYTES] == header;
    assert s[HEADER_BYTES..HEADER_BYTES + |m.payload|] == m.payload;
    assert s[HEADER_BYTES + |m.payload|..] == rest;
  }

  /** What is parsed is what was encoded: success consumes 12 bytes and the payload, and those
      bytes are the encoding of the message. */
  lemma ParseIsExact(s: seq<Byte>)
    requires Parse(s).Some?
    ensures var (m, rest) := Parse(s).value;
            Sendable(m) && s == Encode(m) + rest
  {
    var h := s[..HEADER_BYTES];
    var (m, rest) := Parse(s).value;
    HeaderRoundTripBytes(h);
    assert s == h + m.payload + rest;
  }

  /** A message that is cut short is never reported. */
  lemma TruncatedIsNotParsed(m: Message, cut: nat)
    requires Sendable(m) && cut < |Encode(m)|
    ensures Parse(Encode(m)[..cut]) == None
  {
    if cut >= HEADER_BYTES {
      HeaderRoundTrip(m.typ, |m.payload|);
      assert Encode(m)[..cut][..HEADER_BYTES] == EncodeHeader(m.typ, |m.payload|);
    }
  }

  function EncodeAll(ms: seq<Message>): seq<Byte>
    requires forall i :: 0 <= i < |ms| ==> Sendable(ms[i])
  {
    if ms == [] then []
    else
      assert Sendable(ms[0]);
      Encode(ms[0]) + EncodeAll(ms[1..])
  }

  lemma {:induction false} EncodeAllSnoc(ms: seq<Message>, m: Message)
    requires Sendable(m) && forall i :: 0 <= i < |ms| ==> Sendable(ms[i])
    ensures forall i :: 0 <= i < |ms + [m]| ==> Sendable((ms + [m])[i])
    ensures EncodeAll(ms + [m]) == EncodeAll(ms) + Encode(m)
  {
    hide Encode;
    if ms == [] {
      assert [] + [m] == [m] && [m][1..] == [];
    } else {
      EncodeAllSnoc(ms[1..], m);
      assert (ms + [m])[1..] == ms[1..] + [m];
    }
  }

  /** All messages up to the first failure, and the bytes left over then. */
  function ParseAll(s: seq<Byte>): (seq<Message>, seq<Byte>)
    decreases |s|
  {
    match Parse(s)
    case None => ([], s)
    case Some((m, rest)) =>
      var (ms, left) := ParseAll(rest);
      ([m] + ms, left)
  }

  lemma ParseAllStep(s: seq<Byte>)
    ensures match Parse(s)
            case None => ParseAll(s) == ([], s)
            case Some((m, rest)) => Sendable(m) && |rest| < |s| && ParseAll(s).0 == [m] + ParseAll(rest).0
  {
  }

  /** A list of messages followed by a tail that is no message comes out as that list. */
  lemma {:induction false} ParseAllOfEncodeAll(ms: seq<Message>, tail: seq<Byte>)
    requires forall i :: 0 <= i < |ms| ==> Sendable(ms[i])
    requires Parse(tail) == None
    ensures ParseAll(EncodeAll(ms) + tail) == (ms, tail)
  {
    if ms == [] {
      assert [] + tail == tail;
    } else {
      var rest := EncodeAll(ms[1..]) + tail;
      assert EncodeAll(ms) + tail == Encode(ms[0]) + rest;
      ParseOfEncode(ms[0], rest);
      ParseAllOfEncodeAll(ms[1..], tail);
      assert [ms[0]] + ms[1..] == ms;
    }
  }

  /** A list of messages of which the last is cut short comes out without the last. */
  lemma CutStreamYieldsWholeMessages(ms: seq<Message>, last: Message, cut: nat)
    requires forall i :: 0 <= i < |ms| ==> Sendable(ms[i])
    requires Sendable(last) && cut < |Encode(last)|
    ensures ParseAll(EncodeAll(ms) + Encode(last)[..cut]).0 == ms
  {
    TruncatedIsNotParsed(last, cut);
    ParseAllOfEncodeAll(ms, Encode(last)[..cut]);
  }

  /** A size cast to the 32-bit int that send and recv take. */
  function AsInt(size: nat): (n: int)
    ensures n <= size
    ensures size < 0x8000_0000 ==> n == size
  {
    Signed(size % 0x1_0000_0000)
  }

  /** One end of a connection. incoming is what recv will still deliver before the connection
      ends or fails, outgoing is what send has taken. */
  class Socket {
    var incoming: seq<Byte>
    var outgoing: seq<Byte>
    ghost var failures: nat   // how many calls of send with a positive length have failed

    /** Between 1 and size bytes, or nothing once the connection is over; nothing at all for a size
        that is not positive. */
    method Recv(size: int) returns (chunk: seq<Byte>)
      modifies this`incoming
      ensures old(incoming) == chunk + incoming
      ensures chunk == [] || |chunk| <= size
      ensures chunk == [] <==> old(incoming) == [] || size <= 0
    {
      if |incoming| == 0 || size <= 0 {
        return [];
      }
      var n: nat :| 1 <= n <= size && n <= |incoming|;
      chunk := incoming[..n];
      incoming := incoming[n..];
    }

    /** Takes between 1 and len bytes, or fails and takes none; it fails if len is not positive. */
    method Send(data: seq<Byte>, len: int) returns (n: int)
      requires len <= |data|
      modifies this`outgoing, this`failures
      ensures n <= 0 || n <= len
      ensures failures == old(failures) + (if len > 0 && n <= 0 then 1 else 0)
      ensures outgoing == old(outgoing) + (if n > 0 then data[..n] else [])
    {
      n := -1;
      if len > 0 {
        n :| -1 <= n <= len;
      }
      if n > 0 {
        outgoing := outgoing + data[..n];
      } else if len > 0 {
        failures := failures + 1;
      }
    }

    method RecvAll(size: nat) returns (ok: bool, buffer: seq<Byte>)
      modifies this`incoming
      ensures ok ==> |buffer| == size && old(incoming) == buffer + incoming
      ensures size < 0x8000_0000 ==> (ok <==> |old(incoming)| >= size)
    {
      buffer := [];
      while |buffer| < size
        invariant |buffer| <= size
        invariant old(incoming) == buffer + incoming
        decreases size - |buffer|
      {
        var chunk := Recv(AsInt(size - |buffer|));
        if |chunk| == 0 {
          return false, buffer;
        }
        buffer := buffer + chunk;
      }
      return true, buffer;
    }

    /** A size from 2^31 up to 2^32 turns negative in the cast, and nothing is sent. */
    method SendAll(data: seq<Byte>) returns (ok: bool)
      modifies this`outgoing, this`failures
      ensures ok ==> outgoing == old(outgoing) + data && failures == old(failures)
      ensures !ok && |data| < 0x8000_0000 ==> failures > old(failures)
      ensures !ok ==> exists n :: 0 <= n < |data| && outgoing == old(outgoing) + data[..n]
      ensures 0x8000_0000 <= |data| <= 0x1_0000_0000 ==> !ok && outgoing == old(outgoing)
    {
      var sent := 0;
      while sent < |data|
        invariant 0 <= sent <= |data|
        invariant outgoing == old(outgoing) + data[..sent]
        invariant failures == old(failures)
        invariant 0x8000_0000 <= |data| <= 0x1_0000_0000 ==> sent == 0
      {
        var result := Send(data[sent..], AsInt(|data| - sent));
        if result <= 0 {
          return false;
        }
        assert data[..sent] + data[sent..][..result] == data[..sent + result];
        sent := sent + result;
      }
      assert data[..sent] == data;
      return true;
    }

    /** A payload from 2^31 bytes on is announced but never sent. */
    method SendMessage(m: Message) returns (ok: bool)
      requires Encodable(m)
      modifies this`outgoing, this`failures
      ensures ok ==> outgoing == old(outgoing) + Encode(m) && failures == old(failures)
      ensures !ok && |m.payload| < 0x8000_0000 ==> failures > old(failures)
      ensures !ok ==> exists n :: 0 <= n < |Encode(m)| && outgoing == old(outgoing) + Encode(m)[..n]
      ensures |m.payload| >= 0x8000_0000 ==> !ok
    {
      hide Encode, EncodeHeader, AsInt;
      EncodedParts(m);
      var header := EncodeHeader(m.typ, |m.payload|);
      ok := SendAll(header);
      if !ok {
        ghost var n :| 0 <= n < |header| && outgoing == old(outgoing) + header[..n];
        CutInHeader(m, n);
        return;
      }
      if |m.payload| == 0 {
        assert header + m.payload == header;
        return;
      }
      ghost var middle := outgoing;
      ok := SendAll(m.payload);
      if ok {
        assert outgoing == old(outgoing) + (header + m.payload);
      } else {
        ghost var n :| 0 <= n < |m.payload| && outgoing == middle + m.payload[..n];
        CutInPayload(m, n);
        assert outgoing == old(outgoing) + (header + m.payload[..n]);
      }
    }

    /** Whatever the pieces, the first message of the stream or failure. */
    method RecvMessage() returns (r: Option<Message>)
      modifies this`incoming
      ensures match Parse(old(incoming))
              case Some((m, rest)) => r == Some(m) && incoming == rest
              case None => r == None
    {
      var ok, header := RecvAll(HEADER_BYTES);
      if !ok {
        return None;
      }
      assert old(incoming)[..HEADER_BYTES] == header;
      var parsed := ParseHeader(header);
      if parsed.None? {
        return None;
      }
      var (typ, length) := parsed.value;
      var payload := [];
      if length > 0 {
        ok, payload := RecvAll(length);
        if !ok {
          return None;
        }
      }
      assert old(incoming) == header + payload + incoming;
      return Some(Message(typ, payload));
    }

    /** The receive loop of a connection that answers nothing back. */
    method RecvMessages() returns (ms: seq<Message>)
      modifies this`incoming
      ensures ms == ParseAll(old(incoming)).0
    {
      ms := [];
      while true
        invariant ParseAll(old(incoming)).0 == ms + ParseAll(incoming).0
        decreases |incoming|
      {
        ParseAllStep(incoming);
        var r := RecvMessage();
        if r.None? {
          return;
        }
        ms := ms + [r.value];
      }
    }
  }
}
