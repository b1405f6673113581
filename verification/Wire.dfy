/** Numbers on the wire: 16- and 32-bit integers in network byte order, the most significant
    byte first (RFC 791, Appendix B), signed ones as two's complement. */
module Wire {

  type Byte = x: int | 0 <= x < 0x100
  type U16 = x: int | 0 <= x < 0x1_0000
  type U32 = x: int | 0 <= x < 0x1_0000_0000
  type I32 = x: int | -0x8000_0000 <= x < 0x8000_0000

  datatype Option<+T> = None | Some(value: T)

  function EncodeU16(v: U16): (b: seq<Byte>)
    ensures |b| == 2
  {
    [v / 0x100, v % 0x100]
  }

  function DecodeU16(b: seq<Byte>): U16
    requires |b| == 2
  {
    b[0] as int * 0x100 + b[1]
  }

  function EncodeU32(v: U32): (b: seq<Byte>)
    ensures |b| == 4
  {
    EncodeU16(v / 0x1_0000) + EncodeU16(v % 0x1_0000)
  }

  function DecodeU32(b: seq<Byte>): U32
    requires |b| == 4
  {
    DecodeU16(b[..2]) as int * 0x1_0000 + DecodeU16(b[2..])
  }

  function Unsigned(v: I32): U32 { if v < 0 then v + 0x1_0000_0000 else v }

  function Signed(v: U32): I32 { if v >= 0x8000_0000 then v - 0x1_0000_0000 else v }

  function EncodeI32(v: I32): (b: seq<Byte>)
    ensures |b| == 4
  {
    EncodeU32(Unsigned(v))
  }

  function DecodeI32(b: seq<Byte>): I32
    requires |b| == 4
  {
    Signed(DecodeU32(b))
  }

  // ---- the bytes, most significant first ----

  lemma U16Bytes(v: U16)
    ensures EncodeU16(v) == [v / 0x100, v % 0x100]
  {
  }

  lemma OfDigits(a: Byte, b: Byte, c: Byte, d: Byte)
    ensures var v := a * 0x100_0000 + b * 0x1_0000 + c * 0x100 + d;
            && v / 0x1_0000 == a * 0x100 + b && v % 0x1_0000 == c * 0x100 + d
            && v / 0x100_0000 == a && v / 0x100 == a * 0x1_0000 + b * 0x100 + c
            && v / 0x1_0000 % 0x100 == b && v / 0x100 % 0x100 == c && v % 0x100 == d
  {
  }

  lemma U32Bytes(v: U32)
    ensures EncodeU32(v) == [v / 0x100_0000, v / 0x1_0000 % 0x100, v / 0x100 % 0x100, v % 0x100]
  {
    var hi, lo := v / 0x1_0000, v % 0x1_0000;
    OfDigits(hi / 0x100, hi % 0x100, lo / 0x100, lo % 0x100);
  }

  /** A negative number has the bytes of the number 2^32 above it. */
  lemma I32Bytes(v: I32)
    ensures var u := if v < 0 then v + 0x1_0000_0000 else v;
            EncodeI32(v) == [u / 0x100_0000, u / 0x1_0000 % 0x100, u / 0x100 % 0x100, u % 0x100]
  {
    hide EncodeU32;
    U32Bytes(Unsigned(v));
  }

  // ---- encoding and decoding undo each other ----

  lemma U16RoundTrip(v: U16)
    ensures DecodeU16(EncodeU16(v)) == v
  {
  }

  lemma U16RoundTripBytes(b: seq<Byte>)
    requires |b| == 2
    ensures EncodeU16(DecodeU16(b)) == b
  {
  }

  lemma U32RoundTrip(v: U32)
    ensures DecodeU32(EncodeU32(v)) == v
  {
  }

  lemma U32RoundTripBytes(b: seq<Byte>)
    requires |b| == 4
    ensures EncodeU32(DecodeU32(b)) == b
  {
    hide EncodeU16, DecodeU16;
    U16RoundTripBytes(b[..2]);
    U16RoundTripBytes(b[2..]);
    assert b == b[..2] + b[2..];
  }

  /** Signed numbers survive the trip, and four bytes read as a number are written back as they
      were, so the two encodings are inverse to each other. */
  lemma I32RoundTrip(v: I32)
    ensures DecodeI32(EncodeI32(v)) == v
  {
  }

  lemma I32RoundTripBytes(b: seq<Byte>)
    requires |b| == 4
    ensures EncodeI32(DecodeI32(b)) == b
  {
    U32RoundTripBytes(b);
  }

  /** Read a number at the offset, which moves past it; fail if the buffer ends before. */
  function ReadU32(buffer: seq<Byte>, offset: nat): Option<(U32, nat)> {
    if offset + 4 > |buffer| then None
    else Some((DecodeU32(buffer[offset..offset + 4]), offset + 4))
  }

  /** What is read is what was written there, and the next read goes on behind it. */
  lemma ReadMeaning(before: seq<Byte>, u: U32, v: I32, rest: seq<Byte>)
    ensures ReadU32(before + EncodeU32(u) + rest, |before|) == Some((u, |before| + 4))
    ensures ReadI32(before + EncodeI32(v) + rest, |before|) == Some((v, |before| + 4))
    ensures |rest| < 4 ==> ReadU32(before + rest, |before|) == None && ReadI32(before + rest, |before|) == None
  {
    hide EncodeU32, DecodeU32, EncodeI32, DecodeI32;
    U32RoundTrip(u);
    I32RoundTrip(v);
    assert (before + EncodeU32(u) + rest)[|before|..|before| + 4] == EncodeU32(u);
    assert (before + EncodeI32(v) + rest)[|before|..|before| + 4] == EncodeI32(v);
  }

  function ReadI32(buffer: seq<Byte>, offset: nat): Option<(I32, nat)> {
    if offset + 4 > |buffer| then None
    else Some((DecodeI32(buffer[offset..offset + 4]), offset + 4))
  }
}
