// The wire format shared by server and client: big-endian 32-bit fields, and
// type-length-value frames made of an 8-byte header (type, then payload
// length) followed by the payload bytes.
module Wire {
  import opened Host

  datatype Option<T> = None | Some(value: T)

  // Frame type tags (the TLV_* constants of both programs).
  const CONFIG: U32 := 1
  const DATA: U32 := 2
  const COMPUTE: U32 := 3
  const STATUS: U32 := 4
  const RESULT: U32 := 5
  const ERROR: U32 := 255

  /** The big-endian encoding of a 32-bit word. */
  function Be32(x: U32): (r: seq<Byte>)
    ensures |r| == 4
  {
    [ByteOf(x, 3), ByteOf(x, 2), ByteOf(x, 1), ByteOf(x, 0)]
  }

  /** The 32-bit word that four big-endian bytes denote. */
  function FromBe32(b: seq<Byte>): U32
    requires |b| == 4
  {
    Word(b)
  }

  lemma Be32RoundTrip(x: U32, b: seq<Byte>)
    requires |b| == 4
    ensures FromBe32(Be32(x)) == x
    ensures Be32(FromBe32(b)) == b
  {
    WordOfBytes(x);
    BytesOfWord(b);
  }

  /** What both programs do to put a 32-bit field on the wire (htonl, then
      a store to memory) is big-endian encoding ... */
  lemma StoreHtonlIsBe32(x: U32)
    ensures StoreHost32(Htonl(x)) == Be32(x)
  {
    BytesOfWord([ByteOf(x, 0), ByteOf(x, 1), ByteOf(x, 2), ByteOf(x, 3)]);
  }

  /** ... and what they do to read one (a load from memory, then ntohl) is
      big-endian decoding. */
  lemma NtohlLoadIsFromBe32(b: seq<Byte>)
    requires |b| == 4
    ensures Ntohl(LoadHost32(b)) == FromBe32(b)
  {
    BytesOfWord([b[3], b[2], b[1], b[0]]);
  }

  /** The big-endian encoding of a 64-bit word. */
  function Be64(v: U64): (r: seq<Byte>)
    ensures |r| == 8
  {
    Be32(High32(v)) + Be32(Low32(v))
  }

  datatype Frame = Frame(tag: U32, payload: seq<Byte>)

  /** A frame whose payload size fits the 32-bit length field. */
  predicate Representable(f: Frame)
  {
    |f.payload| < 0x1_0000_0000
  }

  /** The (uint32_t) cast of the payload size that fills the length field. */
  function LengthField(size: nat): (r: U32)
    ensures size < 0x1_0000_0000 ==> r == size
  {
    size % 0x1_0000_0000
  }

  /** The 8-byte frame header. */
  function Header(tag: U32, length: U32): (r: seq<Byte>)
    ensures |r| == 8
  {
    Be32(tag) + Be32(length)
  }

  /** The encoding of a frame: header, then the payload. */
  function Encode(f: Frame): (r: seq<Byte>)
    ensures |r| == 8 + |f.payload|
    ensures r[8..] == f.payload
  {
    Header(f.tag, LengthField(|f.payload|)) + f.payload
  }

  /** The header of an encoded frame reads back as its tag and, for a
      representable frame, its payload size. */
  lemma EncodeFields(f: Frame)
    ensures FromBe32(Encode(f)[..4]) == f.tag
    ensures FromBe32(Encode(f)[4..8]) == LengthField(|f.payload|)
    ensures Representable(f) ==> FromBe32(Encode(f)[4..8]) == |f.payload|
  {
    var r := Encode(f);
    assert r[..4] == Be32(f.tag) && r[4..8] == Be32(LengthField(|f.payload|));
    Be32RoundTrip(f.tag, r[..4]);
    Be32RoundTrip(LengthField(|f.payload|), r[4..8]);
  }

  /** The first 8 bytes of a stream are the header of the tag and length
      they denote. */
  lemma HeaderOfStream(s: seq<Byte>)
    requires |s| >= 8
    ensures Header(FromBe32(s[..4]), FromBe32(s[4..8])) == s[..8]
  {
    Be32RoundTrip(FromBe32(s[..4]), s[..4]);
    Be32RoundTrip(FromBe32(s[4..8]), s[4..8]);
    assert s[..8] == s[..4] + s[4..8];
  }

  /** A decoded frame and the number of stream bytes it took up. */
  datatype Decoded = Decoded(frame: Frame, used: nat)

  /** Decodes the frame at the front of a byte stream: exactly 8 header bytes,
      then exactly `length` payload bytes; None when the stream ends first. */
  function Decode(s: seq<Byte>): (r: Option<Decoded>)
    ensures r.Some? <==> |s| >= 8 && |s| - 8 >= FromBe32(s[4..8])
    ensures r.Some? ==> var d := r.value;
      && d.used == 8 + |d.frame.payload| <= |s|
      && Representable(d.frame)
      && s[..d.used] == Encode(d.frame)
  {
    if |s| < 8 then None
    else
      var length := FromBe32(s[4..8]);
      if |s| - 8 < length then None
      else
        var f := Frame(FromBe32(s[..4]), s[8..8 + length]);
        HeaderOfStream(s);
        assert LengthField(length) == length;
        assert s[..8 + length] == s[..8] + s[8..8 + length];
        Some(Decoded(f, 8 + length))
  }

  /** Decoding an encoded frame gives the frame back, whatever follows it in
      the stream, and takes up exactly its bytes. */
  lemma DecodeEncode(f: Frame, rest: seq<Byte>)
    requires Representable(f)
    ensures Decode(Encode(f) + rest) == Some(Decoded(f, 8 + |f.payload|))
  {
    var s := Encode(f) + rest;
    EncodeFields(f);
    assert s[..4] == Encode(f)[..4] && s[4..8] == Encode(f)[4..8];
    assert s[8..8 + |f.payload|] == f.payload;
  }

  /** A frame with an empty payload is its header alone. */
  lemma EmptyPayloadIsHeader(tag: U32, rest: seq<Byte>)
    ensures Encode(Frame(tag, [])) == Header(tag, 0)
    ensures Decode(Header(tag, 0) + rest) == Some(Decoded(Frame(tag, []), 8))
  {
    DecodeEncode(Frame(tag, []), rest);
  }

  /** The bytes that send_message (server) and send_tlv (client) put on the
      wire: the header, then as many payload bytes as the `(int)` cast of the
      payload size asks send_all for (none when the cast is negative). */
  function Transmitted(f: Frame): (r: seq<Byte>)
    ensures |f.payload| < 0x8000_0000 ==> r == Encode(f)
    ensures 0x8000_0000 <= |f.payload| < 0x1_0000_0000 ==> r == Header(f.tag, |f.payload|)
  {
    var count := SizeToInt(|f.payload|);
    Header(f.tag, LengthField(|f.payload|)) + f.payload[..if count < 0 then 0 else count]
  }

  /** From 2^32 payload bytes on, the length field and the `(int)` cast both
      wrap: the header carries the size modulo 2^32, and that many payload
      bytes follow when it is below 2^31, none otherwise. */
  lemma TransmittedWraps(f: Frame)
    requires |f.payload| >= 0x1_0000_0000
    ensures var w := |f.payload| % 0x1_0000_0000;
      Transmitted(f) == Header(f.tag, w) + f.payload[..if w < 0x8000_0000 then w else 0]
  {
  }

  /** What receiving one frame does to the stream still to be read: whether
      it succeeds, the type and payload it leaves behind, and how many bytes
      it takes off the stream. */
  datatype Reception = Reception(ok: bool, tag: U32, payload: seq<Byte>, used: nat)

  /** What reading a frame's payload into a buffer does to the stream still
      to be read: whether it succeeds, the buffer afterwards, and how many
      bytes it takes off the stream. */
  datatype Fill = Fill(ok: bool, buffer: seq<Byte>, used: nat)
}
