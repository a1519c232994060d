// The server's side of one connection (Server/Server.cpp): the loops that
// move whole buffers through a socket, the framed send and receive built on
// them, and handle_client, the per-connection state machine that answers one
// reply frame for every request frame until the client closes.
module Server {
  import opened Host
  import opened Wire
  import opened Socket
  import Kernel

  // ---------------------------------------------------------------------
  // send_all and recv_all
  // ---------------------------------------------------------------------

  /** send_all: sends the first `totalBytes` bytes of `buffer`, calling send
      until all of them are accepted; false as soon as send fails. */
  method SendAll(conn: Connection, buffer: seq<Byte>, totalBytes: int) returns (ok: bool)
    requires conn.Valid() && totalBytes <= |buffer|
    modifies conn
    ensures conn.Valid() && conn.cursor == old(conn.cursor)
    ensures ok == (totalBytes <= 0 || conn.writable)
    ensures conn.outbound == old(conn.outbound) + (if ok && totalBytes > 0 then buffer[..totalBytes] else [])
  {
    var sent := 0;
    while sent < totalBytes
      invariant conn.Valid() && conn.cursor == old(conn.cursor)
      invariant 0 <= sent && (sent <= totalBytes || sent == 0)
      invariant sent > 0 ==> conn.writable
      invariant conn.outbound == old(conn.outbound) + buffer[..sent]
      decreases totalBytes - sent
    {
      var n := conn.Send(buffer[sent..], totalBytes - sent);
      if n == SOCKET_ERROR {
        return false;
      }
      assert buffer[..sent + n] == buffer[..sent] + buffer[sent..][..n];
      sent := sent + n;
    }
    return true;
  }

  /** recv_all: fills the first `totalBytes` cells of `buffer` by calling recv
      until they have all arrived; false when the stream ends first, after
      storing what did arrive. */
  method RecvAll(conn: Connection, buffer: array<Byte>, totalBytes: int) returns (ok: bool)
    requires conn.Valid() && totalBytes <= buffer.Length
    modifies conn, buffer
    ensures conn.Valid() && conn.outbound == old(conn.outbound)
    ensures ok <==> totalBytes <= |old(conn.Pending())|
    ensures var got := Delivered(totalBytes, |old(conn.Pending())|);
      && conn.cursor == old(conn.cursor) + got
      && buffer[..got] == old(conn.Pending())[..got]
      && buffer[got..] == old(buffer[got..])
  {
    ghost var pending := conn.Pending();
    var rec := 0;
    while rec < totalBytes
      invariant conn.Valid() && conn.outbound == old(conn.outbound)
      invariant 0 <= rec <= |pending| && (rec <= totalBytes || rec == 0)
      invariant conn.cursor == old(conn.cursor) + rec
      invariant conn.Pending() == pending[rec..]
      invariant buffer[..rec] == pending[..rec]
      invariant buffer[rec..] == old(buffer[rec..])
      decreases totalBytes - rec
    {
      ghost var before := buffer[..];
      var n := conn.Recv(buffer, rec, totalBytes - rec);
      if n <= 0 {
        return false;
      }
      assert buffer[rec..rec + n] == pending[rec..rec + n];
      Filled(before, buffer[..], old(buffer[..]), pending, rec, n);
      rec := rec + n;
    }
    return true;
  }

  // ---------------------------------------------------------------------
  // send_message and recv_message
  // ---------------------------------------------------------------------

  /** send_message: the header, then (when the payload is not empty) the
      payload, with a send_all each; true when both went out. Whatever the
      outcome, what reaches the wire is Transmitted(frame) or nothing. */
  method SendMessage(conn: Connection, msgType: U32, payload: seq<Byte>) returns (ok: bool)
    requires conn.Valid()
    modifies conn
    ensures conn.Valid() && conn.cursor == old(conn.cursor)
    ensures ok == conn.writable
    ensures conn.outbound == old(conn.outbound) + (if ok then Transmitted(Frame(msgType, payload)) else [])
  {
    var length := LengthField(|payload|);
    var hdr := StoreHost32(Htonl(msgType)) + StoreHost32(Htonl(length));
    StoreHtonlIsBe32(msgType);
    StoreHtonlIsBe32(length);
    assert hdr == Header(msgType, length);
    var count := SizeToInt(|payload|);
    assert Transmitted(Frame(msgType, payload)) == hdr + payload[..if count < 0 then 0 else count];
    ok := SendAll(conn, hdr, 8);
    if !ok {
      return;
    }
    if |payload| != 0 {
      ok := SendAll(conn, payload, count);
      if !ok {
        return false;
      }
    } else {
      assert payload[..if count < 0 then 0 else count] == [];
    }
    return true;
  }

  /** The server's payload read: it reads with `(int)len`, so a length of
      2^31 or more reads nothing and succeeds; a short stream fails after
      storing every byte left. */
  function ReadPayload(s: seq<Byte>, buffer: seq<Byte>, len: U32): (r: Fill)
    requires |buffer| == len
    ensures r.used <= |s| && |r.buffer| == len
    ensures !r.ok ==> r.used == |s|
  {
    if len == 0 || len >= 0x8000_0000 then Fill(true, buffer, 0)
    else if len <= |s| then Fill(true, s[..len], len)
    else Fill(false, s + buffer[|s|..], |s|)
  }

  /** The payload half of recv_message: nothing to read for an empty
      payload, otherwise a recv_all of `(int)len` bytes into the buffer. */
  method RecvPayload(conn: Connection, buffer: array<Byte>, len: U32) returns (ok: bool)
    requires conn.Valid() && buffer.Length == len
    modifies conn, buffer
    ensures conn.Valid() && conn.outbound == old(conn.outbound)
    ensures var f := ReadPayload(old(conn.Pending()), old(buffer[..]), len);
      && ok == f.ok && buffer[..] == f.buffer && conn.cursor == old(conn.cursor) + f.used
  {
    ghost var s := conn.Pending();
    ghost var b := buffer[..];
    if len == 0 {
      return true;
    }
    ok := RecvAll(conn, buffer, ToI32(len));
    if len >= 0x8000_0000 {
      assert buffer[..] == buffer[0..];
    } else if ok {
      assert buffer[..] == buffer[..len];
    } else {
      assert buffer[..] == buffer[..|s|] + buffer[|s|..];
    }
  }

  /** recv_message, with `prev` the payload buffer before the call: the
      8-byte header, then the payload read into the resized buffer. A stream
      shorter than the header fails after taking every byte left. */
  function ReadMessage(s: seq<Byte>, prev: seq<Byte>): (r: Reception)
    ensures r.used <= |s|
    ensures r.ok ==> r.used >= 8
    ensures !r.ok ==> r.used == |s|
  {
    if |s| < 8 then Reception(false, 0, prev, |s|)
    else
      var len := FromBe32(s[4..8]);
      var f := ReadPayload(s[8..], Resize(prev, len), len);
      Reception(f.ok, FromBe32(s[..4]), f.buffer, 8 + f.used)
  }

  /** The header half of recv_message: a recv_all of eight bytes, then
      ntohl of the type word and of the length word. */
  method RecvHeader(conn: Connection) returns (ok: bool, msgType: U32, len: U32)
    requires conn.Valid()
    modifies conn
    ensures conn.Valid() && conn.outbound == old(conn.outbound)
    ensures ok <==> |old(conn.Pending())| >= 8
    ensures ok ==> msgType == FromBe32(old(conn.Pending())[..4]) && len == FromBe32(old(conn.Pending())[4..8])
    ensures conn.cursor == old(conn.cursor) + if ok then 8 else |old(conn.Pending())|
    ensures conn.Pending() == old(conn.Pending())[conn.cursor - old(conn.cursor)..]
  {
    ghost var s := conn.Pending();
    var hdr := new Byte[8];
    ok := RecvAll(conn, hdr, 8);
    SuffixOfSuffix(conn.inbound, old(conn.cursor), conn.cursor - old(conn.cursor));
    if !ok {
      return false, 0, 0;
    }
    assert hdr[..4] == s[..4] && hdr[4..8] == s[4..8];
    NtohlLoadIsFromBe32(hdr[..4]);
    NtohlLoadIsFromBe32(hdr[4..8]);
    msgType := Ntohl(LoadHost32(hdr[..4]));
    len := Ntohl(LoadHost32(hdr[4..8]));
  }

  method RecvMessage(conn: Connection, prev: seq<Byte>) returns (ok: bool, msgType: U32, payload: seq<Byte>)
    requires conn.Valid()
    modifies conn
    ensures conn.Valid() && conn.outbound == old(conn.outbound)
    ensures var r := ReadMessage(old(conn.Pending()), prev);
      && ok == r.ok && msgType == r.tag && payload == r.payload
      && conn.cursor == old(conn.cursor) + r.used
      && conn.Pending() == old(conn.Pending())[r.used..]
  {
    var len;
    ok, msgType, len := RecvHeader(conn);
    if !ok {
      return false, 0, prev;
    }
    var resized := Resize(prev, len);
    var buffer := new Byte[len](i requires 0 <= i < len => resized[i]);
    assert buffer[..] == resized;
    ok := RecvPayload(conn, buffer, len);
    SuffixOfSuffix(conn.inbound, old(conn.cursor), conn.cursor - old(conn.cursor));
    payload := buffer[..];
  }

  /** Receiving the bytes a send_message put on the wire gives back its type
      and payload and takes exactly those bytes, whatever follows; an empty
      payload is the header alone. */
  lemma ReadTransmitted(f: Frame, rest: seq<Byte>, prev: seq<Byte>)
    requires |f.payload| < 0x8000_0000
    ensures ReadMessage(Transmitted(f) + rest, prev) == Reception(true, f.tag, f.payload, 8 + |f.payload|)
  {
    var s := Transmitted(f) + rest;
    assert s[..4] == Encode(f)[..4] && s[4..8] == Encode(f)[4..8];
    assert s[8..8 + |f.payload|] == f.payload;
  }

  /** recv_message agrees with the protocol's decoder whenever the length
      field is below 2^31, in both directions. */
  lemma ReadMessageIsDecode(s: seq<Byte>, prev: seq<Byte>)
    requires |s| >= 8 && FromBe32(s[4..8]) < 0x8000_0000
    ensures ReadMessage(s, prev).ok <==> Decode(s).Some?
    ensures Decode(s).Some? ==> var d := Decode(s).value;
      ReadMessage(s, prev) == Reception(true, d.frame.tag, d.frame.payload, d.used)
  {
  }

  // ---------------------------------------------------------------------
  // swap_64
  // ---------------------------------------------------------------------

  /** swap_64: htonl of each 32-bit half, halves exchanged. */
  function Swap64(v: U64): U64
  {
    Join64(Htonl(Low32(v)), Htonl(High32(v)))
  }

  /** Stored to memory, the swapped word is the big-endian encoding of the
      original one. */
  lemma Swap64StoresBigEndian(v: U64)
    ensures StoreHost64(Swap64(v)) == Be64(v)
  {
    HalvesOfJoin(Htonl(Low32(v)), Htonl(High32(v)));
    StoreHtonlIsBe32(Low32(v));
    StoreHtonlIsBe32(High32(v));
  }

  // ---------------------------------------------------------------------
  // The session of handle_client
  // ---------------------------------------------------------------------

  /** The local variables of handle_client that outlive one request: N,
      thread_count, the matrix, the two flags, and the raw bits of time_sec. */
  datatype SessionState = SessionState(
    n: I32, threadCount: I32, matrix: seq<I32>,
    hasData: bool, computed: bool, timeBits: U64)

  /** The state a new connection starts in. */
  const Initial := SessionState(0, 1, [], false, false, 0)

  /** The i-th 32-bit field of a payload, read from memory and put through
      ntohl. */
  function NetField(p: seq<Byte>, i: nat): U32
    requires 4 * i + 4 <= |p|
  {
    Ntohl(LoadHost32(p[4 * i..4 * i + 4]))
  }

  /** The matrix a DATA payload holds: `count` fields, each converted to int. */
  function DataMatrix(p: seq<Byte>, count: nat): (r: seq<I32>)
    requires 4 * count <= |p|
    ensures |r| == count
  {
    seq(count, i requires 0 <= i < count => ToI32(NetField(p, i)))
  }

  /** The requests whose handling has defined behaviour in C++: CONFIG reads
      two fields and DATA reads N*N fields of the payload without a bounds
      check, N*N is an int product, and the kernel indexes the matrix up to
      N*N without a check either. */
  predicate Defined(st: SessionState, tag: U32, p: seq<Byte>)
  {
    && (tag == CONFIG ==> |p| >= 8)
    && (tag == DATA ==> st.n * st.n < 0x8000_0000 && 4 * (st.n * st.n) <= |p|)
    && (tag == COMPUTE && st.hasData ==> Kernel.Fits(st.matrix, st.n))
  }

  /** The STATUS byte: 2 once computed, else 1 once data arrived, else 0. */
  function StatusByte(st: SessionState): Byte
  {
    if st.computed then 2 else if st.hasData then 1 else 0
  }

  /** The RESULT payload: htonl(N) and htonl(thread_count) copied from
      memory, then swap_64 of the time bits copied from memory. */
  function ResultPayload(st: SessionState): (r: seq<Byte>)
    ensures |r| == 16
  {
    StoreHost32(Htonl(ToU32(st.n))) + StoreHost32(Htonl(ToU32(st.threadCount)))
      + StoreHost64(Swap64(st.timeBits))
  }

  /** The RESULT payload holds N, the thread count and the time bits as
      big-endian words of 32, 32 and 64 bits. */
  lemma ResultPayloadIsBigEndian(st: SessionState)
    ensures ResultPayload(st) == Be32(ToU32(st.n)) + Be32(ToU32(st.threadCount)) + Be64(st.timeBits)
  {
    StoreHtonlIsBe32(ToU32(st.n));
    StoreHtonlIsBe32(ToU32(st.threadCount));
    Swap64StoresBigEndian(st.timeBits);
  }

  /** One pass of the dispatch in handle_client: the state after the request
      with type `tag` and payload `p`, and the reply frame; `elapsed` is what
      the clock measured around the kernel. */
  function Step(st: SessionState, tag: U32, p: seq<Byte>, elapsed: U64): (SessionState, Frame)
    requires Defined(st, tag, p)
  {
    if tag == CONFIG then
      (st.(n := ToI32(NetField(p, 0)), threadCount := ToI32(NetField(p, 1))), Frame(CONFIG, []))
    else if tag == DATA then
      (st.(matrix := DataMatrix(p, st.n * st.n), hasData := true), Frame(DATA, []))
    else if tag == COMPUTE then
      if st.hasData then
        (st.(matrix := Kernel.AntiDiagonal(st.matrix, st.n), timeBits := elapsed, computed := true),
         Frame(COMPUTE, []))
      else (st, Frame(COMPUTE, []))
    else if tag == STATUS then
      (st, Frame(STATUS, [StatusByte(st)]))
    else if tag == RESULT then
      if st.computed then (st, Frame(RESULT, ResultPayload(st))) else (st, Frame(ERROR, []))
    else
      (st, Frame(ERROR, []))
  }

  /** What one request does, whatever its type: the reply carries the
      request's own type, except that RESULT before a computation and any
      unknown type get ERROR; only CONFIG, DATA and COMPUTE change the
      state; has_data is set by DATA and computed by COMPUTE with data, and
      neither is ever cleared; N and thread_count change only on CONFIG and
      the time bits only on COMPUTE. */
  lemma StepEffects(st: SessionState, tag: U32, p: seq<Byte>, elapsed: U64)
    requires Defined(st, tag, p)
    ensures var (st', reply) := Step(st, tag, p, elapsed);
      && reply.tag == (if tag in {CONFIG, DATA, COMPUTE, STATUS} || (tag == RESULT && st.computed) then tag else ERROR)
      && (tag !in {CONFIG, DATA, COMPUTE} ==> st' == st)
      && st'.hasData == (st.hasData || tag == DATA)
      && st'.computed == (st.computed || (tag == COMPUTE && st.hasData))
      && (tag != CONFIG ==> st'.n == st.n && st'.threadCount == st.threadCount)
      && (tag != COMPUTE ==> st'.timeBits == st.timeBits)
  {
  }

  /** CONFIG sets N and thread_count from the two big-endian fields and
      nothing else: the flags and the matrix stay as they were. */
  lemma ConfigSetsParameters(st: SessionState, size: I32, threads: I32, rest: seq<Byte>, elapsed: U64)
    ensures Defined(st, CONFIG, Be32(ToU32(size)) + Be32(ToU32(threads)) + rest)
    ensures Step(st, CONFIG, Be32(ToU32(size)) + Be32(ToU32(threads)) + rest, elapsed)
      == (st.(n := size, threadCount := threads), Frame(CONFIG, []))
  {
    var p := Be32(ToU32(size)) + Be32(ToU32(threads)) + rest;
    assert p[0..4] == Be32(ToU32(size)) && p[4..8] == Be32(ToU32(threads));
    NtohlLoadIsFromBe32(p[0..4]);
    NtohlLoadIsFromBe32(p[4..8]);
    Be32RoundTrip(ToU32(size), p[0..4]);
    Be32RoundTrip(ToU32(threads), p[4..8]);
    SignednessRoundTrip(size, 0);
    SignednessRoundTrip(threads, 0);
  }

  /** DATA replaces the matrix by the N*N big-endian fields of the payload,
      row-major, sets has_data and acknowledges. */
  lemma DataLoadsMatrix(st: SessionState, p: seq<Byte>, elapsed: U64)
    requires Defined(st, DATA, p)
    ensures var (st', reply) := Step(st, DATA, p, elapsed);
      && reply == Frame(DATA, [])
      && st' == st.(matrix := st'.matrix, hasData := true)
      && |st'.matrix| == st.n * st.n
      && forall k :: 0 <= k < st.n * st.n ==> st'.matrix[k] == ToI32(FromBe32(p[4 * k..4 * k + 4]))
  {
    forall k | 0 <= k < st.n * st.n
      ensures DataMatrix(p, st.n * st.n)[k] == ToI32(FromBe32(p[4 * k..4 * k + 4]))
    {
      NtohlLoadIsFromBe32(p[4 * k..4 * k + 4]);
    }
  }

  /** COMPUTE with data runs the kernel, records the time and sets computed;
      without data it changes nothing. It is acknowledged either way. */
  lemma ComputeRunsKernel(st: SessionState, p: seq<Byte>, elapsed: U64)
    requires Defined(st, COMPUTE, p)
    ensures Step(st, COMPUTE, p, elapsed).1 == Frame(COMPUTE, [])
    ensures st.hasData ==> (Step(st, COMPUTE, p, elapsed).0
      == st.(matrix := Kernel.AntiDiagonal(st.matrix, st.n), timeBits := elapsed, computed := true))
    ensures !st.hasData ==> Step(st, COMPUTE, p, elapsed).0 == st
  {
  }

  /** The STATUS reply is one byte, 2 exactly when computed, 1 exactly when
      data arrived but nothing was computed, 0 exactly before any data. */
  lemma StatusReply(st: SessionState, p: seq<Byte>, elapsed: U64)
    ensures Defined(st, STATUS, p)
    ensures Step(st, STATUS, p, elapsed).0 == st
    ensures var reply := Step(st, STATUS, p, elapsed).1;
      && reply.tag == STATUS && |reply.payload| == 1
      && (reply.payload[0] == 2 <==> st.computed)
      && (reply.payload[0] == 1 <==> st.hasData && !st.computed)
      && (reply.payload[0] == 0 <==> !st.hasData && !st.computed)
  {
  }

  /** RESULT after a computation carries big-endian N, thread count and time
      bits; before any computation it is an empty ERROR frame. */
  lemma ResultReply(st: SessionState, p: seq<Byte>, elapsed: U64)
    ensures Defined(st, RESULT, p)
    ensures Step(st, RESULT, p, elapsed).0 == st
    ensures st.computed ==> (Step(st, RESULT, p, elapsed).1
      == Frame(RESULT, Be32(ToU32(st.n)) + Be32(ToU32(st.threadCount)) + Be64(st.timeBits)))
    ensures !st.computed ==> Step(st, RESULT, p, elapsed).1 == Frame(ERROR, [])
  {
    ResultPayloadIsBigEndian(st);
  }

  /** Any other type is answered with an empty ERROR frame and ignored. */
  lemma UnknownTagIsError(st: SessionState, tag: U32, p: seq<Byte>, elapsed: U64)
    requires tag !in {CONFIG, DATA, COMPUTE, STATUS, RESULT}
    ensures Defined(st, tag, p)
    ensures Step(st, tag, p, elapsed) == (st, Frame(ERROR, []))
  {
  }

  /** The flags only ever go from false to true, and computed implies
      has_data in every state a session reaches. */
  lemma StepKeepsFlags(st: SessionState, tag: U32, p: seq<Byte>, elapsed: U64)
    requires Defined(st, tag, p)
    requires st.computed ==> st.hasData
    ensures var st' := Step(st, tag, p, elapsed).0;
      && (st'.computed ==> st'.hasData)
      && (st.hasData ==> st'.hasData)
      && (st.computed ==> st'.computed)
  {
  }

  // ---------------------------------------------------------------------
  // handle_client
  // ---------------------------------------------------------------------

  /** The bytes a session puts on the wire, and whether every request it
      handled had defined behaviour. */
  datatype Outcome = Outcome(output: seq<Byte>, defined: bool)

  /** The session handle_client runs on the stream `s` still to be read,
      from state `st` with payload buffer `prev`: one reply per request
      until recv_message fails. `clock(k)` is the time measured for the
      k-th request. */
  function Conversation(s: seq<Byte>, prev: seq<Byte>, st: SessionState, clock: nat -> U64, k: nat): Outcome
    decreases |s|
  {
    var r := ReadMessage(s, prev);
    if !r.ok then Outcome([], true)
    else if !Defined(st, r.tag, r.payload) then Outcome([], false)
    else
      var (next, reply) := Step(st, r.tag, r.payload, clock(k));
      var rest := Conversation(s[r.used..], r.payload, next, clock, k + 1);
      Outcome(Transmitted(reply) + rest.output, rest.defined)
  }

  /** A stream too short for a header ends the session at once, with
      nothing sent and nothing undefined; a session that sends anything has
      read a whole first request and starts with a whole reply header. */
  lemma ConversationStarts(s: seq<Byte>, prev: seq<Byte>, st: SessionState, clock: nat -> U64, k: nat)
    ensures |s| < 8 ==> Conversation(s, prev, st, clock, k) == Outcome([], true)
    ensures var c := Conversation(s, prev, st, clock, k);
      c.output != [] ==> ReadMessage(s, prev).ok && |c.output| >= 8
  {
  }

  /** A session that has defined behaviour handles the request at the front
      of the stream with defined behaviour, sends its reply, and continues
      from the state and the payload buffer that request left. */
  lemma ConversationStep(s: seq<Byte>, prev: seq<Byte>, st: SessionState, clock: nat -> U64, k: nat,
                          tag: U32, payload: seq<Byte>, used: nat)
    requires ReadMessage(s, prev) == Reception(true, tag, payload, used)
    requires Conversation(s, prev, st, clock, k).defined
    ensures Defined(st, tag, payload)
    ensures var rest := Conversation(s[used..], payload, Step(st, tag, payload, clock(k)).0, clock, k + 1);
      Conversation(s, prev, st, clock, k)
        == Outcome(Transmitted(Step(st, tag, payload, clock(k)).1) + rest.output, rest.defined)
  {
  }

  /** Conversation with the bytes already sent carried along: `wire` is
      what the connection has accepted so far, and replies are appended to it
      only when the connection is writable. */
  function Replay(s: seq<Byte>, prev: seq<Byte>, st: SessionState, clock: nat -> U64, k: nat,
                  wire: seq<Byte>, writable: bool): Outcome
    decreases |s|
  {
    var r := ReadMessage(s, prev);
    if !r.ok then Outcome(wire, true)
    else if !Defined(st, r.tag, r.payload) then Outcome(wire, false)
    else
      var (next, reply) := Step(st, r.tag, r.payload, clock(k));
      Replay(s[r.used..], r.payload, next, clock, k + 1,
             if writable then wire + Transmitted(reply) else wire, writable)
  }

  lemma {:induction false} ReplayIsConversation(s: seq<Byte>, prev: seq<Byte>, st: SessionState,
                                                clock: nat -> U64, k: nat, wire: seq<Byte>, writable: bool)
    ensures var c := Conversation(s, prev, st, clock, k);
      Replay(s, prev, st, clock, k, wire, writable)
        == Outcome(wire + (if writable then c.output else []), c.defined)
    decreases |s|
  {
    var r := ReadMessage(s, prev);
    if r.ok && Defined(st, r.tag, r.payload) {
      var (next, reply) := Step(st, r.tag, r.payload, clock(k));
      var wire' := if writable then wire + Transmitted(reply) else wire;
      ReplayIsConversation(s[r.used..], r.payload, next, clock, k + 1, wire', writable);
      var c := Conversation(s[r.used..], r.payload, next, clock, k + 1);
      if writable {
        assert wire' + c.output == wire + (Transmitted(reply) + c.output);
      }
    } else {
      assert wire + [] == wire;
    }
  }

  /** Replay takes one request at a time. */
  lemma ReplayStep(s: seq<Byte>, prev: seq<Byte>, st: SessionState, clock: nat -> U64, k: nat,
                   wire: seq<Byte>, writable: bool, tag: U32, payload: seq<Byte>, used: nat)
    requires ReadMessage(s, prev) == Reception(true, tag, payload, used)
    requires Replay(s, prev, st, clock, k, wire, writable).defined
    ensures Defined(st, tag, payload)
    ensures Replay(s, prev, st, clock, k, wire, writable)
      == Replay(s[used..], payload, Step(st, tag, payload, clock(k)).0, clock, k + 1,
                if writable then wire + Transmitted(Step(st, tag, payload, clock(k)).1) else wire, writable)
  {
  }

  /** The DATA loop: each of the first `count` fields of the payload, put
      through ntohl, becomes the next matrix entry. */
  method LoadMatrix(p: seq<Byte>, count: int) returns (m: array<I32>)
    requires 0 <= count && 4 * count <= |p|
    ensures fresh(m) && m[..] == DataMatrix(p, count)
  {
    m := new I32[count];
    var i := 0;
    while i < count
      invariant 0 <= i <= count
      invariant m[..i] == DataMatrix(p, count)[..i]
    {
      m[i] := ToI32(Ntohl(LoadHost32(p[4 * i..4 * i + 4])));
      i := i + 1;
    }
  }

  /** The locals of handle_client that carry over from one request to the
      next; Handle is one pass through its switch. */
  class Session {
    var n: I32
    var threadCount: I32
    var matrix: array<I32>
    var hasData: bool
    var computed: bool
    var timeBits: U64

    function State(): SessionState
      reads this, matrix
    {
      SessionState(n, threadCount, matrix[..], hasData, computed, timeBits)
    }

    constructor ()
      ensures State() == Initial && fresh(matrix)
    {
      n, threadCount := 0, 1;
      matrix := new I32[0];
      hasData, computed := false, false;
      timeBits := 0;
    }

    /** Handles one request and returns the reply to send; `elapsed` is what
        the clock measures around the kernel. */
    method Handle(msgType: U32, payload: seq<Byte>, elapsed: U64) returns (reply: Frame)
      requires Defined(State(), msgType, payload)
      modifies this, matrix
      ensures (State(), reply) == Step(old(State()), msgType, payload, elapsed)
      ensures matrix == old(matrix) || fresh(matrix)
    {
      if msgType == CONFIG {
        n := ToI32(Ntohl(LoadHost32(payload[0..4])));
        threadCount := ToI32(Ntohl(LoadHost32(payload[4..8])));
        reply := Frame(CONFIG, []);
      } else if msgType == DATA {
        matrix := LoadMatrix(payload, n * n);
        hasData := true;
        reply := Frame(DATA, []);
      } else if msgType == COMPUTE {
        if hasData {
          Kernel.PlaceSecondaryDiagonal(matrix, n, threadCount);
          timeBits := elapsed;
          computed := true;
        }
        reply := Frame(COMPUTE, []);
      } else if msgType == STATUS {
        var status: Byte := if computed then 2 else if hasData then 1 else 0;
        reply := Frame(STATUS, [status]);
      } else if msgType == RESULT {
        if computed {
          var out := StoreHost32(Htonl(ToU32(n))) + StoreHost32(Htonl(ToU32(threadCount)))
            + StoreHost64(Swap64(timeBits));
          reply := Frame(RESULT, out);
        } else {
          reply := Frame(ERROR, []);
        }
      } else {
        reply := Frame(ERROR, []);
      }
    }
  }

  /** One pass through the loop of handle_client: handle the request, then
      send its reply. */
  method Respond(conn: Connection, session: Session, msgType: U32, payload: seq<Byte>, elapsed: U64)
    requires conn.Valid() && Defined(session.State(), msgType, payload)
    modifies conn, session, session.matrix
    ensures conn.Valid() && conn.cursor == old(conn.cursor)
    ensures session.State() == Step(old(session.State()), msgType, payload, elapsed).0
    ensures conn.outbound == if conn.writable
      then old(conn.outbound) + Transmitted(Step(old(session.State()), msgType, payload, elapsed).1)
      else old(conn.outbound)
    ensures session.matrix == old(session.matrix) || fresh(session.matrix)
  {
    var reply := session.Handle(msgType, payload, elapsed);
    assert Frame(reply.tag, reply.payload) == reply;
    var _ := SendMessage(conn, reply.tag, reply.payload);
    assert conn.writable || conn.outbound == old(conn.outbound) + [];
  }

  /** handle_client: serves one connection until the client closes it. The
      replies it sends are exactly the conversation's output (none reach the
      wire on a broken connection), and it reads the stream to its end. */
  method HandleClient(conn: Connection, clock: nat -> U64)
    requires conn.Valid()
    requires Conversation(conn.Pending(), [], Initial, clock, 0).defined
    modifies conn
    ensures conn.Valid() && conn.cursor == |conn.inbound|
    ensures conn.outbound == old(conn.outbound)
      + (if conn.writable then Conversation(old(conn.Pending()), [], Initial, clock, 0).output else [])
  {
    ReplayIsConversation(conn.Pending(), [], Initial, clock, 0, conn.outbound, conn.writable);
    ghost var goal := Replay(conn.Pending(), [], Initial, clock, 0, conn.outbound, conn.writable);
    var session := new Session();
    ghost var before := conn.Pending();
    ghost var prev: seq<Byte> := [];
    var k: nat := 0;
    var ok, msgType, payload := RecvMessage(conn, []);
    ghost var used: nat := ReadMessage(before, prev).used;
    while ok
      invariant conn.Valid() && fresh(session.matrix)
      invariant used <= |before| && conn.Pending() == before[used..]
      invariant ReadMessage(before, prev) == Reception(ok, msgType, payload, used)
      invariant Replay(before, prev, session.State(), clock, k, conn.outbound, conn.writable) == goal
      invariant goal.defined
      decreases |conn.Pending()| + (if ok then 1 else 0)
    {
      ghost var st := session.State();
      ReplayStep(before, prev, st, clock, k, conn.outbound, conn.writable, msgType, payload, used);
      ghost var wire := if conn.writable then conn.outbound + Transmitted(Step(st, msgType, payload, clock(k)).1) else conn.outbound;
      Respond(conn, session, msgType, payload, clock(k));
      assert conn.outbound == wire;
      ghost var next := session.State();
      before, prev := conn.Pending(), payload;
      k := k + 1;
      ok, msgType, payload := RecvMessage(conn, payload);
      used := ReadMessage(before, prev).used;
      assert session.State() == next;
    }
  }
}
