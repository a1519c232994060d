// The client (Client.cpp): its own copies of the buffer loops and of the
// framed send and receive, which report failure differently from the
// server's, and the protocol part of main: the CONFIG and DATA payloads it
// packs, the STATUS poll and the check that accepts and unpacks a RESULT.
module Client {
  import opened Host
  import opened Wire
  import opened Socket
  import opened PollLoop

  // ---------------------------------------------------------------------
  // swap_64
  // ---------------------------------------------------------------------

  /** The client's swap_64: ntohl of each 32-bit half, halves exchanged. */
  function Swap64(v: U64): U64
  {
    Join64(Ntohl(Low32(v)), Ntohl(High32(v)))
  }

  /** Applied to eight bytes loaded from memory, swap_64 reads them as a
      big-endian 64-bit word. */
  lemma Swap64ReadsBigEndian(b: seq<Byte>)
    requires |b| == 8
    ensures Swap64(LoadHost64(b)) == Join64(FromBe32(b[..4]), FromBe32(b[4..]))
  {
    HalvesOfJoin(LoadHost32(b[4..]), LoadHost32(b[..4]));
    NtohlLoadIsFromBe32(b[..4]);
    NtohlLoadIsFromBe32(b[4..]);
  }

  // ---------------------------------------------------------------------
  // send_all and recv_all
  // ---------------------------------------------------------------------

  /** send_all: calls send until `totalBytes` bytes of `buffer` are accepted
      and returns that count, or SOCKET_ERROR as soon as send fails. */
  method SendAll(conn: Connection, buffer: seq<Byte>, totalBytes: int) returns (r: int)
    requires conn.Valid() && totalBytes <= |buffer|
    modifies conn
    ensures conn.Valid() && conn.cursor == old(conn.cursor)
    ensures r == if totalBytes <= 0 then 0 else if conn.writable then totalBytes else SOCKET_ERROR
    ensures conn.outbound == if totalBytes > 0 && conn.writable
      then old(conn.outbound) + buffer[..totalBytes] else old(conn.outbound)
  {
    var sent := 0;
    while sent < totalBytes
      invariant conn.Valid() && conn.cursor == old(conn.cursor)
      invariant 0 <= sent && (sent <= totalBytes || sent == 0)
      invariant sent > 0 ==> conn.writable
      invariant conn.outbound == old(conn.outbound) + buffer[..sent]
      decreases totalBytes - sent
    {
      var n := conn.Send(buffer[sent..], totalBytes - sent);
      if n == SOCKET_ERROR {
        return SOCKET_ERROR;
      }
      assert buffer[..sent + n] == buffer[..sent] + buffer[sent..][..n];
      sent := sent + n;
    }
    return sent;
  }

  /** recv_all: calls recv until `totalBytes` bytes have arrived and returns
      that count, or returns recv's 0 when the stream ends first, after
      storing what did arrive. */
  method RecvAll(conn: Connection, buffer: array<Byte>, totalBytes: int) returns (r: int)
    requires conn.Valid() && totalBytes <= buffer.Length
    modifies conn, buffer
    ensures conn.Valid() && conn.outbound == old(conn.outbound)
    ensures r == if 0 < totalBytes <= |old(conn.Pending())| then totalBytes else 0
    ensures var got := Delivered(totalBytes, |old(conn.Pending())|);
      && conn.cursor == old(conn.cursor) + got
      && buffer[..got] == old(conn.Pending())[..got]
      && buffer[got..] == old(buffer[got..])
  {
    ghost var pending := conn.Pending();
    var rec := 0;
    while rec < totalBytes
      invariant conn.Valid() && conn.outbound == old(conn.outbound)
      invariant 0 <= rec <= |pending| && (rec <= totalBytes || rec == 0)
      invariant conn.cursor == old(conn.cursor) + rec
      invariant conn.Pending() == pending[rec..]
      invariant buffer[..rec] == pending[..rec]
      invariant buffer[rec..] == old(buffer[rec..])
      decreases totalBytes - rec
    {
      ghost var before := buffer[..];
      var n := conn.Recv(buffer, rec, totalBytes - rec);
      if n <= 0 {
        return n;
      }
      assert buffer[rec..rec + n] == pending[rec..rec + n];
      Filled(before, buffer[..], old(buffer[..]), pending, rec, n);
      rec := rec + n;
    }
    return rec;
  }

  // ---------------------------------------------------------------------
  // send_tlv and recv_tlv
  // ---------------------------------------------------------------------

  /** send_tlv: the header, then (when the payload is not empty) the payload;
      true only when send_all reports each part sent in full. What reaches
      the wire is Transmitted(frame) or nothing, as on the server, but a
      payload of 2^31 bytes or more makes send_tlv report failure where the
      server's send_message reports success. */
  method SendTlv(conn: Connection, msgType: U32, payload: seq<Byte>) returns (ok: bool)
    requires conn.Valid()
    modifies conn
    ensures conn.Valid() && conn.cursor == old(conn.cursor)
    ensures ok == (conn.writable && (|payload| == 0 || SizeToInt(|payload|) >= 0))
    ensures |payload| < 0x8000_0000 ==> ok == conn.writable
    ensures conn.outbound == if conn.writable
      then old(conn.outbound) + Transmitted(Frame(msgType, payload)) else old(conn.outbound)
  {
    var length := LengthField(|payload|);
    var hdr := StoreHost32(Htonl(msgType)) + StoreHost32(Htonl(length));
    StoreHtonlIsBe32(msgType);
    StoreHtonlIsBe32(length);
    assert hdr == Header(msgType, length);
    var count := SizeToInt(|payload|);
    assert Transmitted(Frame(msgType, payload)) == hdr + payload[..if count < 0 then 0 else count];
    var sent := SendAll(conn, hdr, 8);
    if sent != 8 {
      return false;
    }
    if |payload| != 0 {
      sent := SendAll(conn, payload, count);
      if sent != count {
        return false;
      }
    } else {
      assert payload[..if count < 0 then 0 else count] == [];
    }
    return true;
  }

  /** The client's payload read: it reads with `(int)len` and insists on
      getting back that count, so a length of 2^31 or more reads nothing and
      fails; a short stream fails after storing every byte left. */
  function ReadPayload(s: seq<Byte>, buffer: seq<Byte>, len: U32): (r: Fill)
    requires |buffer| == len
    ensures r.used <= |s| && |r.buffer| == len
    ensures r.ok <==> len < 0x8000_0000 && len <= |s|
  {
    if len == 0 then Fill(true, buffer, 0)
    else if len >= 0x8000_0000 then Fill(false, buffer, 0)
    else if len <= |s| then Fill(true, s[..len], len)
    else Fill(false, s + buffer[|s|..], |s|)
  }

  /** The payload half of recv_tlv. */
  method RecvPayload(conn: Connection, buffer: array<Byte>, len: U32) returns (ok: bool)
    requires conn.Valid() && buffer.Length == len
    modifies conn, buffer
    ensures conn.Valid() && conn.outbound == old(conn.outbound)
    ensures var f := ReadPayload(old(conn.Pending()), old(buffer[..]), len);
      && ok == f.ok && buffer[..] == f.buffer && conn.cursor == old(conn.cursor) + f.used
  {
    ghost var s := conn.Pending();
    if len > 0 {
      var count := ToI32(len);
      var got := RecvAll(conn, buffer, count);
      if got != count {
        if len < 0x8000_0000 {
          assert buffer[..] == buffer[..|s|] + buffer[|s|..];
        } else {
          assert buffer[..] == buffer[0..];
        }
        return false;
      }
      assert buffer[..] == buffer[..len];
    }
    return true;
  }

  /** recv_tlv, with `prevType` and `prev` the type variable and payload
      buffer before the call (both stay as they were when the header does
      not arrive). */
  function ReadTlv(s: seq<Byte>, prevType: U32, prev: seq<Byte>): (r: Reception)
    ensures r.used <= |s|
  {
    if |s| < 8 then Reception(false, prevType, prev, |s|)
    else
      var len := FromBe32(s[4..8]);
      var f := ReadPayload(s[8..], Resize(prev, len), len);
      Reception(f.ok, FromBe32(s[..4]), f.buffer, 8 + f.used)
  }

  /** recv_tlv leaves the type and the buffer as they were when fewer than
      8 bytes arrive; otherwise it sets the type and resizes the buffer to
      the length field, whether or not the payload then arrives. It
      succeeds exactly when the length is below 2^31 and the whole payload
      is pending, and then the buffer holds the payload. */
  lemma ReadTlvFields(s: seq<Byte>, prevType: U32, prev: seq<Byte>)
    ensures var r := ReadTlv(s, prevType, prev);
      && (|s| < 8 ==> r == Reception(false, prevType, prev, |s|))
      && (|s| >= 8 ==> r.tag == FromBe32(s[..4]) && |r.payload| == FromBe32(s[4..8]))
      && (r.ok <==> |s| >= 8 && FromBe32(s[4..8]) < 0x8000_0000 && 8 + FromBe32(s[4..8]) <= |s|)
      && (r.ok ==> r.used == 8 + |r.payload| && r.payload == s[8..r.used])
  {
  }

  /** recv_tlv succeeds exactly when the protocol's decoder finds a whole
      frame whose length is below 2^31, and then hands back that frame. */
  lemma ReadTlvIsDecode(s: seq<Byte>, prevType: U32, prev: seq<Byte>)
    ensures ReadTlv(s, prevType, prev).ok <==> Decode(s).Some? && FromBe32(s[4..8]) < 0x8000_0000
    ensures ReadTlv(s, prevType, prev).ok ==> var d := Decode(s).value;
      ReadTlv(s, prevType, prev) == Reception(true, d.frame.tag, d.frame.payload, d.used)
  {
    if |s| >= 8 {
      var len := FromBe32(s[4..8]);
      if 0 < len <= |s| - 8 {
        assert s[8..][..len] == s[8..8 + len];
      }
    }
  }

  /** The header half of recv_tlv: a recv_all of eight bytes, then ntohl
      of the type word and of the length word. */
  method RecvHeader(conn: Connection) returns (ok: bool, outType: U32, len: U32)
    requires conn.Valid()
    modifies conn
    ensures conn.Valid() && conn.outbound == old(conn.outbound)
    ensures ok <==> |old(conn.Pending())| >= 8
    ensures ok ==> outType == FromBe32(old(conn.Pending())[..4]) && len == FromBe32(old(conn.Pending())[4..8])
    ensures conn.cursor == old(conn.cursor) + if ok then 8 else |old(conn.Pending())|
    ensures conn.Pending() == old(conn.Pending())[conn.cursor - old(conn.cursor)..]
  {
    ghost var s := conn.Pending();
    var hdr := new Byte[8];
    var got := RecvAll(conn, hdr, 8);
    SuffixOfSuffix(conn.inbound, old(conn.cursor), conn.cursor - old(conn.cursor));
    if got != 8 {
      return false, 0, 0;
    }
    assert hdr[..4] == s[..4] && hdr[4..8] == s[4..8];
    NtohlLoadIsFromBe32(hdr[..4]);
    NtohlLoadIsFromBe32(hdr[4..8]);
    ok := true;
    outType := Ntohl(LoadHost32(hdr[..4]));
    len := Ntohl(LoadHost32(hdr[4..8]));
  }

  method RecvTlv(conn: Connection, prevType: U32, prev: seq<Byte>) returns (ok: bool, outType: U32, payload: seq<Byte>)
    requires conn.Valid()
    modifies conn
    ensures conn.Valid() && conn.outbound == old(conn.outbound)
    ensures var r := ReadTlv(old(conn.Pending()), prevType, prev);
      && ok == r.ok && outType == r.tag && payload == r.payload
      && conn.cursor == old(conn.cursor) + r.used
      && conn.Pending() == old(conn.Pending())[r.used..]
  {
    var len;
    ok, outType, len := RecvHeader(conn);
    if !ok {
      return false, prevType, prev;
    }
    var resized := Resize(prev, len);
    var buffer := new Byte[len](i requires 0 <= i < len => resized[i]);
    assert buffer[..] == resized;
    ok := RecvPayload(conn, buffer, len);
    SuffixOfSuffix(conn.inbound, old(conn.cursor), conn.cursor - old(conn.cursor));
    payload := buffer[..];
  }

  // ---------------------------------------------------------------------
  // The requests main sends
  // ---------------------------------------------------------------------

  /** The CONFIG payload: htonl of the size and of the thread count, stored
      as two 32-bit words; that is, both numbers big-endian. */
  function ConfigPayload(size: I32, threads: I32): (r: seq<Byte>)
    ensures |r| == 8
  {
    StoreHost32(Htonl(ToU32(size))) + StoreHost32(Htonl(ToU32(threads)))
  }

  lemma ConfigPayloadIsBigEndian(size: I32, threads: I32)
    ensures ConfigPayload(size, threads) == Be32(ToU32(size)) + Be32(ToU32(threads))
  {
    StoreHtonlIsBe32(ToU32(size));
    StoreHtonlIsBe32(ToU32(threads));
  }

  /** The DATA payload: the matrix entries in row-major order, each as a
      big-endian 32-bit word. */
  function DataPayload(m: seq<I32>): (r: seq<Byte>)
    ensures |r| == 4 * |m|
  {
    if m == [] then [] else DataPayload(m[..|m| - 1]) + Be32(ToU32(m[|m| - 1]))
  }

  /** Bytes 4k to 4k+3 of the DATA payload encode entry k. */
  lemma {:induction false} DataPayloadFields(m: seq<I32>, k: int)
    requires 0 <= k < |m|
    ensures DataPayload(m)[4 * k..4 * k + 4] == Be32(ToU32(m[k]))
    decreases |m|
  {
    var init := m[..|m| - 1];
    if k < |m| - 1 {
      DataPayloadFields(init, k);
      assert DataPayload(m)[4 * k..4 * k + 4] == DataPayload(init)[4 * k..4 * k + 4];
    }
  }

  /** One more entry adds its word to the end of the DATA payload. */
  lemma DataPayloadStep(m: seq<I32>, i: int)
    requires 0 <= i < |m|
    ensures DataPayload(m[..i + 1]) == DataPayload(m[..i]) + Be32(ToU32(m[i]))
  {
    assert m[..i + 1][..i] == m[..i];
  }

  /** The store through an int32_t pointer: the four bytes of `word` at
      offsets `at` to `at + 3`, everything else as it was. */
  method StoreWord(data: array<Byte>, at: nat, word: seq<Byte>)
    requires |word| == 4 && at + 4 <= data.Length
    modifies data
    ensures data[..at + 4] == old(data[..at]) + word
    ensures data[at + 4..] == old(data[at + 4..])
  {
    forall k | 0 <= k < 4 {
      data[at + k] := word[k];
    }
    assert data[..at + 4] == data[..at] + data[at..at + 4];
  }

  /** The DATA serialisation loop: entry i, put through htonl, is stored as
      the 32-bit word at byte offset 4i of a buffer of 4 bytes per entry. */
  method SerializeData(matrix: seq<I32>) returns (data: array<Byte>)
    ensures fresh(data) && data[..] == DataPayload(matrix)
  {
    data := new Byte[|matrix| * 4];
    var i := 0;
    while i < |matrix|
      invariant 0 <= i <= |matrix|
      invariant data[..4 * i] == DataPayload(matrix[..i])
    {
      var word := StoreHost32(Htonl(ToU32(matrix[i])));
      StoreHtonlIsBe32(ToU32(matrix[i]));
      StoreWord(data, 4 * i, word);
      DataPayloadStep(matrix, i);
      i := i + 1;
    }
    assert matrix[..|matrix|] == matrix;
    assert data[..] == data[..4 * |matrix|];
  }

  // ---------------------------------------------------------------------
  // The STATUS poll and the RESULT check
  // ---------------------------------------------------------------------

  /** The poll loop's exit test: a STATUS reply whose first byte is 2. */
  predicate PollDone(tag: U32, payload: seq<Byte>)
  {
    tag == STATUS && |payload| > 0 && payload[0] == 2
  }

  /** The type variable of the poll loop before recv_tlv sets it. It is left
      uninitialised in C++; its value never matters, since whenever recv_tlv
      leaves it unset it also leaves the payload empty. */
  const UNSET: U32 := 0

  /** What the poll loop does, stopped after `attempts` rounds (see
      PollOutcome). Each round ignores whether recv_tlv succeeded and tests
      what it left behind. */
  function Polling(s: seq<Byte>, attempts: nat): (r: PollOutcome)
    ensures r.polls <= attempts && r.used <= |s|
    ensures r.done ==> 1 <= r.polls
    ensures !r.done ==> r.polls == attempts
  {
    Rounds(Passes, Taken, s, attempts)
  }

  /** After `i` rounds that did not pass the exit test and took `used`
      bytes off `s0`, the rounds left, run on what remains of the stream,
      finish what Polling predicts for the whole loop. */
  ghost predicate Resumes(s0: seq<Byte>, attempts: nat, rest: seq<Byte>, i: nat, used: nat)
  {
    i <= attempts &&
    var r := Polling(rest, attempts - i);
    Polling(s0, attempts) == PollOutcome(r.done, r.polls + i, r.used + used)
  }

  /** One more round either passes the exit test, ending the loop as Polling
      predicts, or leaves Resumes holding one round later. */
  lemma ResumesStep(s0: seq<Byte>, attempts: nat, rest: seq<Byte>, i: nat, used: nat, reply: Reception)
    requires Resumes(s0, attempts, rest, i, used) && i < attempts
    requires reply == ReadTlv(rest, UNSET, [])
    ensures PollDone(reply.tag, reply.payload) ==>
      Polling(s0, attempts) == PollOutcome(true, i + 1, used + reply.used)
    ensures !PollDone(reply.tag, reply.payload) ==>
      Resumes(s0, attempts, rest[reply.used..], i + 1, used + reply.used)
  {
  }

  /** `prefix` followed by `n` copies of `x`. */
  function AppendCopies(prefix: seq<Byte>, x: seq<Byte>, n: nat): seq<Byte>
  {
    if n == 0 then prefix else AppendCopies(prefix, x, n - 1) + x
  }

  /** One round of the poll loop: a STATUS request, recv_tlv into a fresh
      payload buffer, and the exit test on what it left. */
  method PollRound(conn: Connection) returns (passed: bool, ghost reply: Reception)
    requires conn.Valid()
    modifies conn
    ensures conn.Valid()
    ensures reply == ReadTlv(old(conn.Pending()), UNSET, [])
    ensures passed == PollDone(reply.tag, reply.payload) && conn.cursor == old(conn.cursor) + reply.used
    ensures conn.Pending() == old(conn.Pending())[reply.used..]
    ensures conn.outbound == if conn.writable
      then old(conn.outbound) + Transmitted(Frame(STATUS, [])) else old(conn.outbound)
  {
    var _ := SendTlv(conn, STATUS, []);
    var ok, stType, stPayload := RecvTlv(conn, UNSET, []);
    passed := stType == STATUS && |stPayload| > 0 && stPayload[0] == 2;
    reply := ReadTlv(old(conn.Pending()), UNSET, []);
  }

  /** What `n` rounds of the poll loop send after `prefix`: one STATUS
      request each, or nothing on a connection that cannot send. */
  function StatusRequests(prefix: seq<Byte>, writable: bool, n: nat): seq<Byte>
  {
    if writable then AppendCopies(prefix, Transmitted(Frame(STATUS, [])), n) else prefix
  }

  /** A round of the poll loop as the loop sees it: Resumes again one round
      later, or the loop's end as Polling predicts it; one more STATUS
      request sent. */
  method PollStep(conn: Connection, ghost s0: seq<Byte>, ghost out0: seq<Byte>, attempts: nat, i: nat, ghost used: nat)
    returns (passed: bool, ghost used': nat)
    requires conn.Valid() && i < attempts && Resumes(s0, attempts, conn.Pending(), i, used)
    requires conn.outbound == StatusRequests(out0, conn.writable, i)
    modifies conn
    ensures conn.Valid() && conn.cursor == old(conn.cursor) + (used' - used) && used <= used'
    ensures passed ==> Polling(s0, attempts) == PollOutcome(true, i + 1, used')
    ensures !passed ==> Resumes(s0, attempts, conn.Pending(), i + 1, used')
    ensures conn.outbound == StatusRequests(out0, conn.writable, i + 1)
  {
    ghost var pending := conn.Pending();
    ghost var reply;
    passed, reply := PollRound(conn);
    ResumesStep(s0, attempts, pending, i, used, reply);
    used' := used + reply.used;
  }

  /** Once every round has run without passing the exit test, the loop's
      end is the one Polling predicts. */
  lemma ResumesExhausted(s0: seq<Byte>, attempts: nat, rest: seq<Byte>, used: nat)
    requires Resumes(s0, attempts, rest, attempts, used)
    ensures Polling(s0, attempts) == PollOutcome(false, attempts, used)
  {
  }

  /** The STATUS poll, given at most `attempts` rounds: it stops with the
      outcome Polling predicts, having sent one STATUS request per round. */
  method Poll(conn: Connection, attempts: nat) returns (done: bool, ghost polls: nat, ghost consumed: nat)
    requires conn.Valid()
    modifies conn
    ensures conn.Valid() && conn.cursor == old(conn.cursor) + consumed
    ensures Polling(old(conn.Pending()), attempts) == PollOutcome(done, polls, consumed)
    ensures conn.outbound == StatusRequests(old(conn.outbound), conn.writable, polls)
  {
    ghost var s0 := conn.Pending();
    ghost var out0 := conn.outbound;
    consumed := 0;
    done := false;
    var i: nat := 0;
    while i < attempts
      invariant conn.Valid() && conn.cursor == old(conn.cursor) + consumed
      invariant Resumes(s0, attempts, conn.Pending(), i, consumed)
      invariant conn.outbound == StatusRequests(out0, conn.writable, i)
    {
      var passed;
      passed, consumed := PollStep(conn, s0, out0, attempts, i, consumed);
      i := i + 1;
      if passed {
        done := true;
        polls := i;
        return;
      }
    }
    ResumesExhausted(s0, attempts, conn.Pending(), consumed);
    polls := i;
  }

  /** The figures a RESULT reply reports. */
  datatype ResultInfo = ResultInfo(n: I32, threads: I32, timeBits: U64)

  /** main's RESULT check: a reply is unpacked only when recv_tlv succeeded,
      its type is RESULT and its payload holds at least 16 bytes; N and the
      thread count are then the big-endian words at offsets 0 and 4, and the
      time bits the big-endian 64-bit word at offset 8. */
  function AcceptResult(ok: bool, tag: U32, payload: seq<Byte>): (r: Option<ResultInfo>)
    ensures r.Some? <==> ok && tag == RESULT && |payload| >= 16
    ensures r.Some? ==> r.value == ResultInfo(
      ToI32(FromBe32(payload[..4])), ToI32(FromBe32(payload[4..8])),
      Join64(FromBe32(payload[8..12]), FromBe32(payload[12..16])))
  {
    if ok && tag == RESULT && |payload| >= 16 then
      NtohlLoadIsFromBe32(payload[0..4]);
      NtohlLoadIsFromBe32(payload[4..8]);
      Swap64ReadsBigEndian(payload[8..16]);
      assert payload[8..16][..4] == payload[8..12] && payload[8..16][4..] == payload[12..16];
      Some(ResultInfo(ToI32(Ntohl(LoadHost32(payload[0..4]))), ToI32(Ntohl(LoadHost32(payload[4..8]))),
                      Swap64(LoadHost64(payload[8..16]))))
    else None
  }

  /** The RESULT step of main: a RESULT request, then recv_tlv into a fresh
      payload buffer, and the reply unpacked when AcceptResult takes it. */
  method FetchResult(conn: Connection) returns (result: Option<ResultInfo>, ghost used: nat)
    requires conn.Valid()
    modifies conn
    ensures conn.Valid()
    ensures var r := ReadTlv(old(conn.Pending()), UNSET, []);
      && result == AcceptResult(r.ok, r.tag, r.payload) && used == r.used
    ensures conn.cursor == old(conn.cursor) + used && conn.Pending() == old(conn.Pending())[used..]
    ensures conn.outbound == if conn.writable
      then old(conn.outbound) + Transmitted(Frame(RESULT, [])) else old(conn.outbound)
  {
    var _ := SendTlv(conn, RESULT, []);
    var ok, resType, resPayload := RecvTlv(conn, UNSET, []);
    result := AcceptResult(ok, resType, resPayload);
    used := ReadTlv(old(conn.Pending()), UNSET, []).used;
  }

  // ---------------------------------------------------------------------
  // main
  // ---------------------------------------------------------------------

  /** do_ack: sends a request and takes one reply off the stream, whatever
      it says (into an uninitialised type variable and an empty buffer). */
  method DoAck(conn: Connection, cmd: U32, payload: seq<Byte>) returns (ghost used: nat)
    requires conn.Valid()
    modifies conn
    ensures conn.Valid() && used == ReadTlv(old(conn.Pending()), UNSET, []).used
    ensures conn.cursor == old(conn.cursor) + used && conn.Pending() == old(conn.Pending())[used..]
    ensures conn.outbound == if conn.writable
      then old(conn.outbound) + Transmitted(Frame(cmd, payload)) else old(conn.outbound)
  {
    var _ := SendTlv(conn, cmd, payload);
    var _, _, _ := RecvTlv(conn, UNSET, []);
    used := ReadTlv(old(conn.Pending()), UNSET, []).used;
  }

  /** How main ends on the stream of replies it reads: whether the poll
      loop ended within the rounds allowed, the figures of an accepted
      RESULT, the STATUS requests sent, and the bytes taken off the stream. */
  datatype ClientEnd = ClientEnd(finished: bool, result: Option<ResultInfo>, polls: nat, used: nat)

  /** What is left of the stream `s` once `n` do_ack calls have each taken
      one reply off it. */
  function AfterAcks(s: seq<Byte>, n: nat): (r: seq<Byte>)
    ensures |r| <= |s|
  {
    Skip(Taken, s, n)
  }

  /** The poll loop's exit test on the reply at the front of `s`, read into
      a fresh payload buffer. */
  predicate Passes(s: seq<Byte>)
  {
    var reply := ReadTlv(s, UNSET, []);
    PollDone(reply.tag, reply.payload)
  }

  /** The bytes that reading the reply at the front of `s` into a fresh
      payload buffer takes. */
  function Taken(s: seq<Byte>): (r: nat)
    ensures r <= |s|
  {
    ReadTlv(s, UNSET, []).used
  }

  /** A loop that finishes does so on a round whose reply passes the exit
      test. */
  lemma PollingEndsOnPass(s: seq<Byte>, attempts: nat)
    ensures var p := Polling(s, attempts); p.done ==> Passes(AfterAcks(s, p.polls - 1))
  {
    RoundsEndOnPass(Passes, Taken, s, attempts);
    var p := Rounds(Passes, Taken, s, attempts);
    assert p.done ==> Passes(Skip(Taken, s, p.polls - 1));
  }

  /** Every round before the last one failed the exit test, and so did the
      last one when the loop did not finish. */
  lemma PollingFailsBefore(s: seq<Byte>, attempts: nat)
    ensures var p := Polling(s, attempts);
      forall i :: 0 <= i < p.polls && (i < p.polls - 1 || !p.done) ==> !Passes(AfterAcks(s, i))
  {
    var p := Polling(s, attempts);
    forall i | 0 <= i < p.polls && (i < p.polls - 1 || !p.done) ensures !Passes(AfterAcks(s, i)) {
      RoundsFailBefore(Passes, Taken, s, attempts, i);
    }
  }

  /** The poll loop takes exactly the replies of the rounds it ran. */
  lemma PollingTakesItsRounds(s: seq<Byte>, attempts: nat)
    ensures var p := Polling(s, attempts); s[p.used..] == AfterAcks(s, p.polls)
  {
    RoundsTakeTheirReplies(Passes, Taken, s, attempts);
  }

  /** The poll loop stops at the first round whose reply passes the exit
      test: every earlier round failed it, a loop that does not finish saw
      each of its rounds fail, and the loop takes the replies of exactly
      those rounds. */
  lemma PollingStopsAtFirstPass(s: seq<Byte>, attempts: nat)
    ensures var p := Polling(s, attempts); p.done ==> Passes(AfterAcks(s, p.polls - 1))
    ensures var p := Polling(s, attempts);
      forall i :: 0 <= i < p.polls && (i < p.polls - 1 || !p.done) ==> !Passes(AfterAcks(s, i))
    ensures var p := Polling(s, attempts); s[p.used..] == AfterAcks(s, p.polls)
  {
    PollingEndsOnPass(s, attempts);
    PollingFailsBefore(s, attempts);
    PollingTakesItsRounds(s, attempts);
  }

  /** The poll loop finishes whenever some round within the rounds allowed
      would see the exit test pass, and only then. */
  lemma PollingDoneIfPass(s: seq<Byte>, attempts: nat)
    ensures forall j :: 0 <= j < attempts && Passes(AfterAcks(s, j)) ==> Polling(s, attempts).done
    ensures Polling(s, attempts).done <==> exists j :: 0 <= j < attempts && Passes(AfterAcks(s, j))
  {
    var p := Polling(s, attempts);
    PollingStopsAtFirstPass(s, attempts);
    if p.done {
      var j := p.polls - 1;
      assert 0 <= j < attempts && Passes(AfterAcks(s, j));
    }
  }

  /** main finishes exactly when some poll round within the rounds allowed
      sees the exit test pass; it stops at the first such round, and then
      judges the reply that follows the last STATUS reply it read by
      AcceptResult. */
  lemma FinishAfterPass(s: seq<Byte>, attempts: nat)
    ensures var e := Finish(s, attempts); e.finished ==> Passes(AfterAcks(s, e.polls - 1))
    ensures Finish(s, attempts).finished <==> exists j :: 0 <= j < attempts && Passes(AfterAcks(s, j))
    ensures var e := Finish(s, attempts);
      forall i :: 0 <= i < e.polls && (i < e.polls - 1 || !e.finished) ==> !Passes(AfterAcks(s, i))
    ensures var e := Finish(s, attempts); e.finished ==>
      var r := ReadTlv(AfterAcks(s, e.polls), UNSET, []);
      e.result == AcceptResult(r.ok, r.tag, r.payload)
  {
    PollingStopsAtFirstPass(s, attempts);
    PollingDoneIfPass(s, attempts);
  }

  /** What main reads off `s`, the stream left after the three
      acknowledgements: the poll loop, and, when the poll loop saw the exit
      test pass, the RESULT reply. */
  function Finish(s: seq<Byte>, attempts: nat): (r: ClientEnd)
    ensures r.used <= |s| && r.polls <= attempts
    ensures r.finished ==> 1 <= r.polls
    ensures !r.finished ==> r.result == None && r.polls == attempts
  {
    var p := Polling(s, attempts);
    if !p.done then ClientEnd(false, None, p.polls, p.used)
    else
      var r := ReadTlv(s[p.used..], UNSET, []);
      ClientEnd(true, AcceptResult(r.ok, r.tag, r.payload), p.polls, p.used + r.used)
  }

  /** What main reads off the stream `s`: the CONFIG, DATA and COMPUTE
      acknowledgements, then what Finish says. */
  function ClientSession(s: seq<Byte>, attempts: nat): (r: ClientEnd)
    ensures r.used <= |s| && r.polls <= attempts
    ensures r.finished ==> 1 <= r.polls
    ensures !r.finished ==> r.result == None && r.polls == attempts
  {
    var acked := AfterAcks(s, 3);
    var e := Finish(acked, attempts);
    e.(used := |s| - |acked| + e.used)
  }

  /** The wire once main has sent, after `sent`, its CONFIG request, its
      DATA request for `matrix` and its COMPUTE request. */
  function Configured(sent: seq<Byte>, matrixSize: I32, threadCount: I32, matrix: seq<I32>): seq<Byte>
  {
    sent + Transmitted(Frame(CONFIG, ConfigPayload(matrixSize, threadCount)))
      + Transmitted(Frame(DATA, DataPayload(matrix))) + Transmitted(Frame(COMPUTE, []))
  }

  /** What the wire holds once main has sent, after `sent`, the STATUS
      requests of the poll loop and, when it ended, the RESULT request. */
  function Polled(sent: seq<Byte>, polls: nat, finished: bool): seq<Byte>
  {
    AppendCopies(sent, Transmitted(Frame(STATUS, [])), polls)
      + (if finished then Transmitted(Frame(RESULT, [])) else [])
  }

  /** What the wire holds once main has sent, after `sent`, all its
      requests: CONFIG, DATA, COMPUTE, the STATUS requests, then RESULT. */
  function ClientRequests(sent: seq<Byte>, matrixSize: I32, threadCount: I32, matrix: seq<I32>,
                          polls: nat, finished: bool): seq<Byte>
  {
    Polled(Configured(sent, matrixSize, threadCount, matrix), polls, finished)
  }

  /** Appending copies after a prefix is the prefix followed by the copies
      alone. */
  lemma {:induction false} AppendCopiesAfter(prefix: seq<Byte>, x: seq<Byte>, n: nat)
    ensures AppendCopies(prefix, x, n) == prefix + AppendCopies([], x, n)
  {
    if n > 0 {
      AppendCopiesAfter(prefix, x, n - 1);
      assert prefix + AppendCopies([], x, n - 1) + x == prefix + (AppendCopies([], x, n - 1) + x);
    }
  }

  /** Steps 1 to 3 of main: CONFIG with the matrix size and the thread
      count, DATA with the serialised matrix, and COMPUTE, each through
      do_ack. */
  method SendRequests(conn: Connection, matrixSize: I32, threadCount: I32, matrix: seq<I32>)
    requires conn.Valid()
    modifies conn
    ensures conn.Valid() && conn.Pending() == AfterAcks(old(conn.Pending()), 3)
    ensures conn.outbound == if conn.writable
      then Configured(old(conn.outbound), matrixSize, threadCount, matrix) else old(conn.outbound)
  {
    ghost var s0 := conn.Pending();
    var cfg := ConfigPayload(matrixSize, threadCount);
    ghost var _ := DoAck(conn, CONFIG, cfg);
    ghost var s1 := conn.Pending();
    var data := SerializeData(matrix);
    ghost var _ := DoAck(conn, DATA, data[..]);
    ghost var s2 := conn.Pending();
    ghost var _ := DoAck(conn, COMPUTE, []);
    assert AfterAcks(s0, 3) == AfterAcks(s1, 2) == AfterAcks(s2, 1);
  }

  /** Steps 4 and 5 of main: the poll loop, allowed at most `attempts`
      rounds, and, once it has seen the exit test pass, the RESULT request. */
  method PollAndFetch(conn: Connection, attempts: nat)
    returns (finished: bool, result: Option<ResultInfo>, ghost polls: nat)
    requires conn.Valid()
    modifies conn
    ensures conn.Valid() && conn.cursor >= old(conn.cursor)
    ensures Finish(old(conn.Pending()), attempts)
      == ClientEnd(finished, result, polls, conn.cursor - old(conn.cursor))
    ensures conn.outbound == if conn.writable
      then Polled(old(conn.outbound), polls, finished) else old(conn.outbound)
  {
    ghost var s0 := conn.Pending();
    ghost var c0 := conn.cursor;
    ghost var consumed;
    finished, polls, consumed := Poll(conn, attempts);
    SuffixOfSuffix(conn.inbound, c0, consumed);
    ghost var s1 := conn.Pending();
    assert s1 == s0[consumed..];
    if !finished {
      result := None;
    } else {
      ghost var used;
      result, used := FetchResult(conn);
      ghost var r := ReadTlv(s1, UNSET, []);
      assert result == AcceptResult(r.ok, r.tag, r.payload) && used == r.used;
    }
  }

  /** main from its CONFIG step on, for a matrix of `matrixSize` rows and
      columns (10000 in main) to be processed by `threadCount` threads (128
      in main), with the poll loop allowed at most `attempts` rounds (it has
      no bound in C++). `matrix` stands for the matrix main fills with
      random entries; at the end main has read what ClientSession says and
      sent what ClientRequests says. */
  method RunClient(conn: Connection, matrixSize: I32, threadCount: I32, matrix: seq<I32>, attempts: nat)
    returns (finished: bool, result: Option<ResultInfo>, ghost polls: nat)
    requires conn.Valid()
    modifies conn
    ensures conn.Valid() && conn.cursor >= old(conn.cursor)
    ensures ClientSession(old(conn.Pending()), attempts)
      == ClientEnd(finished, result, polls, conn.cursor - old(conn.cursor))
    ensures conn.outbound == if conn.writable
      then ClientRequests(old(conn.outbound), matrixSize, threadCount, matrix, polls, finished)
      else old(conn.outbound)
  {
    SendRequests(conn, matrixSize, threadCount, matrix);
    finished, result, polls := PollAndFetch(conn, attempts);
  }
}
