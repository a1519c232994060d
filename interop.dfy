// How the two programs fit together: what the client puts on the wire is
// what the server reads, and what the server answers is what the client
// reads, request by request and for a whole run of main against
// handle_client.
module Interop {
  import opened Host
  import opened Wire
  import Kernel
  import Server
  import Client
  import PollLoop

  /** The client's swap_64 undoes the server's. */
  lemma Swap64Inverse(v: U64)
    ensures Client.Swap64(Server.Swap64(v)) == v
  {
    var w := Server.Swap64(v);
    HalvesOfJoin(Htonl(Low32(v)), Htonl(High32(v)));
    ByteSwapInvolution(Low32(v));
    ByteSwapInvolution(High32(v));
    JoinOfHalves(v);
  }

  /** recv_tlv reads back the bytes a send_message put on the wire: its type
      and payload, taking exactly those bytes, whatever follows. */
  lemma ClientReadsReply(f: Frame, rest: seq<Byte>, prevType: U32, prev: seq<Byte>)
    requires |f.payload| < 0x8000_0000
    ensures Client.ReadTlv(Transmitted(f) + rest, prevType, prev)
      == Reception(true, f.tag, f.payload, 8 + |f.payload|)
  {
    var s := Transmitted(f) + rest;
    EncodeFields(f);
    assert s[..4] == Encode(f)[..4] && s[4..8] == Encode(f)[4..8];
    assert s[8..][..|f.payload|] == f.payload;
  }

  /** The CONFIG payload the client builds sets exactly the matrix size and
      the thread count the client meant in the server's session. */
  lemma ConfigAgreement(st: Server.SessionState, size: I32, threads: I32, elapsed: U64)
    ensures Server.Defined(st, CONFIG, Client.ConfigPayload(size, threads))
    ensures Server.Step(st, CONFIG, Client.ConfigPayload(size, threads), elapsed)
      == (st.(n := size, threadCount := threads), Frame(CONFIG, []))
  {
    Client.ConfigPayloadIsBigEndian(size, threads);
    Server.ConfigSetsParameters(st, size, threads, [], elapsed);
    assert Be32(ToU32(size)) + Be32(ToU32(threads)) + []
      == Client.ConfigPayload(size, threads);
  }

  /** When the server's N*N is the number of entries the client sends, the
      DATA payload the client serialises loads exactly the client's matrix. */
  lemma DataAgreement(st: Server.SessionState, m: seq<I32>, elapsed: U64)
    requires st.n * st.n == |m| < 0x8000_0000
    ensures Server.Defined(st, DATA, Client.DataPayload(m))
    ensures Server.Step(st, DATA, Client.DataPayload(m), elapsed)
      == (st.(matrix := m, hasData := true), Frame(DATA, []))
  {
    var p := Client.DataPayload(m);
    Server.DataLoadsMatrix(st, p, elapsed);
    var loaded := Server.Step(st, DATA, p, elapsed).0.matrix;
    forall k | 0 <= k < |m|
      ensures loaded[k] == m[k]
    {
      Client.DataPayloadFields(m, k);
      Be32RoundTrip(ToU32(m[k]), p[4 * k..4 * k + 4]);
      SignednessRoundTrip(m[k], 0);
    }
    assert loaded == m;
  }

  /** The client's poll exit test passes on the server's STATUS reply
      exactly when the server has computed. */
  lemma StatusAgreement(st: Server.SessionState, p: seq<Byte>, elapsed: U64)
    ensures var reply := Server.Step(st, STATUS, p, elapsed).1;
      Client.PollDone(reply.tag, reply.payload) <==> st.computed
  {
    Server.StatusReply(st, p, elapsed);
  }

  /** The client unpacks the server's RESULT reply into the server's N,
      thread count and time bits; before any computation it unpacks
      nothing. */
  lemma ResultAgreement(st: Server.SessionState, p: seq<Byte>, elapsed: U64)
    ensures var reply := Server.Step(st, RESULT, p, elapsed).1;
      Client.AcceptResult(true, reply.tag, reply.payload)
        == if st.computed then Some(Client.ResultInfo(st.n, st.threadCount, st.timeBits)) else None
  {
    Server.ResultReply(st, p, elapsed);
    if st.computed {
      UnpackResult(st.n, st.threadCount, st.timeBits);
    }
  }

  /** The client's unpacking inverts the server's packing of a RESULT
      payload. */
  lemma UnpackResult(n: I32, threads: I32, bits: U64)
    ensures Client.AcceptResult(true, RESULT, Be32(ToU32(n)) + Be32(ToU32(threads)) + Be64(bits))
      == Some(Client.ResultInfo(n, threads, bits))
  {
    var a, b := Be32(ToU32(n)), Be32(ToU32(threads));
    var h, l := Be32(High32(bits)), Be32(Low32(bits));
    var payload := a + b + Be64(bits);
    assert payload == a + b + h + l;
    assert payload[..4] == a && payload[4..8] == b && payload[8..12] == h && payload[12..16] == l;
    Be32RoundTrip(ToU32(n), a);
    Be32RoundTrip(ToU32(threads), b);
    Be32RoundTrip(High32(bits), h);
    Be32RoundTrip(Low32(bits), l);
    SignednessRoundTrip(n, ToU32(n));
    SignednessRoundTrip(threads, ToU32(threads));
    JoinOfHalves(bits);
  }

  // ---------------------------------------------------------------------
  // A whole run
  // ---------------------------------------------------------------------

  /** handle_client takes one whole request off the front of the stream,
      handles it and sends its reply before going on with the rest. */
  lemma ServerTakes(f: Frame, rest: seq<Byte>, prev: seq<Byte>, st: Server.SessionState,
                    clock: nat -> U64, k: nat, next: Server.SessionState, reply: Frame)
    requires |f.payload| < 0x8000_0000 && Server.Defined(st, f.tag, f.payload)
    requires Server.Step(st, f.tag, f.payload, clock(k)) == (next, reply)
    ensures var c := Server.Conversation(rest, f.payload, next, clock, k + 1);
      Server.Conversation(Transmitted(f) + rest, prev, st, clock, k)
        == Server.Outcome(Transmitted(reply) + c.output, c.defined)
  {
    Server.ReadTransmitted(f, rest, prev);
    assert (Transmitted(f) + rest)[8 + |f.payload|..] == rest;
  }

  /** do_ack takes one whole reply off the front of the stream. */
  lemma ClientAcks(f: Frame, rest: seq<Byte>)
    requires |f.payload| < 0x8000_0000
    ensures var s := Transmitted(f) + rest;
      s[Client.ReadTlv(s, Client.UNSET, []).used..] == rest
  {
    ClientReadsReply(f, rest, Client.UNSET, []);
    assert (Transmitted(f) + rest)[8 + |f.payload|..] == rest;
  }

  /** The server state after CONFIG, DATA and COMPUTE from a fresh
      connection, with the clock reading `t` around the kernel. */
  function Computed(size: I32, threads: I32, m: seq<I32>, t: U64): Server.SessionState
    requires Kernel.Fits(m, size)
  {
    Server.SessionState(size, threads, Kernel.AntiDiagonal(m, size), true, true, t)
  }

  /** What handle_client sends back in a run: the three acknowledgements,
      the STATUS reply "computed" and the RESULT reply. */
  function Replies(st: Server.SessionState): seq<Byte>
  {
    Transmitted(Frame(CONFIG, [])) + Transmitted(Frame(DATA, [])) + Transmitted(Frame(COMPUTE, []))
      + Transmitted(Frame(STATUS, [2])) + Transmitted(Frame(RESULT, Server.ResultPayload(st)))
  }

  /** Five pieces of a stream, regrouped from the right. */
  lemma Regroup(a: seq<Byte>, b: seq<Byte>, c: seq<Byte>, d: seq<Byte>, e: seq<Byte>)
    ensures a + b + c + d + e == a + (b + (c + (d + e)))
  {
  }

  /** The requests of a main whose first poll sees the exit test pass. */
  lemma OneRoundRequests(sent: seq<Byte>, size: I32, threads: I32, m: seq<I32>, polls: nat, finished: bool)
    requires polls == 1 && finished
    ensures Client.ClientRequests(sent, size, threads, m, polls, finished)
      == sent + Transmitted(Frame(CONFIG, Client.ConfigPayload(size, threads)))
         + (Transmitted(Frame(DATA, Client.DataPayload(m)))
         + (Transmitted(Frame(COMPUTE, [])) + (Transmitted(Frame(STATUS, [])) + Transmitted(Frame(RESULT, [])))))
  {
    var cfgured := Client.Configured(sent, size, threads, m);
    var tStatus := Transmitted(Frame(STATUS, []));
    assert Client.AppendCopies(cfgured, tStatus, polls) == cfgured + tStatus;
    Regroup(sent + Transmitted(Frame(CONFIG, Client.ConfigPayload(size, threads))),
            Transmitted(Frame(DATA, Client.DataPayload(m))), Transmitted(Frame(COMPUTE, [])),
            tStatus, Transmitted(Frame(RESULT, [])));
  }

  /** Once computed, handle_client answers a RESULT request with the
      result and then finds the stream at its end. */
  lemma ServerEnds(st: Server.SessionState, prev: seq<Byte>, clock: nat -> U64, k: nat)
    requires st.computed
    ensures Server.Conversation(Transmitted(Frame(RESULT, [])), prev, st, clock, k)
      == Server.Outcome(Transmitted(Frame(RESULT, Server.ResultPayload(st))), true)
  {
    var tResult := Transmitted(Frame(RESULT, []));
    var rResult := Transmitted(Frame(RESULT, Server.ResultPayload(st)));
    assert Server.Conversation([], [], st, clock, k + 1) == Server.Outcome([], true);
    ServerTakes(Frame(RESULT, []), [], prev, st, clock, k, st, Frame(RESULT, Server.ResultPayload(st)));
    assert tResult + [] == tResult && rResult + [] == rResult;
  }

  /** Once computed, handle_client answers a STATUS request with
      "computed" and then answers as ServerEnds says. */
  lemma ServerAnswers(st: Server.SessionState, prev: seq<Byte>, clock: nat -> U64, k: nat)
    requires st.computed
    ensures Server.Conversation(Transmitted(Frame(STATUS, [])) + Transmitted(Frame(RESULT, [])), prev, st, clock, k)
      == Server.Outcome(Transmitted(Frame(STATUS, [2])) + Transmitted(Frame(RESULT, Server.ResultPayload(st))), true)
  {
    ServerEnds(st, [], clock, k + 1);
    ServerTakes(Frame(STATUS, []), Transmitted(Frame(RESULT, [])), prev, st, clock, k, st, Frame(STATUS, [2]));
  }

  /** After DATA, handle_client runs the kernel on COMPUTE and then answers
      as ServerAnswers says. */
  lemma ServerFinishes(st: Server.SessionState, prev: seq<Byte>, clock: nat -> U64, k: nat)
    requires st.hasData && Kernel.Fits(st.matrix, st.n)
    ensures var st' := st.(matrix := Kernel.AntiDiagonal(st.matrix, st.n), timeBits := clock(k), computed := true);
      Server.Conversation(Transmitted(Frame(COMPUTE, []))
                          + (Transmitted(Frame(STATUS, [])) + Transmitted(Frame(RESULT, []))), prev, st, clock, k)
      == Server.Outcome(Transmitted(Frame(COMPUTE, []))
                        + (Transmitted(Frame(STATUS, [2])) + Transmitted(Frame(RESULT, Server.ResultPayload(st')))), true)
  {
    var st' := st.(matrix := Kernel.AntiDiagonal(st.matrix, st.n), timeBits := clock(k), computed := true);
    ServerAnswers(st', [], clock, k + 1);
    ServerTakes(Frame(COMPUTE, []), Transmitted(Frame(STATUS, [])) + Transmitted(Frame(RESULT, [])), prev, st, clock, k,
                st', Frame(COMPUTE, []));
  }

  /** On the requests of a main whose first poll sees the exit test pass,
      handle_client has defined behaviour throughout and sends back
      Replies, the kernel timed on the third request, whatever state and
      payload buffer it starts from; `k` counts the requests handled
      before. */
  lemma ServerRun(size: I32, threads: I32, m: seq<I32>, clock: nat -> U64,
                  st0: Server.SessionState, prev: seq<Byte>, k: nat)
    requires size * size == |m| && 4 * |m| < 0x8000_0000
    ensures Server.Conversation(Client.ClientRequests([], size, threads, m, 1, true), prev, st0, clock, k)
      == Server.Outcome(Replies(Computed(size, threads, m, clock(k + 2))), true)
  {
    var cfg, data := Client.ConfigPayload(size, threads), Client.DataPayload(m);
    var tail2 := Transmitted(Frame(COMPUTE, []))
      + (Transmitted(Frame(STATUS, [])) + Transmitted(Frame(RESULT, [])));
    var tail1 := Transmitted(Frame(DATA, data)) + tail2;
    OneRoundRequests([], size, threads, m, 1, true);
    assert [] + Transmitted(Frame(CONFIG, cfg)) == Transmitted(Frame(CONFIG, cfg));

    var st1 := st0.(n := size, threadCount := threads);
    var st2 := st1.(matrix := m, hasData := true);
    var st3 := Computed(size, threads, m, clock(k + 2));
    ServerFinishes(st2, data, clock, k + 2);
    assert st2.(matrix := Kernel.AntiDiagonal(st2.matrix, st2.n), timeBits := clock(k + 2), computed := true) == st3;
    DataAgreement(st1, m, clock(k + 1));
    ServerTakes(Frame(DATA, data), tail2, cfg, st1, clock, k + 1, st2, Frame(DATA, []));
    ConfigAgreement(st0, size, threads, clock(k));
    ServerTakes(Frame(CONFIG, cfg), tail1, prev, st0, clock, k, st1, Frame(CONFIG, []));
    Regroup(Transmitted(Frame(CONFIG, [])), Transmitted(Frame(DATA, [])), Transmitted(Frame(COMPUTE, [])),
            Transmitted(Frame(STATUS, [2])), Transmitted(Frame(RESULT, Server.ResultPayload(st3))));
  }

  /** After its acknowledgements, main, reading the server's STATUS reply
      "computed" and its RESULT reply, ends its poll loop on the first round
      and unpacks the server's N, thread count and time bits. */
  lemma ClientFinishes(st: Server.SessionState, attempts: nat)
    requires attempts >= 1 && st.computed
    ensures var s := Transmitted(Frame(STATUS, [2])) + Transmitted(Frame(RESULT, Server.ResultPayload(st)));
      Client.Finish(s, attempts)
        == Client.ClientEnd(true, Some(Client.ResultInfo(st.n, st.threadCount, st.timeBits)), 1, |s|)
  {
    var tResult := Transmitted(Frame(RESULT, Server.ResultPayload(st)));
    var s := Transmitted(Frame(STATUS, [2])) + tResult;
    ClientReadsReply(Frame(STATUS, [2]), tResult, Client.UNSET, []);
    assert Client.Polling(s, attempts) == PollLoop.PollOutcome(true, 1, 9);
    assert s[9..] == tResult;
    var rp := Server.ResultPayload(st);
    ClientReadsReply(Frame(RESULT, rp), [], Client.UNSET, []);
    assert tResult + [] == tResult;
    assert Client.ReadTlv(s[9..], Client.UNSET, []) == Reception(true, RESULT, rp, 8 + |rp|);
    Server.ResultPayloadIsBigEndian(st);
    UnpackResult(st.n, st.threadCount, st.timeBits);
    assert Client.AcceptResult(true, RESULT, rp) == Some(Client.ResultInfo(st.n, st.threadCount, st.timeBits));
    assert |s| == 9 + (8 + |rp|);
  }

  /** main, reading Replies, acknowledges three times and then ends as
      ClientFinishes says, taking every byte the server sent. */
  lemma ClientRun(st: Server.SessionState, attempts: nat)
    requires attempts >= 1 && st.computed
    ensures Client.ClientSession(Replies(st), attempts)
      == Client.ClientEnd(true, Some(Client.ResultInfo(st.n, st.threadCount, st.timeBits)), 1, |Replies(st)|)
  {
    var tail3 := Transmitted(Frame(STATUS, [2])) + Transmitted(Frame(RESULT, Server.ResultPayload(st)));
    var tail2 := Transmitted(Frame(COMPUTE, [])) + tail3;
    var tail1 := Transmitted(Frame(DATA, [])) + tail2;
    var s := Transmitted(Frame(CONFIG, [])) + tail1;
    Regroup(Transmitted(Frame(CONFIG, [])), Transmitted(Frame(DATA, [])), Transmitted(Frame(COMPUTE, [])),
            Transmitted(Frame(STATUS, [2])), Transmitted(Frame(RESULT, Server.ResultPayload(st))));
    assert Replies(st) == s;
    ClientAcks(Frame(CONFIG, []), tail1);
    ClientAcks(Frame(DATA, []), tail2);
    ClientAcks(Frame(COMPUTE, []), tail3);
    assert Client.AfterAcks(s, 3) == tail3;
    ClientFinishes(st, attempts);
  }

  /** main against handle_client on a fresh connection: with N*N entries in
      the matrix and a DATA payload short enough to cross in full, the
      server's behaviour stays defined and main ends its poll loop on the
      first round with the server's N, thread count and kernel time, having
      read every byte the server sent. */
  lemma EndToEnd(size: I32, threads: I32, m: seq<I32>, clock: nat -> U64, attempts: nat)
    requires size * size == |m| && 4 * |m| < 0x8000_0000 && attempts >= 1
    ensures var c := Server.Conversation(Client.ClientRequests([], size, threads, m, 1, true), [],
                                         Server.Initial, clock, 0);
      && c.defined
      && Client.ClientSession(c.output, attempts)
        == Client.ClientEnd(true, Some(Client.ResultInfo(size, threads, clock(2))), 1, |c.output|)
  {
    var k: nat := 0;
    ServerRun(size, threads, m, clock, Server.Initial, [], k);
    assert k + 2 == 2;
    var st := Computed(size, threads, m, clock(2));
    ClientRun(st, attempts);
  }
}
