// A connected TCP socket as the two programs see it through Winsock's
// blocking send and recv: the bytes the peer will send, in order, with a
// read cursor, and the log of the bytes sent to the peer so far. A single
// recv or send may move fewer bytes than asked for; the contracts of Recv
// and Send allow any such split, so what is proved about the loops above
// them holds however the network segments the stream.
module Socket {
  import opened Host

  /** The value send and recv return on failure. */
  const SOCKET_ERROR: int := -1

  class Connection {
    /** The whole byte stream the peer sends before it closes its side. */
    const inbound: seq<Byte>
    /** How many bytes of `inbound` recv has delivered so far. */
    var cursor: nat
    /** Every byte send has accepted so far, in order. */
    var outbound: seq<Byte>
    /** Whether send succeeds (false once the connection is broken). */
    const writable: bool
    /** The most bytes one call of recv or send moves. */
    const segment: nat

    ghost predicate Valid()
      reads this
    {
      cursor <= |inbound| && segment > 0
    }

    /** The bytes the peer has sent that recv has not yet delivered. */
    function Pending(): seq<Byte>
      reads this
      requires Valid()
    {
      inbound[cursor..]
    }

    constructor (inbound: seq<Byte>, segment: nat, writable: bool)
      requires segment > 0
      ensures Valid()
      ensures this.inbound == inbound && cursor == 0 && outbound == []
      ensures this.segment == segment && this.writable == writable
    {
      this.inbound := inbound;
      this.segment := segment;
      this.writable := writable;
      cursor := 0;
      outbound := [];
    }

    /** recv(sock, buffer + offset, want, 0): delivers between 1 and `want`
        pending bytes into the buffer, or returns 0 once the peer has closed
        and nothing is pending. */
    method Recv(buffer: array<Byte>, offset: nat, want: int) returns (n: int)
      requires Valid()
      requires 0 < want && offset + want <= buffer.Length
      modifies this, buffer
      ensures Valid() && outbound == old(outbound)
      ensures 0 <= n <= want && n <= |old(Pending())|
      ensures n == 0 <==> old(Pending()) == []
      ensures cursor == old(cursor) + n
      ensures buffer[..offset] == old(buffer[..offset])
      ensures buffer[offset..offset + n] == inbound[old(cursor)..cursor]
      ensures buffer[offset + n..] == old(buffer[offset + n..])
    {
      n := want;
      if |inbound| - cursor < n { n := |inbound| - cursor; }
      if segment < n { n := segment; }
      forall k | offset <= k < offset + n {
        buffer[k] := inbound[cursor + k - offset];
      }
      cursor := cursor + n;
    }

    /** send(sock, data, want, 0): accepts between 1 and `want` bytes off the
        front of `data`, or returns SOCKET_ERROR on a broken connection. */
    method Send(data: seq<Byte>, want: int) returns (n: int)
      requires Valid()
      requires 0 < want <= |data|
      modifies this
      ensures Valid() && cursor == old(cursor)
      ensures !writable ==> n == SOCKET_ERROR && outbound == old(outbound)
      ensures writable ==> 0 < n <= want && outbound == old(outbound) + data[..n]
    {
      if !writable {
        return SOCKET_ERROR;
      }
      n := if segment < want then segment else want;
      outbound := outbound + data[..n];
    }
  }

  /** How many bytes a loop that asks recv for `total` bytes takes off a
      stream with `pending` bytes left: all it asked for, or everything up to
      the end. */
  function Delivered(total: int, pending: nat): (r: nat)
    ensures r <= pending
  {
    if total > pending then pending else if total < 0 then 0 else total
  }

  /** One pass of recv_all's loop: when the first `rec` bytes of the buffer
      hold the first `rec` pending bytes, the rest is as it started, and a
      recv puts the next `n` pending bytes behind them, then the first
      `rec + n` bytes hold the first `rec + n` pending bytes and the rest is
      still as it started. */
  lemma Filled(before: seq<Byte>, after: seq<Byte>, original: seq<Byte>, pending: seq<Byte>, rec: nat, n: nat)
    requires |before| == |after| == |original| && rec + n <= |before| && rec + n <= |pending|
    requires before[..rec] == pending[..rec] && before[rec..] == original[rec..]
    requires after[..rec] == before[..rec] && after[rec..rec + n] == pending[rec..rec + n]
    requires after[rec + n..] == before[rec + n..]
    ensures after[..rec + n] == pending[..rec + n] && after[rec + n..] == original[rec + n..]
  {
    assert after[..rec + n] == after[..rec] + after[rec..rec + n];
    assert pending[..rec + n] == pending[..rec] + pending[rec..rec + n];
    assert before[rec + n..] == before[rec..][n..];
    assert original[rec + n..] == original[rec..][n..];
  }

}
