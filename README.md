# ParallelComputing_Lab4 in Dafny

A model of a small Windows TCP client/server pair and proofs about it.

- **Server** (`Server/Server.cpp`): accepts connections and serves each one in `handle_client`. This is a per-connection state machine. It receives type-length-value (TLV) frames:
  - CONFIG sets the matrix size N and the thread count;
  - DATA loads an N x N matrix of `int`;
  - COMPUTE runs `place_secondary_diagonal`;
  - STATUS reports progress;
  - RESULT returns N, the thread count and the raw bits of the measured time.
- **Kernel**: `place_secondary_diagonal` splits the rows into one contiguous block per worker thread. It stores each row's 64-bit product, truncated to `int`, in the row's anti-diagonal cell.
- **Client** (`Client.cpp`): packs CONFIG and DATA and acknowledges each request. It polls STATUS until the byte 2 arrives, then requests RESULT and unpacks it.

## Modules

| file | module | models |
|---|---|---|
| `host.dfy` | `Host` | The little-endian x86 host. |
| `wire.dfy` | `Wire` | Big-endian fields, the TLV frame, its encoder/decoder pair, and the bytes the send functions put on the wire. |
| `socket.dfy` | `Socket` | A connected socket, as a class `Connection`. |
| `kernel.dfy` | `Kernel` | `place_secondary_diagonal`. |
| `server.dfy` | `Server` | `send_all`/`recv_all`, `send_message`/`recv_message`, `swap_64` and `handle_client`. |
| `pollloop.dfy` | `PollLoop` | The shape of the client's STATUS poll loop, over any exit test and reply reader. |
| `client.dfy` | `Client` | The client's own copies of the buffer loops and framed I/O, `swap_64`, and the protocol steps of `main`. |
| `interop.dfy` | `Interop` | Lemmas that connect the two programs. |

Details of each module:

- `Host`:
  - `htonl`/`ntohl` are byte reversals;
  - memory loads and stores of 32-bit and 64-bit words;
  - the `int`/`uint32_t` casts;
  - the `(int)` cast of a `size_t`;
  - `vector::resize`;
  - 64-bit wrap-around and 32-bit truncation.
- `Socket`:
  - `Connection` holds the peer's whole byte stream, a read cursor, a log of the bytes sent, a flag for whether sending works, and a segment size.
  - `Recv` and `Send` may move fewer bytes than asked for. Every loop is proved for any segmentation.
- `Kernel`:
  - the partition into blocks;
  - row products with a wrapping `long long` accumulator;
  - the whole kernel as the specification function `AntiDiagonal`;
  - the in-place array method.
- `Server`:
  - `handle_client` is specified by `Step`, one pass of the switch, and `Conversation`, the whole session on an input stream.
  - It is implemented by a `Session` class whose fields are the function's locals, and by a receive/handle/send loop.
- `Client`:
  - the poll loop is specified by `Polling`, which is `PollLoop.Rounds` with the client's exit test `Passes` and reply reader `Taken`. What is proved of the loop shape in `PollLoop` carries over to it;
  - `main` from CONFIG to RESULT is specified by `ClientSession` and `ClientRequests`.
- `Interop` shows that:
  - the client's `swap_64` inverts the server's;
  - each client payload sets the server state the client intends;
  - each server reply is read and interpreted by the client as intended;
  - for a whole run of `main` against `handle_client`, the client ends with the server's N, thread count and time bits.

Machine integers are `int` subset types, such as `U32`, `I32` and `U64`. Wrap-around, truncation and sign conversion are written out. The raw bits of the `double` time are a `U64` that is never interpreted.

**Notes on the code:**
- CONFIG sets only N and the thread count and leaves both flags alone. A STATUS right after CONFIG on a fresh connection reports 0, and a second CONFIG after a computation still reports 2.
- `send_all` and `recv_all` take the size as an `int`, so a size is cast to 32 bits. The length field is a `uint32_t`, so it is the size modulo 2^32.
  - For a payload of 2^31 to 2^32-1 bytes the cast is negative. `send_message` sends the header only and reports success; `send_tlv` sends the header only and reports failure.
  - From 2^32 bytes on, the header carries the size modulo 2^32. The cast is the same number read as a signed 32-bit integer, and that many payload bytes follow when it is not negative. For a size of 2^32 + 5 the header says 5 and 5 bytes follow; at exactly 2^32 the header says 0, nothing follows, and `send_tlv` succeeds.
  - A received length of 2^31 to 2^32-1 casts to a negative `int`. `recv_message` then reads no payload and succeeds, with a payload vector of that length; `recv_tlv` fails.

  `Wire.Transmitted`, `Wire.TransmittedWraps`, `Server.ReadPayload` and `Client.ReadPayload` state these cases.

## Model

| member | source | states |
|---|---|---|
| Host.ByteSwapInvolution | Server/Server.cpp:75-76 | htonl, a byte reversal on the host, undone by a second application |
| Host.NtohlUndoesHtonl | Server/Server.cpp:54-68 | ntohl undoes htonl and htonl undoes ntohl, so a field put through htonl by the sender comes back through ntohl |
| Host.LoadStoreHost32 | Client.cpp:165-166 | a 32-bit word read back from the 4 bytes it was stored to is the same word |
| Host.StoreLoadHost32 | Server/Server.cpp:169-170 | storing the word loaded from 4 bytes gives those bytes back |
| Host.LoadStoreHost64 | Client.cpp:167 | a 64-bit word read back from the 8 bytes it was copied to is the same word |
| Host.SignednessRoundTrip | Server/Server.cpp:126-127 | the `int` to `uint32_t` conversion and back are mutually inverse |
| Host.SizeToInt | Server/Server.cpp:57 | the `(int)` cast of a size is the size below 2^31, negative from 2^31 to 2^32-1, and never above the size |
| Host.Resize | Server/Server.cpp:69 | `resize(len)` has length len, keeps the first old bytes and zero-fills the rest |
| Host.Wrap64Congruent | Server/Server.cpp:87 | the wrapped `long long` product differs from the exact one by a multiple of 2^64 |
| Host.Trunc32Congruent | Server/Server.cpp:89 | `static_cast<int>` changes a value by a multiple of 2^32 only |
| Wire.Be32RoundTrip | Server/Server.cpp:54 | big-endian 32-bit encoding and decoding are mutually inverse |
| Wire.StoreHtonlIsBe32 | Server/Server.cpp:54 | htonl followed by a store to memory is big-endian encoding |
| Wire.NtohlLoadIsFromBe32 | Server/Server.cpp:67-68 | a load from memory followed by ntohl is big-endian decoding |
| Wire.LengthField | Server/Server.cpp:54 | the `(uint32_t)` length field equals any payload size below 2^32 |
| Wire.Encode | Server/Server.cpp:53-60 | an encoded frame is 8 bytes longer than its payload and ends with the payload |
| Wire.EncodeFields | Server/Server.cpp:54 | the header reads back as the type and, for a representable frame, the payload size |
| Wire.Decode | Server/Server.cpp:63-71 | decoding succeeds exactly when 8 header bytes and `length` payload bytes are present; the bytes it takes are the encoding of the frame it returns |
| Wire.DecodeEncode | Server/Server.cpp:53-71 | decoding an encoded frame, whatever follows it, gives the frame back and takes exactly its bytes |
| Wire.EmptyPayloadIsHeader | Server/Server.cpp:70 | a frame of length 0 is its header alone and decodes after 8 bytes with an empty payload |
| Wire.Transmitted | Server/Server.cpp:53-60 | what a send puts on the wire: the encoding below 2^31 payload bytes, the header alone from 2^31 to 2^32-1 |
| Wire.TransmittedWraps | Server/Server.cpp:54-57 | from 2^32 payload bytes on, the header carries the size modulo 2^32 and that many payload bytes follow when it is below 2^31, none otherwise |
| Socket.Connection.Recv | Server/Server.cpp:45 | recv delivers 1 to `want` pending bytes into the buffer at the offset and leaves the rest of the buffer alone; it returns 0 only at end of stream |
| Socket.Connection.Send | Server/Server.cpp:34 | send accepts 1 to `want` bytes off the front of the data, or fails with SOCKET_ERROR on a broken connection |
| Kernel.Workers | Server/Server.cpp:81 | the worker count is `thread_count` when it lies in 1..N, otherwise 1, so it is in [1, N] for N >= 1 |
| Kernel.RowsPerBlockBounds | Server/Server.cpp:92 | with 1..N workers, every block has at least one row and the equal blocks fit in N |
| Kernel.BlocksTile | Server/Server.cpp:92-97 | the blocks are non-empty and contiguous, the first starts at row 0 and the last ends at N |
| Kernel.BlockOfHoldsRow | Server/Server.cpp:92-97 | every row lies in some worker's block |
| Kernel.BlocksPartitionRows | Server/Server.cpp:92-97 | a row lies in one block only |
| Kernel.CellsDistinct | Server/Server.cpp:87-89 | distinct (row, column) pairs have distinct row-major indices |
| Kernel.WorkersTouchDisjointCells | Server/Server.cpp:83-97 | no cell read or written by one worker is read or written by another |
| Kernel.TargetsInOwnRow | Server/Server.cpp:89 | row i's write target is cell (i, N-1-i); different rows have different targets |
| Kernel.AccumulatorCongruent | Server/Server.cpp:85-87 | the wrapping accumulator stays congruent modulo 2^32 to the exact product |
| Kernel.TruncatedExactProduct | Server/Server.cpp:85-89 | the stored value is the exact row product truncated to 32 bits, and is the exact product when that fits an `int` |
| Kernel.RowReadsOnlyItsCells | Server/Server.cpp:86-87 | a row's product depends only on that row's cells |
| Kernel.PartialCells | Server/Server.cpp:84-90 | after rows 0..done-1, a cell holds its row's product if it is that row's anti-diagonal cell, and its original value otherwise |
| Kernel.PartialKeepsPendingRows | Server/Server.cpp:84-90 | rows not yet processed hold their original entries |
| Kernel.AntiDiagonalCells | Server/Server.cpp:80-99 | after the kernel, cell (i, N-1-i) holds row i's product over the original entries, and every other cell is unchanged |
| Kernel.AntiDiagonal | Server/Server.cpp:80-99 | the kernel leaves a matrix of the same size as the one it was given |
| Kernel.Example3x3 | Server/Server.cpp:84-90 | on the 3 x 3 matrix 1..9 the kernel stores 6, 120 and 504 in cells 2, 4 and 6 |
| Kernel.ApplyRow | Server/Server.cpp:89 | one worker step writes its row's product into its target cell and changes no other cell |
| Kernel.ApplyRowKeepsOtherProducts | Server/Server.cpp:83-91 | processing one row does not change another row's product |
| Kernel.ApplyRowsCommute | Server/Server.cpp:93-98 | worker steps on different rows commute, so the thread interleaving cannot change the result |
| Kernel.PartialIsApplyRow | Server/Server.cpp:84-90 | the sequential kernel is the worker step applied to rows 0, 1, ... in turn |
| Kernel.MultiplyRow | Server/Server.cpp:85-88 | the inner loop computes the wrapping `long long` product of the row |
| Kernel.Worker | Server/Server.cpp:83-91 | the worker over rows start..end-1 takes the matrix from "rows before start done" to "rows before end done" |
| Kernel.PlaceSecondaryDiagonal | Server/Server.cpp:80-99 | the in-place kernel leaves exactly AntiDiagonal of the original matrix, whatever the thread count |
| Server.SendAll | Server/Server.cpp:31-39 | send_all is true exactly when the connection can send or nothing was asked; then the first `total_bytes` bytes are sent, otherwise nothing is sent |
| Server.RecvAll | Server/Server.cpp:42-50 | recv_all is true exactly when `total_bytes` bytes are pending. It takes exactly that many, or every pending byte when it fails, into the front of the buffer |
| Server.SendMessage | Server/Server.cpp:53-60 | send_message puts Transmitted(frame) on the wire and is true exactly when the connection can send |
| Server.ReadPayload | Server/Server.cpp:69-70 | the payload read takes no more than is pending, keeps the buffer length, and takes everything when it fails |
| Server.RecvPayload | Server/Server.cpp:69-70 | the payload half of recv_message does what ReadPayload says to the stream and the buffer |
| Server.ReadMessage | Server/Server.cpp:63-71 | recv_message takes at least the 8 header bytes when it succeeds and the whole stream when it fails |
| Server.RecvHeader | Server/Server.cpp:64-68 | the header read succeeds exactly when 8 bytes are pending; it yields the big-endian type and length and takes 8 bytes |
| Server.RecvMessage | Server/Server.cpp:63-71 | recv_message's result and stream advance are those of ReadMessage |
| Server.ReadTransmitted | Server/Server.cpp:53-71 | recv_message reads back what send_message sent, whatever follows, and takes exactly those bytes |
| Server.ReadMessageIsDecode | Server/Server.cpp:63-71 | with a length field below 2^31, recv_message succeeds exactly when the decoder does, and returns the decoded frame |
| Server.DataMatrix | Server/Server.cpp:135-139 | the DATA matrix has exactly `count` entries, one per 4-byte field |
| Server.Swap64StoresBigEndian | Server/Server.cpp:74-78 | swap_64 of the time bits, copied to memory, is their big-endian encoding |
| Server.ResultPayload | Server/Server.cpp:166-176 | the RESULT payload is 16 bytes long |
| Server.ResultPayloadIsBigEndian | Server/Server.cpp:166-176 | the RESULT payload is big-endian N, thread count and time bits, in 16 bytes |
| Server.StepEffects | Server/Server.cpp:122-188 | whatever the request type: the reply has the request's type except ERROR for an early RESULT or an unknown type; only CONFIG, DATA and COMPUTE change the state; has_data is set by DATA and computed by COMPUTE with data, neither is cleared; N and thread_count change only on CONFIG, the time bits only on COMPUTE |
| Server.ConfigSetsParameters | Server/Server.cpp:123-132 | CONFIG sets N and thread_count from the two big-endian fields, keeps everything else, and acknowledges with an empty frame |
| Server.DataLoadsMatrix | Server/Server.cpp:133-144 | DATA replaces the matrix with the N*N big-endian fields, row-major, sets has_data and acknowledges |
| Server.ComputeRunsKernel | Server/Server.cpp:145-156 | COMPUTE with data runs the kernel, records the time and sets computed; without data it changes nothing; it acknowledges either way |
| Server.StatusReply | Server/Server.cpp:157-162 | the STATUS reply is one byte: 2 exactly when computed, 1 exactly when data arrived but nothing was computed, 0 otherwise |
| Server.ResultReply | Server/Server.cpp:163-184 | RESULT after a computation carries the big-endian figures; before one it is an empty ERROR frame; the state is unchanged |
| Server.UnknownTagIsError | Server/Server.cpp:185-187 | any other type gets an empty ERROR frame and leaves the state unchanged |
| Server.StepKeepsFlags | Server/Server.cpp:112-189 | has_data and computed never go back to false, and computed implies has_data |
| Server.ConversationStarts | Server/Server.cpp:121-189 | a stream shorter than a header ends the session with nothing sent; a session that sends anything has read a whole first request and starts with a whole reply header |
| Server.ConversationStep | Server/Server.cpp:121-189 | a session handles the frame at the front of the stream, sends its reply and continues in the new state on the rest |
| Server.ReplayIsConversation | Server/Server.cpp:121-189 | the loop's accumulator view appends the session's replies to the connection's log, or nothing on a broken connection |
| Server.ReplayStep | Server/Server.cpp:121-189 | the accumulator view takes one request at a time |
| Server.LoadMatrix | Server/Server.cpp:135-139 | the DATA loop fills entry i with field i of the payload, read big-endian and converted to `int` |
| Server.Session.constructor | Server/Server.cpp:112-119 | a new session has N = 0, thread_count = 1, an empty matrix and both flags false |
| Server.Session.Handle | Server/Server.cpp:122-188 | one pass of the switch leaves the state and gives back the reply that Step prescribes |
| Server.Respond | Server/Server.cpp:121-188 | one loop pass updates the session as Step says and sends Step's reply |
| Server.HandleClient | Server/Server.cpp:109-193 | handle_client reads the stream to its end and sends exactly the session's replies, or nothing on a broken connection |
| Client.Swap64ReadsBigEndian | Client.cpp:25-29 | the client's swap_64 of 8 loaded bytes is their big-endian 64-bit value |
| Client.SendAll | Client.cpp:32-40 | send_all returns `total_bytes` after sending them, SOCKET_ERROR on a broken connection, and 0 when nothing was asked |
| Client.RecvAll | Client.cpp:43-51 | recv_all returns `total_bytes` exactly when that many are pending, otherwise 0; it takes what it returns, or every pending byte when it fails, into the front of the buffer |
| Client.SendTlv | Client.cpp:54-63 | send_tlv puts Transmitted(frame) on the wire; it is true exactly when the connection can send and the `(int)` size is not negative |
| Client.ReadPayload | Client.cpp:72-77 | the payload read succeeds exactly when the length is below 2^31 and that many bytes are pending |
| Client.RecvPayload | Client.cpp:72-77 | the payload half of recv_tlv does what ReadPayload says to the stream and the buffer |
| Client.ReadTlvIsDecode | Client.cpp:66-78 | recv_tlv succeeds exactly when the decoder finds a whole frame with length below 2^31, and then returns that frame |
| Client.ReadTlvFields | Client.cpp:66-78 | with fewer than 8 bytes recv_tlv keeps the type and buffer; otherwise it sets the type and resizes the buffer to the length, whether or not the payload arrives; it succeeds exactly when the length is below 2^31 and the payload is all pending, and then holds it |
| Client.RecvHeader | Client.cpp:67-71 | the header read succeeds exactly when 8 bytes are pending; it yields the big-endian type and length and takes 8 bytes |
| Client.RecvTlv | Client.cpp:66-78 | recv_tlv's result and stream advance are those of ReadTlv |
| Client.ConfigPayloadIsBigEndian | Client.cpp:120-123 | the CONFIG payload is 8 bytes: big-endian matrix_size, then big-endian thread_count |
| Client.ConfigPayload | Client.cpp:120-123 | the CONFIG payload is 8 bytes long |
| Client.DataPayload | Client.cpp:134 | the DATA payload has 4 bytes per matrix entry |
| Client.DataPayloadFields | Client.cpp:134-138 | bytes 4k..4k+3 of the DATA payload are the big-endian encoding of entry k |
| Client.StoreWord | Client.cpp:137 | the `pdata[i]` store writes 4 bytes at offset 4i and leaves the others |
| Client.SerializeData | Client.cpp:134-138 | the serialisation loop builds exactly the DATA payload of the matrix |
| Client.Polling | Client.cpp:146-154 | the poll loop sends at least one STATUS request when it ends on the exit test, and uses every round when it does not |
| Client.ResumesStep | Client.cpp:146-154 | one more round either ends the loop as Polling predicts or keeps the loop invariant one round later |
| Client.PollRound | Client.cpp:147-151 | one round sends a STATUS request, reads one reply into a fresh buffer and applies the exit test to it |
| Client.PollStep | Client.cpp:146-154 | one round, as the loop sees it, ends as Polling predicts or keeps the invariant, with one more STATUS request sent |
| Client.ResumesExhausted | Client.cpp:146-154 | a loop whose rounds all failed the exit test ends as Polling predicts |
| Client.Poll | Client.cpp:146-154 | the poll loop stops as Polling predicts, having sent one STATUS request per round |
| PollLoop.RoundsTakeTheirReplies | Client.cpp:146-154 | a poll loop over any exit test and reader takes exactly the replies of the rounds it ran |
| PollLoop.RoundsEndOnPass | Client.cpp:146-154 | a poll loop that finishes does so on a round whose reply passes the exit test |
| PollLoop.RoundsFailBefore | Client.cpp:146-154 | every round before the last one failed the exit test, and so did the last one when the loop did not finish |
| Client.PollingEndsOnPass | Client.cpp:146-154 | when the client's poll loop finishes, the reply read after the earlier rounds' replies is a STATUS reply whose first byte is 2 |
| Client.PollingFailsBefore | Client.cpp:146-154 | every earlier round of the client's poll loop read a reply that fails the exit test, and so did every round of a loop that did not finish |
| Client.PollingTakesItsRounds | Client.cpp:146-154 | the client's poll loop takes exactly one reply per round |
| Client.PollingStopsAtFirstPass | Client.cpp:146-154 | the poll loop stops at the first round whose reply passes the exit test and takes exactly the replies of the rounds before it and that one |
| Client.PollingDoneIfPass | Client.cpp:146-154 | the poll loop finishes exactly when some round within the rounds allowed would see the exit test pass |
| Client.AcceptResult | Client.cpp:160-176 | a reply is unpacked exactly when recv_tlv succeeded, the type is RESULT and there are at least 16 payload bytes; N, the threads and the time bits are the big-endian words at offsets 0, 4 and 8 |
| Client.FetchResult | Client.cpp:157-162 | the RESULT step sends a RESULT request and accepts the reply as AcceptResult says |
| Client.DoAck | Client.cpp:109-114 | do_ack sends its request and takes exactly one reply off the stream, whatever it says |
| Client.Finish | Client.cpp:146-162 | after the acknowledgements, main finishes only when a poll round sees the exit test pass; otherwise no result, with every round used |
| Client.FinishAfterPass | Client.cpp:146-162 | main finishes exactly when some poll round within the rounds allowed sees the exit test pass, stops at the first such round, and judges the next reply by AcceptResult |
| Client.ClientSession | Client.cpp:124-162 | main's reading of the whole stream takes no more than the stream and ends with a result only after a successful poll |
| Client.SendRequests | Client.cpp:116-142 | steps 1 to 3 of main send CONFIG, DATA and COMPUTE and take one acknowledgement each |
| Client.PollAndFetch | Client.cpp:144-162 | the poll loop and the RESULT step read what Finish says and send the STATUS requests and the RESULT request |
| Client.RunClient | Client.cpp:116-185 | main from CONFIG on reads what ClientSession says and sends what ClientRequests says |
| Interop.Swap64Inverse | Client.cpp:25-29 | the client's swap_64 inverts the server's for every 64-bit value |
| Interop.ClientReadsReply | Client.cpp:66-78 | recv_tlv reads back what send_message sent and takes exactly its bytes |
| Interop.ClientAcks | Client.cpp:109-114 | do_ack takes exactly one whole server reply off the stream |
| Interop.ConfigAgreement | Server/Server.cpp:123-132 | the client's CONFIG payload sets exactly the client's matrix size and thread count in the server |
| Interop.DataAgreement | Server/Server.cpp:133-144 | when N*N is the number of entries sent, the client's DATA payload loads exactly the client's matrix |
| Interop.StatusAgreement | Client.cpp:151 | the client's exit test passes on the server's STATUS reply exactly when the server has computed |
| Interop.ResultAgreement | Client.cpp:160-176 | the client unpacks the server's RESULT reply into the server's N, thread count and time bits, and unpacks nothing before a computation |
| Interop.UnpackResult | Client.cpp:165-176 | unpacking inverts the server's packing of the RESULT payload |
| Interop.ServerTakes | Server/Server.cpp:121-189 | handle_client takes one whole client request off the stream, handles it and replies before going on |
| Interop.ServerFinishes | Server/Server.cpp:145-184 | once data is loaded, COMPUTE, STATUS and RESULT are answered with the acknowledgement, the byte 2 and the RESULT payload of the state with the kernel applied and the time recorded |
| Interop.ServerRun | Server/Server.cpp:109-193 | on the requests of a run of main, handle_client is defined throughout and sends the three acknowledgements, STATUS 2 and the RESULT of the computed state |
| Interop.ClientFinishes | Client.cpp:146-182 | on STATUS 2 and the RESULT reply, main ends after one poll with the server's figures |
| Interop.ClientRun | Client.cpp:124-182 | on the server's replies, main acknowledges three times, polls once and ends with the server's figures, taking every byte |
| Interop.EndToEnd | Client.cpp:116-182 | a fresh server session fed a run of main replies so that main ends with the N, thread count and time bits it sent, measured on COMPUTE |

## Left out

- Winsock startup and teardown, socket creation, bind/listen/accept, connect and closesocket are OS plumbing. `Socket.Connection` stands for the connected socket.
- Threads: the kernel's worker threads run one after another over the same blocks. Kernel.WorkersTouchDisjointCells and Kernel.ApplyRowsCommute show why the order cannot matter. The detached thread per client is not modelled; each session is independent.
- The clock and the `double` time: the bits stored for COMPUTE are a parameter (`clock(k)` for the k-th request). The client's memcpy into a `double` keeps those bits, which the model never interprets as IEEE-754.
- The mt19937 matrix generator: the client's matrix is a parameter, and the range 1..10 of its values is not used.
- sleep_for in the poll loop has no effect on the model. Console output is left out.
- Server.HandleClient: requires a session without undefined behaviour. The C++ code has none for reads past a short CONFIG or DATA payload, an `int` overflow of N*N, or a matrix shorter than N*N at COMPUTE. `Server.Defined` names these cases, and `Server.Conversation` stops with `defined == false` at the first one.
- The `long long` product is undefined in C++ when it overflows. The model takes it modulo 2^64 (`Host.Wrap64`), then truncates to `int`.
- Client.Poll: the C++ loop is `while (true)`. The model allows at most `attempts` rounds and reports `finished == false` when none passes the exit test. Client.RunClient and Client.ClientSession take the same bound.
- Client.RunClient: takes the matrix size and thread count as parameters (main uses 10000 and 128). It does not require the matrix to have size² entries, as main's vector does; Interop.EndToEnd assumes it.
- The C++ type variable of the poll and RESULT steps is uninitialised, and the exit test `st_type == TLV_STATUS` reads it whenever recv_tlv fails before the header. The model gives it the value `Client.UNSET`. The value cannot change the outcome: whenever recv_tlv leaves the variable unset it also leaves the fresh payload empty, so the exit test fails and the RESULT check fails whatever the variable holds.
- Host.Resize: `resize(len)` for a length up to 2^32-1 can throw `std::bad_alloc` or `std::length_error`, which nothing catches, so the process ends. The model always allocates. So `recv_message` with a length of 2^31 or more "reads no payload and succeeds" only when that allocation succeeds (Server.ReadMessage, Server.RecvMessage, Client.ReadTlv, Client.RecvTlv).
- Socket.Connection.Send: the connection's `writable` flag is fixed for the connection's lifetime. A send accepts some bytes or fails with SOCKET_ERROR, but a connection cannot break after it has accepted part of a buffer. Concurrent peer behaviour and timeouts are not modelled.
- Socket.Connection.Recv: recv delivers 1 to `want` pending bytes, or 0 once the peer's stream is exhausted; it never returns SOCKET_ERROR (-1) in the middle of the stream. For both programs a -1 from recv and a 0 lead to the same failed recv_all and recv_message/recv_tlv, but the bytes left unread after an error are not modelled.
- Server.SendAll: "nothing is sent on failure" holds only because of the fixed `writable` flag above; the source can fail after part of the buffer went out.
- Server.RecvAll: "takes every pending byte when it fails" holds only because recv never fails mid-stream in the model; after a real recv error the remaining bytes stay unread.
- Client.SendAll: SOCKET_ERROR comes only with nothing sent, for the same reason as Server.SendAll.
- Client.RecvAll: the SOCKET_ERROR return of recv_all cannot occur in the model; it returns 0 on every failure, which its callers treat the same way.
- Server.SendMessage, Client.SendTlv, Server.HandleClient, Client.RunClient and the Interop lemmas about a whole run rest on the two socket restrictions above: a frame goes out whole or not at all, and handle_client ends with the stream read to its end (`cursor == |inbound|`).
- `recv_message` and `recv_tlv` resize the caller's payload vector in place. The model reads into a new array initialised from `Host.Resize` of the old payload and hands its contents back. The sharing of one buffer is not modelled.
- Kernel.PlaceSecondaryDiagonal: skips the worker call when N <= 0. There the C++ worker gets the rows 0..N-1, which are none, so nothing changes either way.
