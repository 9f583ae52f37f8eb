# zest, modelled and proved in Dafny

zest is a small C++ RPC framework: an asynchronous logger, a framed RPC protocol over TCP with a
resumable decoder, a reactor event loop with timers, and a round-robin thread pool. This project
models the behaviour of its state machines and proves what they keep, over every run and every input.

`dafny verify dfyconfig.toml` checks the whole project.

## What is modelled

**The logger ring** (`LogRing`, `LogProtocol`, `LogTheorems`, `AsyncLogging`). Frontends append lines
under a mutex to a cyclic list of buffers; one backend thread takes a snapshot, flushes up to it
outside the lock, hands over, flushes one more buffer, releases or erases it. `LogRing` gives every
lock section and every single-buffer flush as a function on the ring; `LogProtocol` is the transition
system in which any number of frontends and the backend interleave, with the inductive invariant;
`LogTheorems` has what follows over whole runs. `AsyncLogging` holds the classes (`FixedBuffer` over an
array, `AsyncLogging` over a list of heap buffers); each method is proved to change the abstract ring
exactly as the function of the same name says, so the protocol theorems are about those methods;
`BackendPass` composes them into one undisturbed turn of the backend's loop.
The buffer size and the line limit are arbitrary numbers.

**The RPC stack** (`Words`, `TcpBuffer`, `RpcFrame`, `RpcCodec`, `RpcStream`, `RpcServer`,
`RpcProtocol`, `RpcService`, `TcpConnection`, `MsgId`). `RpcFrame` defines the frame, its encoding and
the decoder's fifteen states on values, with the `size_t`/`int32_t` wrap-around of the length
accounting; `RpcCodec` proves encoder and decoder inverse; `RpcStream` proves that every cutting of a
byte stream decodes alike; `RpcServer` carries that through to the replies and back to the client.
`RpcProtocol`, `RpcService` and `TcpConnection` hold the classes that change in place; their
methods are proved against the value-level definitions.

**The timer queue** (`Timer`, `TimerRecursion`). `AddTimerEvent`, `ResetTimerFd` and `HandleTimerEvent` call one another
over heap timers whose trigger times change. A ghost book records every arming, firing and discarded
arming; the class invariant says that the book balances at every moment, also in nested calls. The
lexicographic measure that makes the recursion end is the `decreases` clause of the three methods.
`TimerRecursion` models the same calls as a machine with an explicit stack, for the exact condition under
which the recursion ends.

**Smaller parts**: the event loop's task queue (`EventLoop`), round-robin thread choice (`ThreadPool`),
message ids (`MsgId`), integer formatting (`Logging`). `Modular` and `Options` are shared helpers.

## What the proofs found

- A zero-length field is filled with the rest of the receive buffer, because `substr(0, 0)` means "to
  the end": `RpcCodec.DecodesTo` is the frame a consistent one turns into. A request whose serialised
  argument is empty therefore reaches its method with the check sum, the end flag and all later bytes as
  data (`RpcCodec.EmptyDataIsFilled`, `RpcCodec.DataIndependentIff`). How a stream is cut into reads shows
  in the replies exactly for requests that are not `Steady`: without a method name, or with a dot in
  the name and no message id or no data (`RpcServer.CuttingIndependentIff`).
- The final flush of the logger writes nothing when the ring is exactly full:
  `LogTheorems.ShutdownMayLoseText` is a run in which every line is accepted and none reaches the file;
  `LogTheorems.ShutdownOfRun` is the exact condition.
- A service whose own name contains a dot, as every service of a proto package has after
  `full_name()`, can be registered but no method name leads to it, because names are split at their
  first dot: `RpcServices.DottedServiceUnreachable`.
- A request that fails (no dot, unknown service or method, undecodable argument) gets no reply; its
  error only ends up in a response record that is then cleared.
- When the socket takes fewer bytes than are queued, the rest stays, and yet the connection registers for
  reading only: `TcpConnections.PartialWriteStrands` says exactly when, and that nothing but a reading
  event can come next.
- A first timer that is already due when the fd is set is handled at once, by recursion. The call returns
  for every clock bounded by a horizon if and only if no queued timer is valid, periodic, without a
  positive interval and due by the horizon: `TimerRecursion.ReturnsIff`. Once such a timer is due, the
  recursion never ends, however the clock goes on: `TimerRecursion.NeverReturns`. The methods in
  `Timers` rest on the same condition, `Harmless`.

## Reading the model

- An iterator into the buffer list is the buffer it points to. `IsRun` is a sequence of states and
  events; it ends at the latest with the first dropped line.
- A line longer than a whole buffer counts as accepted empty (`LogProtocol.Accepted`), because
  `FixedBuffer::append` ignores it; the source's lines are at most 4000 bytes, its buffers 4000000.
- `Clean` blanks the zero-length fields of a frame. Two decoders are `Alike` when state, running count,
  unread bytes and stored fields agree, zero-length fields apart.
- `Consistent` says that a frame's declared lengths are its actual ones. All of them fit `int32_t`, so
  its size is below 2^31.
- A string is shorter than half the address space, as every `std::string` is; `RpcDecoder.Valid` says so
  and the unsigned comparisons of the decoder rest on it (`Words.UnsignedCompare`).
- A service is a table of methods; a method says whether it can parse its argument, and gives the
  serialised response or None when serialising fails. `done->Run()` is called once, synchronously.
- A registration is for one event (`EPOLLONESHOT`): `TcpConnections.Possible` lets a reading or writing event
  come only when the connection registered for it, and none after a FIN closed it. `Chunks` is what the
  reading events that executed have read.
- Results of `recv` and `send` are lists given to the methods; past the end of a list the socket would block.
- A timer is `Harmless` for a horizon unless it is valid, periodic, without a positive interval and due by
  then.
- Marks say which timers are valid and which periodic; a timer call changes neither, so every entry it
  adds to the book, nested runs included, is judged by them (`Rightly`).
- A book is `Balanced` when armings made from outside plus re-armings equal pending plus fired plus
  discarded plus in-flight armings, as multisets.

## Model

| member | source | states |
|---|---|---|
| LogTheorems.Conservation | zest/common/async_logging.cc:99-181 | in every interleaving without a drop, the frontends' input equals the file followed by the ring's text from the backend's progress iterator to the current buffer, and every buffer off that path is empty |
| LogTheorems.RunKeepsInv | zest/common/async_logging.cc:99-206 | the protocol invariant holds in every state of every run up to a drop or the stop |
| LogTheorems.NothingDangles | zest/common/async_logging.cc:108-180 | in every such state every further step only uses iterators that are still in the list |
| LogTheorems.InvConserves | zest/common/async_logging.cc:99-181 | the same conservation for a single state that satisfies the invariant |
| LogTheorems.Ownership | zest/common/async_logging.cc:106-181 | the buffer the backend flushes, hands over or erases is never the one frontends append to; between hand-over and release the current iterator differs from m_next_to_flush |
| LogTheorems.GrowthOffThePath | zest/common/async_logging.cc:106-154 | from the snapshot to the hand-over, a buffer a frontend inserts never lies on the path from m_next_to_flush to the snapshot, nor on what the flush loop still has to walk of it |
| LogTheorems.DropNeedsBacklog | zest/common/async_logging.cc:102-120 | the first drop needs a ring at its limit and more than (n-1)*(cap-maxLine) bytes not yet released |
| LogTheorems.RingSize | zest/common/async_logging.cc:57-75 | the list always has m_buffers_n elements, from 4 up to max(4, limit), at most 25 |
| LogTheorems.BoundedDelay | zest/common/async_logging.cc:132-183 | what was appended before a pass took its snapshot is a prefix of the file when that pass reaches fflush |
| LogTheorems.SeenIsSnapshot | zest/common/async_logging.cc:133-139 | the snapshot's view does not change during a pass, whatever is appended |
| LogTheorems.ShutdownCompletes | zest/common/async_logging.cc:197-206 | the final flush makes the file equal to everything accepted if and only if the ring is not exactly full |
| LogTheorems.ShutdownOfRun | zest/common/async_logging.cc:130-206 | over a whole run, the file left behind is the input if and only if the ring was not exactly full at the end |
| LogTheorems.ShutdownMayLoseText | zest/common/async_logging.cc:197-206 | a concrete run that accepts four lines, stops in good order and leaves an empty file |
| LogProtocol.AppendInv | zest/common/async_logging.cc:99-125 | a frontend call that does not drop keeps the invariant, in any state of the backend |
| LogProtocol.BackendInv | zest/common/async_logging.cc:130-195 | every backend step keeps the invariant |
| LogProtocol.InitialInv | zest/common/async_logging.cc:68-74 | the initial ring satisfies the invariant |
| LogProtocol.GrowInv | zest/common/async_logging.cc:112-117 | growing the ring keeps the invariant: the new buffer is last on the round trip from m_next_to_flush |
| LogProtocol.HandOverInv | zest/common/async_logging.cc:156-166 | the hand-over keeps the invariant, whether or not the frontends have left the snapshot |
| LogProtocol.ReleaseInv | zest/common/async_logging.cc:171-181 | release and erasure keep the invariant |
| LogRing.RotInsert | zest/common/async_logging.cc:115 | inserting before m_next_to_flush puts the new node at the far end of the round trip |
| LogRing.RotErase | zest/common/async_logging.cc:174-180 | erasing m_next_to_flush drops the first node of the round trip |
| LogRing.PassWritesAll | zest/common/async_logging.cc:130-181 | a backend pass that nobody disturbs writes all that is in memory, in order, empties what it wrote and moves the frontends to the next buffer |
| LogRing.AppendExact | zest/common/async_logging.cc:99-125 | in positions and numbers: a line that fits is written to the current buffer; otherwise the next buffer becomes current, a new one is added before m_next_to_flush exactly if that comes next and the limit is not reached, and at the limit the line is dropped |
| LogRing.PassReleases | zest/common/async_logging.cc:146-181 | an undisturbed pass gives the buffer it flushed last back if and only if there were more than four and more than two not waiting to be flushed; m_next_to_flush moves to the buffer behind it |
| LogRing.ReleaseExact | zest/common/async_logging.cc:171-181 | the buffer at m_next_to_flush leaves the list if and only if reducing was decided and there are more than four |
| LogTheorems.ReleaseOfRun | zest/common/async_logging.cc:146-181 | in every run, whatever frontends do between counting and release: the snapshot buffer is given back if and only if more than two were free when counted and more than four are there at the release |
| LogTheorems.BackendGoesOn | zest/common/async_logging.cc:183-195 | at fflush a running backend begins another pass and a stopped one leaves its loop, and neither happens in any other way |
| LogTheorems.PassOfSteps | zest/common/async_logging.cc:130-181 | the backend alone goes through a pass, step by step of the protocol, without stopping, and its effect on the ring is that pass |
| LogRing.FlushFirstMoves | zest/common/async_logging.cc:148-154 | the flush loop moves the text of the path to the file, empties what it passed and touches nothing else |
| AsyncLogger.FixedBuffer.Append | zest/common/async_logging.h:34-41 | a line that fits goes behind the contents and is counted; one that does not fit changes nothing |
| AsyncLogger.FixedBuffer.Reset | zest/common/async_logging.h:32 | the buffer is empty afterwards |
| AsyncLogger.AsyncLogging.constructor | zest/common/async_logging.cc:50-75 | four empty buffers, both iterators on the first, the limit at most 25 |
| AsyncLogger.AsyncLogging.CalcBufferDistance | zest/common/async_logging.cc:87-96 | the walk ends and counts the steps from one iterator to the other round the list |
| AsyncLogger.AsyncLogging.Append | zest/common/async_logging.cc:99-125 | the heap changes as the frontend step of the protocol says; a new buffer is freshly allocated |
| AsyncLogger.AsyncLogging.FlushOne | zest/common/async_logging.cc:149-153 | one buffer's text goes to the file, the buffer is emptied, the iterator moves round |
| AsyncLogger.AsyncLogging.FlushUpTo | zest/common/async_logging.cc:148-154 | the flush loop ends on the snapshot having flushed exactly the buffers before it |
| AsyncLogger.AsyncLogging.HandOverTo | zest/common/async_logging.cc:156-166 | the heap changes as the hand-over step says |
| AsyncLogger.AsyncLogging.ReleaseBuffer | zest/common/async_logging.cc:171-181 | the heap changes as the release step says; the buffer is gone and the count one less if and only if reducing was decided and there are more than four |
| AsyncLogger.AsyncLogging.BackendPass | zest/common/async_logging.cc:130-181 | one undisturbed turn of the backend's loop changes the heap as the whole pass says, and gives a buffer back exactly when more than four are there and more than two are free |
| AsyncLogger.AsyncLogging.EraseBuffer | zest/common/async_logging.cc:174-175 | the buffer leaves the list, the iterator stays valid on its successor |
| AsyncLogger.AsyncLogging.Finish | zest/common/async_logging.cc:197-206 | the final loop ends and changes the heap as the shutdown step says |
| Words.NetBytesRoundTrip | zest/common/util.cc:175-180 | reading the network bytes of an int32 gives it back, negative ones included |
| Words.FromNetBytesRoundTrip | zest/common/util.cc:175-180 | writing the int32 read from four bytes gives those bytes back |
| Words.BigEndian | zest/net/rpc/rpc_protocol.cc:188-191 | the four bytes written are the integer modulo 2^32, most significant byte first |
| Words.ReadsBigEndian | zest/common/util.cc:175-180 | the int32 read from four bytes is their big-endian value modulo 2^32 |
| Words.UnsignedCompare | zest/net/rpc/rpc_protocol.cc:71-72 | size() < len is false exactly for a non-negative, available length; a negative one makes the decoder wait |
| TcpBuffers.RunRefinesQueue | zest/net/tcp/tcp_buffer.h:18-109 | over any sequence of operations the buffer is a byte queue, and 3*start never exceeds the string |
| TcpBuffers.CompactionIsAmortised | zest/net/tcp/tcp_buffer.h:91-109 | in any run without += of a string and c_str all compactions together move at most twice the bytes consumed |
| TcpBuffers.PaysIff | zest/net/tcp/tcp_buffer.h:18-109 | an operation moves, on every buffer, no more than it consumes twice and gives up in potential if and only if it is not += of a string or c_str |
| TcpBuffers.MovedBytes | zest/net/tcp/tcp_buffer.h:18-109 | what an operation is charged for moving are the bytes neither consumed nor new, and they begin at the start index afterwards |
| TcpBuffers.ShrinkingMovesMore | zest/net/tcp/tcp_buffer.h:20-81 | one use of either of those two breaks the bound: one byte consumed, n-1 moved |
| TcpBuffers.TcpBuffer.Append | zest/net/tcp/tcp_buffer.h:61-65 | bytes go to the end of the queue |
| TcpBuffers.TcpBuffer.AddString | zest/net/tcp/tcp_buffer.h:20-25 | bytes go to the end of the queue, after compacting |
| TcpBuffers.TcpBuffer.AddChar | zest/net/tcp/tcp_buffer.h:48-52 | one byte goes to the end of the queue, without compacting |
| TcpBuffers.TcpBuffer.Substr | zest/net/tcp/tcp_buffer.h:83-89 | the named range of the queue, clamped at the end; a zero length means the whole rest |
| TcpBuffers.TcpBuffer.MoveForward | zest/net/tcp/tcp_buffer.h:91-99 | bytes leave the front of the queue; compaction when the dead part exceeds a third |
| TcpBuffers.TcpBuffer.CStr | zest/net/tcp/tcp_buffer.h:77-81 | returns exactly the queue and does not change it |
| TcpBuffers.TcpBuffer.Size | zest/net/tcp/tcp_buffer.h:67 | the length of the queue |
| TcpBuffers.TcpBuffer.Empty | zest/net/tcp/tcp_buffer.h:75 | true exactly for the empty queue |
| TcpBuffers.TcpBuffer.At | zest/net/tcp/tcp_buffer.h:18 | the byte at an index of the queue |
| TcpBuffers.Swap | zest/net/tcp/tcp_buffer.h:117-122 | the two buffers exchange their contents |
| RpcCodec.ParseThenPrint | zest/net/rpc/rpc_protocol.cc:42-162 | whenever decoding any bytes succeeds, the consumed bytes are the encoding of the frame with blank zero-length fields; they number 26 plus the declared lengths, congruent to m_pk_len modulo 2^32 and equal to it below 2^31 |
| RpcCodec.PrintsBackIff | zest/net/rpc/rpc_protocol.cc:35-243 | whatever the bytes, once decoding succeeds the encoder reproduces the consumed bytes if and only if none of the four declared string lengths is zero |
| RpcCodec.PrintThenParse | zest/net/rpc/rpc_protocol.cc:35-243 | every consistent frame followed by anything decodes, is consumed to the byte and returns all integers and non-empty fields; it comes back unchanged if and only if no string field is empty |
| RpcCodec.RunKeepsConsumed | zest/net/rpc/rpc_protocol.cc:54-136 | in every state the bytes consumed are the pieces stored, and the running count is m_pk_len less their number modulo 2^32 |
| RpcCodec.RemainingIsDeclared | zest/net/rpc/rpc_protocol.cc:121-127 | the wrapped count gives exactly the data length the sender declared |
| RpcCodec.SuccessConsumes | zest/net/rpc/rpc_protocol.cc:42-162 | every success from a fresh start consumes at least 26 bytes |
| RpcCodec.DecodesTo | zest/net/rpc/rpc_protocol.cc:35-243 | the frame any consistent frame decodes to, whatever is behind it: unchanged, but each empty string is filled with everything that was behind it |
| RpcCodec.EmptyDataIsFilled | zest/net/rpc/rpc_protocol.cc:121-127 | a frame with empty data is delivered with check sum, end flag and all later bytes as its data |
| RpcCodec.DataIndependentIff | zest/net/tcp/tcp_buffer.h:83-89 | the delivered data is independent of the bytes behind the frame if and only if the data was not empty |
| RpcCodec.RunKeepsFills | zest/net/tcp/tcp_buffer.h:83-89 | in every state a stored zero-length field is at least as long as the unread input, and longer once the end flag is read |
| RpcFrames.WireForm | zest/net/rpc/rpc_protocol.cc:179-243 | the bytes of a frame, in order: flag 2, integers in network order and strings, flag 3; bytes 1 to 4 are the big-endian packet length |
| RpcCodec.FailureKeepsByte | zest/net/rpc/rpc_protocol.cc:54-142 | a failure leaves the byte that is not the flag due, and all behind it, unread |
| RpcCodec.FailsAgainIff | zest/net/rpc/rpc_protocol.cc:38-58 | decoding again fails again on the same bytes if and only if that byte is not the start flag |
| RpcFrames.EncodeLength | zest/net/rpc/rpc_protocol.cc:179-243 | a frame is 26 bytes longer than its four strings |
| RpcStream.ChunksAsWhole | zest/net/rpc/rpc_protocol.cc:35-165 | from any intermediate state, decoding after each chunk ends like decoding all at once: state, count, unread bytes and every field of non-zero length |
| RpcStream.RunFeeds | zest/net/rpc/rpc_protocol.cc:42-164 | decoding, waiting for more bytes and decoding again is decoding all the bytes |
| RpcStream.WaitingLosesNothing | zest/net/rpc/rpc_protocol.cc:42-164 | after any number of reads that left the frame unfinished, the bytes that came are those stored in the frame, in order, and then the unread ones: none lost or read twice |
| RpcStream.EveryCuttingAlike | zest/net/tcp/tcp_connection.cc:208-224 | however a stream is cut into reads, the frames of the whole come first and in order, and when the whole does not fail nothing else comes |
| RpcStream.DrainFeeds | zest/net/tcp/tcp_connection.cc:213-218 | draining, receiving more and draining again is draining everything, unless the first part failed |
| RpcServer.CuttingIndependentIff | zest/net/tcp/tcp_connection.cc:208-233 | all cuttings of a request with a partial frame behind it give the same replies, whatever is registered, if and only if the request is steady |
| RpcServer.EveryCuttingSameReplies | zest/net/tcp/tcp_connection.cc:208-233 | for steady requests and a partial frame behind them, every cutting gives the same out-buffer bytes: the replies to exactly those requests, in order |
| RpcServer.DrainFrames | zest/net/tcp/tcp_connection.cc:213-218 | a stream of frames and a partial one is decoded into exactly those frames and then waits |
| RpcServer.PartialWaits | zest/net/rpc/rpc_protocol.cc:42-164 | the beginning of a frame neither fails nor succeeds |
| RpcServer.ReplyIsConsistent | zest/net/rpc/rpc_service.cc:88-112 | a reply echoes message id and method name and, below 2^31 bytes, has consistent lengths |
| RpcServer.AnyCuttingArrives | zest/net/tcp/tcp_connection.cc:235-259 | a frame that reaches the client in any pieces is decoded by the last of them and by none before |
| RpcServer.RemoteCall | zest/net/tcp/tcp_connection.cc:87-259 | end to end, however request and reply are cut, the client ends with one reply with its own id; its code is 0, with no error text and the response as data, exactly if the response serialised, and otherwise 3, with the error text and no data |
| RpcServer.ErrorCodes | zest/net/rpc/rpc_protocol.h:22-26 | the error codes are 0 to 4 |
| RpcServer.RepliesAre | zest/net/tcp/tcp_connection.cc:213-218 | the replies to a sequence of requests are the replies to each, in order |
| RpcServer.RemoteCallUncut | zest/net/tcp/tcp_connection.cc:87-259 | in particular a call succeeds when request and reply arrive whole |
| RpcServer.FirstDot | zest/net/rpc/rpc_service.cc:136-140 | the first dot of a name, or none |
| RpcProtocols.RpcProtocol.Clear | zest/net/rpc/rpc_protocol.cc:13-25 | every field is back to its initial value |
| RpcProtocols.RpcDecoder.Decode | zest/net/rpc/rpc_protocol.cc:35-165 | the object runs to the same state, count, fields and unread bytes as the value-level decoder and returns its one shared frame exactly on success |
| RpcProtocols.RpcDecoder.constructor | zest/net/rpc/rpc_protocol.cc:27-31 | the decoder starts fresh on the connection's own buffer |
| RpcProtocols.RpcEncoder | zest/net/rpc/rpc_protocol.cc:179-243 | exactly one frame goes behind whatever is unsent, field by field |
| RpcProtocols.FillCheckSum | zest/net/rpc/rpc_protocol.cc:246-250 | the check sum is zero |
| RpcServices.NamedOutcome | zest/net/rpc/rpc_service.cc:45-78 | for service.method: dispatched if and only if both exist and the argument parses; otherwise the code and text of the check that failed first, in numbers |
| RpcServices.UndottedOutcome | zest/net/rpc/rpc_service.cc:48-51 | a name without a dot is never dispatched and leaves error 1 |
| RpcServices.SplitAtFirstDot | zest/net/rpc/rpc_service.cc:134-145 | splitting service, dot and method at the first dot gives the two back if and only if the service has no dot |
| RpcServices.DottedServiceUnreachable | zest/net/rpc/rpc_service.cc:48-68 | registering a service under a name with a dot changes the outcome of no lookup |
| RpcServices.ParseMethodFullName | zest/net/rpc/rpc_service.cc:134-145 | succeeds exactly for names with a dot, and the parts and the dot make up the name |
| RpcServices.SetProtocolError | zest/net/rpc/rpc_service.cc:148-153 | code, text and length are set, nothing else changes |
| RpcServices.RpcService.RegisterService | zest/net/rpc/rpc_service.cc:121-131 | a name is taken once; a second registration changes nothing |
| RpcServices.RpcService.Resolve | zest/net/rpc/rpc_service.cc:45-78 | the method to call, exactly when it exists and accepts the argument, or else the error of the path taken: missing dot, service, method, undecodable argument |
| RpcServices.RpcService.Find | zest/net/rpc/rpc_service.cc:39-78 | the response record after the checks: id and method name echoed, and the error set exactly when there is no method to call |
| RpcServices.RpcService.Run | zest/net/rpc/rpc_service.cc:88-113 | the response record is completed, with code 0 and the data or code 3 and no data, and its encoding goes behind the out-buffer |
| RpcServices.RpcService.Process | zest/net/rpc/rpc_service.cc:37-118 | one reply frame for a dispatched request, with code 0 and the data or code 3 and no data, nothing for the error paths, and the exact response record of each |
| TcpConnections.TcpConnection.constructor | zest/net/tcp/tcp_connection.cc:43-55 | empty buffers, a fresh decoder on the in-buffer, a server registered for reading |
| TcpConnections.TcpConnection.ServerExecute | zest/net/tcp/tcp_connection.cc:208-233 | the loop ends; the replies to all whole requests are appended in order, the decoder is where draining leaves it, and the socket is registered for writing exactly when something is unsent |
| TcpConnections.TcpConnection.ClientExecute | zest/net/tcp/tcp_connection.cc:235-259 | one decode; the reply is kept on success, dropped on failure, and the loop is stopped exactly in those two cases |
| TcpConnections.TakesAll | zest/net/tcp/tcp_connection.cc:130-150 | a reading pass takes the concatenation of all blocks received |
| TcpConnections.InterruptedRead | zest/net/tcp/tcp_connection.cc:136-137 | an interrupted recv anywhere changes neither the bytes taken nor how the pass ends |
| TcpConnections.ReadStops | zest/net/tcp/tcp_connection.cc:130-150 | the first other result ends the pass, as that result, and what is behind it changes nothing |
| TcpConnections.AcceptsSum | zest/net/tcp/tcp_connection.cc:181-194 | a writing pass sends the sum of what its calls of send accept |
| TcpConnections.InterruptedWrite | zest/net/tcp/tcp_connection.cc:187-188 | an interrupted send neither ends the pass nor counts |
| TcpConnections.WriteStops | zest/net/tcp/tcp_connection.cc:184-193 | the first blocking or failing send ends the pass, and what is behind it changes nothing |
| TcpConnections.TcpConnection.Receive | zest/net/tcp/tcp_connection.cc:130-150 | every byte received reaches the in-buffer, in order, until the socket blocks, fails or closes |
| TcpConnections.TcpConnection.TcpRead | zest/net/tcp/tcp_connection.cc:121-175 | a readable event executes what it received, or executes nothing after an error or a FIN; the connection state, the registration and the stop that follow |
| TcpConnections.TcpConnection.TcpWrite | zest/net/tcp/tcp_connection.cc:177-206 | bytes sent followed by bytes left are the bytes that were queued; everything is sent if and only if the socket takes that many before it blocks or fails, otherwise exactly what it takes; it registers for reading in any case |
| TcpConnections.PartialWriteStrands | zest/net/tcp/tcp_connection.cc:177-206 | after a writing event bytes are left exactly when the socket takes fewer than were queued, and only a reading event can come next; with two bytes queued and one taken, the other is what is left |
| TcpConnections.NothingLost | zest/net/tcp/tcp_connection.cc:121-233 | over every possible sequence of reading and writing events, failures included, the bytes sent and the bytes still queued are what was queued before and the replies to all frames of the chunks executed, in order |
| TcpConnections.RequestsAnswered | zest/net/tcp/tcp_connection.cc:121-233 | through whatever events a stream of requests with a partial one behind it comes, the replies to exactly those requests, in order, have been sent or are queued |
| TcpConnections.TcpConnection.ServeEvents | zest/net/tcp/tcp_connection.cc:121-233 | the object goes through any possible sequence of events as the value-level run does, so that nothing is lost |
| TcpConnections.TcpConnection.Shutdown | zest/net/tcp/tcp_connection.cc:261-267 | half-closes unless closed or not connected |
| TcpConnections.TcpConnection.Prepare | zest/net/tcp/tcp_connection.cc:87-119 | one request frame with the next message id is queued and the socket registered for writing |
| MsgIds.Generator.GenerateMsgID | zest/net/tcp/tcp_connection.cc:14-35 | the k-th call returns k modulo 10^8 in eight padded digits |
| MsgIds.IdsDistinct | zest/net/tcp/tcp_connection.cc:18-35 | two ids are equal exactly when their calls are a multiple of 10^8 apart |
| MsgIds.CarryValue | zest/net/tcp/tcp_connection.cc:20-33 | zeroing the trailing nines and bumping the digit before them adds one |
| MsgIds.PaddedValue | zest/net/tcp/tcp_connection.cc:14 | a string of digits is the padded numeral of its value |
| Timers.TimerFdEvent.AddToQueue | zest/net/timer.cc:36-48 | the timer is queued for its trigger time and nothing else changes; the fd is to be set anew exactly if the timer is strictly the earliest |
| Timers.TimerFdEvent.AddTimerEvent | zest/net/timer.cc:30-52 | ends; the arming is booked, and in the runs it may cause only deleted timers are discarded, only valid ones fire, none before its time, and exactly the periodic ones are armed again, one interval after a time read since; if the timer is not strictly the earliest nothing happens but its arming; an armed fd stays armed no later than the first pending timer |
| Timers.TimerFdEvent.ResetTimerFd | zest/net/timer.cc:99-131 | ends with the fd set exactly to the first pending timer, which is still to come; the runs it may cause discard, fire and re-arm only rightly, as above |
| Timers.TimerFdEvent.HandleTimerEvent | zest/net/timer.cc:61-96 | the queue at entry is split into kept, fired and deleted timers; none fires early, periodic ones and only they are armed again, strictly later and for one interval after a time read between the firing and the end of the call; the runs nested in it discard only deleted timers and fire only valid ones, at their time; the batch's callbacks run in due order at the end, nothing due is left and the fd is armed |
| Timers.TimerFdEvent.TakeDue | zest/net/timer.cc:69-78 | exactly the due timers leave the queue, earliest first, whatever the order of ties; the deleted ones are discarded |
| Timers.TimerFdEvent.Rearm | zest/net/timer.cc:82-88 | each taken periodic timer is re-armed later than its firing, one interval after a time read since, and the room left to the horizon shrinks by one a timer |
| Timers.TimerFdEvent.RunCallbacks | zest/net/timer.cc:91-95 | the callbacks of the timers taken run in their order, the batch is logged and the book balances again |
| Timers.TimerFdEvent.TakeWhileDue | zest/net/timer.cc:72-78 | the loop takes earliest timers until nothing due is left |
| Timers.TimerFdEvent.DeleteTimerEvent | zest/net/timer.cc:54-58 | deletion only marks the timer |
| Timers.TimerEvent.ResetTime | zest/net/timer.h:32 | the trigger time is a time read now plus the interval |
| Timers.TimerEvent.constructor | zest/net/timer.cc:12-17 | a valid timer due one interval after a time read during the call |
| Timers.Use | zest/net/timer.cc:30-131 | after any sequence of adding, deleting and fd events from a fresh queue, the armings the calls asked for and the re-armings are exactly what is pending, what fired and what was discarded; a timer added for the first time is armed for the trigger time it had; only deleted timers were discarded, exactly the periodic ones re-armed, no firing was early, and the fd is armed for the first pending timer |
| Timers.EachArmingOnce | zest/net/timer.cc:61-96 | so an arming made once fires at most once, and none that is pending has fired |
| TimerRecursion.ReturnsIff | zest/net/timer.cc:61-131 | the call returns for every clock within the horizon if and only if no queued timer is valid, periodic, without a positive interval and due by the horizon |
| TimerRecursion.StepDescends | zest/net/timer.cc:61-131 | without such a timer every step lowers a lexicographic measure of room, work in hand and frames |
| TimerRecursion.AddingShape | zest/net/timer.cc:82-88 | a step of the machine's re-arming loop queues a periodic timer for one interval after the time read, and sets the fd anew unless something earlier or equal is queued |
| TimerRecursion.NeverReturns | zest/net/timer.cc:61-131 | once a valid periodic timer without a positive interval is due, the call is unfinished after every number of steps, for every queue and every nondecreasing clock |
| TimerRecursion.AddNeverReturns | zest/net/timer.cc:30-52 | adding such a timer to an empty queue is enough |
| TimerRecursion.DueStep | zest/net/timer.cc:61-131 | whatever the innermost call does, such a timer stays due with a call that will look at the queue, or is taken |
| TimerRecursion.CarriedStep | zest/net/timer.cc:82-88 | once taken it is queued again, and then due at once |
| Timers.PickedSplits | zest/net/timer.cc:72-78 | any order of ties splits the queue into kept, an ordered batch and discarded timers |
| Timers.CallKeepsBalance | zest/net/timer.cc:82-95 | logging a batch and settling its re-armings keeps the book balanced |
| Timers.SplitExact | zest/net/timer.cc:116-120 | seconds and nanoseconds represent the interval exactly, are normalised, and are zero only for a zero interval |
| Logging.FormatInteger | zest/common/logging.cc:28-48 | every signed or unsigned value of up to 64 bits is appended as its decimal numeral; nothing when fewer than 48 bytes are free |
| Logging.PrintBackwards | zest/common/logging.cc:33-45 | the local buffer of 48 never overflows and holds the numeral backwards |
| Logging.MirroredTable | zest/common/logging.cc:24-25 | the table index is in range and gives the digit for remainders of either sign |
| Logging.DecimalParses | zest/common/logging.cc:28-48 | reading a printed integer gives it back |
| Logging.NumeralIsCanonical | zest/common/logging.cc:36-41 | no leading zero, and a zero digit in front only for zero |
| Logging.CanonicalUnique | zest/common/logging.cc:36-41 | each number has one canonical numeral, the printed one |
| ThreadPools.ThreadPool.GetIOThread | zest/net/io_thread.cc:90-109 | ends with the first usable thread at or cyclically after the index and the index just past it; null exactly when none is usable |
| ThreadPools.ThreadPool.Search | zest/net/io_thread.cc:93-104 | the search stops at the first usable position or after one round |
| ThreadPools.RoundRobinIsFair | zest/net/io_thread.cc:90-109 | with v usable threads any k*v consecutive calls return each of them exactly k times |
| EventLoops.RunsInPushOrder | zest/net/eventloop.cc:91-163 | in every interleaving tasks pushed equal tasks run, then the local queue, then the shared one: each runs once, in push order, across both swaps |
| EventLoops.PassRunsAll | zest/net/eventloop.cc:92-133 | everything pushed before a swap has run when the drain behind it ends |
| EventLoops.LoopGoesOn | zest/net/eventloop.cc:91-136 | after a pass or a failed wait the thread begins another pass if the loop is running and goes to the exit drain if it was stopped, and it gets to neither in any other way |
| EventLoops.ExitEmptiesQueue | zest/net/eventloop.cc:136-143 | when nothing is pushed during the exit drain it ends with every pushed task run |
| EventLoops.EventLoop.AddTask | zest/net/eventloop.cc:153-163 | the push step |
| EventLoops.EventLoop.Swap | zest/net/eventloop.cc:92-94 | the swap step: local and shared queue change places |
| EventLoops.EventLoop.DrainStep | zest/net/eventloop.cc:97-101 | the front task of the local queue leaves it and runs |
| EventLoops.EventLoop.ExitDrain | zest/net/eventloop.cc:136-143 | everything shared runs, in order, and the queue is empty |

## Left out

- The logger after its drop branch: runs end there, and nothing is claimed of what follows.
- Appends after the backend has stopped.
- Log file names and rolling, and the count of records behind them, which is never reset; `file` is everything handed to fwrite.
- The C++ memory model: every lock section and every single-buffer flush is one atomic step, and the unlocked reads of list links, `m_buffers_n` and `m_running` happen in those steps.
- Condition variables and their timeout: the backend may take its snapshot at any time.
- LogTheorems.DropNeedsBacklog: assumes lines no longer than a buffer, as the source's constants make them.
- Resynchronisation after a malformed frame: when a stream fails, only the frames before the failure are claimed equal; the next read event retries at the offending byte (RpcCodec.FailureKeepsByte), of which only RpcCodec.FailsAgainIff is claimed.
- RpcServer.EveryCuttingSameReplies: requests that are not steady are excluded, because their replies depend on the cutting (RpcServer.CuttingIndependentIff).
- RpcServer.RemoteCall: says nothing of the data of an empty response, for the same reason.
- RpcServer.ReplyIsConsistent: a reply of 2^31 bytes or more has a wrapped packet length and is not claimed consistent.
- Check sum validation is always true in the source, so nothing is claimed about corrupted bytes.
- Signed overflow of `m_pk_len - 5` and of the packet length sums is undefined in C++; it is modelled as wrap-around.
- TcpBuffer operator+ copies, and arguments beyond the contents of a buffer, which the source does not check either.
- Overflow of `m_start_index * 3` in `size_t`.
- Protobuf, RpcController, RpcChannel and the thread a service may finish on: a service is a deterministic table of methods, and its reply closure runs once and synchronously.
- Sockets, epoll and eventfd: their outcomes are parameters; `send` takes at most what it is given.
- Bytes that come in the same reading pass as a FIN are kept but not executed, as in the source.
- timerfd_settime failure, and the difference between the clock that timers read and the one the fd uses: there is one millisecond clock.
- Timers.TimerFdEvent.AddTimerEvent: requires a timer that is not in the queue already, which the source does not check; the same timer twice in the queue is not modelled.
- The clock is bounded by some horizon during each timer call; nothing is claimed of a call during which it goes on without bound.
- Timers.TimerFdEvent.HandleTimerEvent: callbacks are entries in a log; a callback that adds or deletes timers is a separate call after it.
- Threads adding or deleting timers while another thread handles an event.
- Tasks and epoll registrations that the event loop defers to its own thread are tasks like any other; what they change in `m_listen_fds` is not modelled.
- Start-up of thread pool and servers, addresses, configuration, floating-point and string formatting.
