# A verified model of lepton

lepton is a low-latency C++20 network framework: a lock-free buffer pool, a WebSocket client, an
HTTP/1.1 client, an event loop and a few small algorithms they are made of. This project models
those parts in Dafny, in the form they have in the source - step systems for code that runs on
several threads, classes for objects whose methods update their fields, loops and arrays for loops
over buffers - and proves what they promise for every input, every schedule and every run.

`dafny verify dfyconfig.toml` checks everything.

## How it is organised

- **Buffer pool.** `BufferPool` is the versioned Treiber stack as an interleaving step system: each thread
  loads the head, reads `next_idx`, swaps (perhaps failing spuriously) and updates the counter, in separate
  steps; owners overwrite the cells of buffers they hold. `BufferPoolCalls` is about whole calls, `BufferPoolLimits`
  shows which limits are real.
- **SPSC ring.** `SpscRing`: wrapping 32-bit indices and cached far indices, two threads.
- **Masking and keys.** `Bits`, `Shifts`, `Endian`, `WsMask`, `Prng`.
- **WebSocket.** `WsFrame` is the header codec, `WsStreams` the meaning of whole byte streams in both
  directions, `WsDropping` what a session says that drops a message half-way, `WsUpgrade` the handshake answer and
  `WsServing` answers as servers spell them.
  `WsSession` is the session class; its ghost fields are books kept on the run (`WsLedger`, `WsPending`), and
  `WsRuns` draws the whole-run theorems from them.
- **HTTP.** `HttpText`, `HttpResponse` (reference parser and the in-place algorithm), `HttpLines`, `HttpLaws`,
  `HttpWrap` (chunk positions that wrap around), `HttpServing` (responses as servers spell them), `HttpRequest`,
  `HttpPeer` (what a server reads from the requests) and the client class `HttpClient` with its books `HttpBooks`.
- **Event loop.** `EventLoop` and `EventLoopLaws`.
- **Base64.** `Base64`.
- **Environment.** `Environment` is what sessions run against: a nondecreasing clock, a pool that may refuse,
  and a transport that may take or give any part of what is offered, refuse for now, end or fail. An `Oracle` may
  script the answers of pool and writes; beyond its script they are arbitrary. Callbacks are scripts too: sequences
  of calls of `send` and `close` for `on_message`, and of `close`, `request` and `connect` for `on_response`, so the
  theorems hold for all of them. `IoBuffer` is the buffer window, `Ownership` who holds a pool's buffers; `Arith`,
  `Seqs`, `Wrappers` are helpers.

## What came out differently from what one might expect

- `available()` can read 2^64 - 1 while calls are in progress (`BufferPoolLimits.AvailableCanWrap`); it is exact
  if and only if as many decrements as increments are outstanding (`BufferPoolLimits.AvailableExactIff`).
- The 32-bit version tag protects a pending swap for fewer than 2^32 successful swaps and for no more: some run with
  at most 2^32 of them during every pending swap hands one buffer to two threads, and no run with at most 2^32 - 1
  does (`BufferPoolLimits.VersionRangeIsTight`).
- `close()` leaves the session Closing even when writing its Close frame tore the session down. If that happens
  inside a message callback and the server has put a data frame inside a fragmented message, frames already
  buffered are still dispatched without the dropped fragments. What is then delivered is exactly what the frames say
  with the message under reassembly thrown away at that frame (`WsRuns.InboundOfRun`), which is still a prefix of
  the right messages if and only if the drop is harmless (`WsRuns.PrefixOfRun`); `WsRuns.DroppingRun` is a run in
  which it is not.
- The status of an upgrade answer is looked for behind the first space of the whole buffer, so bytes that arrive
  behind the header block can change the verdict, exactly when nothing but the status is missing and it can still
  become 101 (`WsUpgrade.VerdictFinalIff`).
- The dry run over chunks computes positions modulo 2^64. Where one wraps around, the cursor can move backwards; the
  loop ends if and only if it ends within one iteration more than the buffer has bytes (`HttpWrap.EndsIff`), and on
  some size lines it does not (`HttpWrap.StaysForever`).
- In `HttpClient`, an `on_response` callback that leaves the client connecting makes the following `consume` exceed
  the buffered length; nothing else does (`HttpClient.Client.TryComplete`, `HttpClient.AnyRun`,
  `HttpClient.OverrunRun`). The end of the stream is always an error, although the source comments that it tries to
  parse what it has (`HttpClient.Client.DriveRecv`).
- In busy-poll mode a removed pollable is never dispatched again in the same step if and only if no pollable is
  registered twice (`EventLoopLaws.NeverAgainIff`).

## Model

| member | source | states |
|---|---|---|
| `BufferPool.LinkArena` | include/lepton/base/buffer_pool.h:124-132 | the constructor's loop links every buffer to the next and the last to the sentinel, with all buffers available |
| `BufferPool.PackInjective` | include/lepton/base/buffer_pool.h:183-184 | packing version and index into one 64-bit word loses nothing, so comparing words is comparing both |
| `BufferPool.InitInv` | include/lepton/base/buffer_pool.h:124-132 | the free list the constructor builds satisfies the pool invariant |
| `BufferPool.EqualWordMeansUnchanged` | include/lepton/base/buffer_pool.h:183-188 | within the version range, a head word equal to the one a thread loaded means no swap succeeded in between |
| `BufferPool.AcquireInstallsSuccessor` | include/lepton/base/buffer_pool.h:180-189 | a successful acquire installs the true successor, never a stale or overwritten `next_idx` |
| `BufferPool.StepKeepsInv` | include/lepton/base/buffer_pool.h:173-237 | every step of every thread stays in the arena and keeps the invariant: duplicate-free chain to the sentinel, exclusive ownership, accounting |
| `BufferPool.RunKeepsInv` | include/lepton/base/buffer_pool.h:173-237 | so does every interleaving within the version range |
| `BufferPool.NoBufferLostOrShared` | include/lepton/base/buffer_pool.h:173-237 | from the constructor on, in every interleaving, each buffer is either on the chain or held by exactly one thread |
| `BufferPool.LostSwapMeansRivalWon` | include/lepton/base/buffer_pool.h:186-188 | a swap that fails non-spuriously means another thread's swap succeeded since the load |
| `BufferPool.LossesPaidByRivals` | include/lepton/base/buffer_pool.h:186-196 | over every run a thread's lost and won swaps together are at most the successful swaps of all: lock-freedom by accounting |
| `BufferPool.AcquireRefines` | include/lepton/base/buffer_pool.h:180-195 | a successful acquire is a pop of the abstract stack by that thread |
| `BufferPool.ReleaseRefines` | include/lepton/base/buffer_pool.h:222-235 | a successful release is a push |
| `BufferPool.StepRefinesStack` | include/lepton/base/buffer_pool.h:173-237 | each step is a pop, a push, a hand-over between threads or invisible, and a pop or push exactly when its swap succeeds |
| `BufferPoolCalls.ReleaseReturns` | include/lepton/base/buffer_pool.h:222-235 | in every interleaving a call of `release` that returns has pushed its buffer exactly once, taking it from the thread, and done nothing else to the free list |
| `BufferPoolCalls.AcquireReturns` | include/lepton/base/buffer_pool.h:173-195 | a call of `acquire` that returns has popped exactly one buffer and given it to the thread, or has changed nothing and found the list empty when it last looked |
| `BufferPoolCalls.CallsOfRun` | include/lepton/base/buffer_pool.h:173-237 | the same for every call in every run from the constructor on |
| `BufferPool.AvailableMeaning` | include/lepton/base/buffer_pool.h:189 | the counter is the stack size corrected by updates in flight, modulo 2^64, and exact when no call is between swap and update |
| `BufferPool.ExactWhenQuiet` | include/lepton/base/buffer_pool.h:241-247 | `available()` is the number of free buffers when no counter update is pending |
| `BufferPoolLimits.AvailableExactIff` | include/lepton/base/buffer_pool.h:241-247 | `available()` is exact if and only if as many acquires as releases are between swap and update |
| `BufferPoolLimits.AvailableCanWrap` | include/lepton/base/buffer_pool.h:189-233 | a run in which `available()` reads 2^64 - 1 |
| `BufferPoolLimits.VersionRangeIsTight` | include/lepton/base/buffer_pool.h:183-188 | the bound is exact: some run with at most 2^32 successful swaps during every pending acquire hands a buffer to two threads, and no run with at most 2^32 - 1 ever does |
| `SpscRing.Spsc.Alloc` | examples/best_practice_example.cpp:102-109 | refines the value-level step, refreshing the cached read index only when the ring looks full |
| `SpscRing.Spsc.Commit` | examples/best_practice_example.cpp:110 | advances the write index with 32-bit wrap-around |
| `SpscRing.Spsc.Peek` | examples/best_practice_example.cpp:113-120 | refines the value-level step, refreshing the cached write index only when the ring looks empty |
| `SpscRing.Spsc.Release` | examples/best_practice_example.cpp:121 | advances the read index with 32-bit wrap-around |
| `SpscRing.StepKeepsInv` | examples/best_practice_example.cpp:102-121 | every step of either thread - also asking again for a slot already granted - with any published far index, keeps the wrapped fields in line with unbounded counters |
| `SpscRing.AskingAgain` | examples/best_practice_example.cpp:102-120 | `alloc` before `commit`, and `peek` before `release`, may be repeated and give the same slot |
| `SpscRing.RunKeepsInv` | examples/best_practice_example.cpp:102-121 | so does every schedule |
| `SpscRing.ConsumerSeesCommitted` | examples/best_practice_example.cpp:102-121 | in every schedule the consumer has seen exactly a prefix of the committed items, in order |
| `SpscRing.ReservedSlotIsFree` | examples/best_practice_example.cpp:102-109 | `alloc` never returns a slot that is committed and not yet released |
| `SpscRing.RefusalsAreExact` | examples/best_practice_example.cpp:102-120 | with an up-to-date far index, `alloc` refuses if and only if the ring is full and `peek` if and only if it is empty |
| `Prng.PcgXshRr6432.Next` | include/lepton/net/detail/ws_mask.h:53-62 | the state takes one step modulo 2^64; the key is the 32 folded bits of the old state rotated right by its top five bits |
| `Prng.SplitMix64.Next` | include/lepton/net/detail/ws_mask.h:34-40 | the state takes one additive step; the key is the upper half of the mixed new state |
| `Prng.MixInjective` | include/lepton/net/detail/ws_mask.h:36-38 | the mixing is one-to-one on 64-bit words |
| `Prng.MixOnto` | include/lepton/net/detail/ws_mask.h:34-40 | every 64-bit word is the mix of exactly one state, so over a period every key comes up equally often |
| `Prng.PcgOutputInjective` | include/lepton/net/detail/ws_mask.h:58-61 | a state is determined by its key, its top five and its low 27 bits |
| `Prng.PcgOutputOnto` | include/lepton/net/detail/ws_mask.h:53-62 | every key occurs with every choice of those bits, so over a period every key comes up equally often |
| `Shifts.OrRotates` | include/lepton/net/detail/ws_mask.h:61 | the two shifts and the OR are the rotation, also by zero |
| `Prng.PcgClosedForm` | include/lepton/net/detail/ws_mask.h:53-56 | the state after n steps in closed form |
| `Prng.PcgReturnsIff` | include/lepton/net/detail/ws_mask.h:53-56 | the state recurs after n steps if and only if 2^64 divides n |
| `Prng.PcgFullPeriod` | include/lepton/net/detail/ws_mask.h:53-56 | from every seed every 64-bit state is reached within 2^64 steps, each once |
| `Prng.SplitMixFullPeriod` | include/lepton/net/detail/ws_mask.h:27-35 | the same for SplitMix64 |
| `Endian.NetToHost16` | include/lepton/base/hw_endian.h:63-69 | after a little-endian load, the swap reads network order |
| `Endian.NetToHost64` | include/lepton/base/hw_endian.h:95-101 | the same for 64 bits |
| `Endian.HostToNet16` | include/lepton/base/hw_endian.h:71-77 | before a little-endian store, the swap writes network order |
| `Endian.HostToNet64` | include/lepton/base/hw_endian.h:103-109 | the same for 64 bits |
| `Endian.NetworkRoundTrip` | include/lepton/base/hw_endian.h:63-109 | writing and reading a number in network order gives it back |
| `Endian.NetworkBytesUnique` | include/lepton/base/hw_endian.h:63-109 | only one byte sequence of that length reads as that number |
| `WsMask.MaskInvolution` | include/lepton/net/detail/ws_mask.h:92-146 | masking twice with the same key and offset is the identity |
| `WsMask.MaskSplit` | include/lepton/net/detail/ws_mask.h:88-95 | masking in two calls with the matching offset equals one call |
| `WsMask.WideXor` | include/lepton/net/detail/ws_mask.h:131-137 | XOR of whole words is XOR of their bytes |
| `WsMask.Mask` | include/lepton/net/detail/ws_mask.h:92-146 | for every length, key, offset and with or without the vector loop, the result is the byte-by-byte XOR and nothing else changes |
| `WsFrame.ParseHeader` | include/lepton/net/detail/ws_frame.h:55-134 | computes the reference verdict on every buffer |
| `WsFrame.EncodeClientHeader` | include/lepton/net/detail/ws_frame.h:152-182 | writes exactly the encoding, or nothing when it does not fit |
| `WsFrame.ClientHeaderSize` | include/lepton/net/detail/ws_frame.h:137-146 | is the size of every masked header of that payload length |
| `WsFrame.ParseEncode` | include/lepton/net/detail/ws_frame.h:55-182 | an encoded header parses back to itself if it is legal and is a violation otherwise, whatever follows |
| `WsFrame.EncodeParse` | include/lepton/net/detail/ws_frame.h:55-182 | an accepted header is legal and re-encodes to the same bytes |
| `WsFrame.HeaderLayout` | include/lepton/net/detail/ws_frame.h:152-182 | final bit, opcode number, mask bit, short and long length and key stand where section 5.2 of RFC 6455 puts them, in numbers |
| `WsFrame.VerdictStable` | include/lepton/net/detail/ws_frame.h:55-134 | a verdict other than "need more" never changes when bytes are appended |
| `WsStreams.StreamDecodes` | include/lepton/net/detail/ws_session_impl.h:313-344 | a server that parses and unmasks the enqueued frames recovers the messages in order |
| `WsStreams.OutboundTheorem` | include/lepton/net/detail/ws_session_impl.h:313-391 | from any prefix of the outbound stream a server reads a prefix of the messages, from all of it all of them |
| `WsStreams.DecodeResumes` | include/lepton/net/detail/ws_session_impl.h:218-245 | decoding may stop at any frame boundary and resume |
| `WsStreams.EatFrame` | include/lepton/net/detail/ws_session_impl.h:226-243 | consuming a whole frame from the front is one step of the reference decoder |
| `WsStreams.ClientReadsPrefix` | include/lepton/net/detail/ws_session_impl.h:218-310 | more inbound bytes only add messages |
| `WsStreams.ControlFramesAreInvisible` | include/lepton/net/detail/ws_session_impl.h:248-273 | control frames between fragments do not change reassembly |
| `WsStreams.InboundTheorem` | include/lepton/net/detail/ws_session_impl.h:248-310 | whatever messages a conforming server sends, in whatever fragments, the reference decoder returns exactly those |
| `HttpText.Search` | include/lepton/net/http.h:84 | the search loop returns the first match |
| `HttpText.CheckPrefix` | include/lepton/net/http.h:58-72 | true if and only if the text starts with the name, ignoring ASCII case |
| `HttpServing.FoldsLetters` | include/lepton/net/http.h:58-72 | case is folded for the 26 letters and for no other byte |
| `HttpText.ReadDecimal` | include/lepton/net/http.h:281-287 | the leading digits, accumulated modulo 2^64 |
| `HttpText.DecimalRoundTrip` | include/lepton/net/http.h:175-183 | a length written by the builder is read back by the parser |
| `HttpText.ParseDecimalWraps` | include/lepton/net/http.h:281-287 | digits of any number are read modulo 2^64, whatever non-digit follows |
| `HttpResponse.ReadHex` | include/lepton/net/http.h:208-230 | the chunk size of a line, or the mark for a malformed one, modulo 2^64 |
| `HttpServing.HexTable` | include/lepton/net/http.h:208-230 | exactly the sixteen digits, in either case, are hex digits |
| `HttpServing.HexValues` | include/lepton/net/http.h:208-230 | and these are their values |
| `HttpResponse.ReadHeaders` | include/lepton/net/http.h:263-296 | the last Content-Length and whether a chunked encoding is named, as the line-by-line definition says |
| `HttpResponse.DryRun` | include/lepton/net/http.h:311-341 | finds out whether the chunks are all there, malformed or unfinished without touching the buffer |
| `HttpResponse.DecodeInPlace` | include/lepton/net/http.h:343-376 | the overwriting pass retraces the dry run, never reports incomplete, terminates, and yields the body the reference decodes from the original bytes |
| `HttpResponse.ParseInPlace` | include/lepton/net/http.h:239-377 | returns the reference result; the buffer is unchanged unless complete, and bytes behind the response always are |
| `HttpWrap.EndsIff` | include/lepton/net/http.h:311-341 | with the 64-bit positions of the source, the dry run ends if and only if it ends within one iteration more than the buffer has bytes |
| `HttpWrap.EndsWithoutWrap` | include/lepton/net/http.h:311-341 | it ends whenever no chunk end wraps around |
| `HttpWrap.StaysForever` | include/lepton/net/http.h:311-341 | a size line whose wrapped chunk end is the line itself keeps it there, whatever surrounds it |
| `HttpWrap.LoopingLine` | include/lepton/net/http.h:208-230 | there is such a line of 16 digits |
| `HttpLaws.ResponseStable` | include/lepton/net/http.h:234-377 | a result other than incomplete never changes when bytes are appended, except that a malformed one claims the whole buffer |
| `HttpLaws.SplitIndependent` | include/lepton/net/http.h:234-377 | any two prefixes of a stream that yield a response yield the same status and body |
| `HttpLaws.HexRoundTrip` | include/lepton/net/http.h:208-230 | every 64-bit chunk size written in hex is read back |
| `HttpLaws.ParseHexWraps` | include/lepton/net/http.h:208-230 | hex digits of any number are read modulo 2^64 |
| `HttpLaws.WireDecodes` | include/lepton/net/http.h:343-376 | for every body, every way of cutting it into chunks, every spelling of the sizes, all chunk extensions and trailers and whatever surrounds it, the decoder recovers the body and consumes exactly its encoding |
| `HttpLaws.LengthRoundTrip` | include/lepton/net/http.h:239-309 | a response with header lines and a length is read back whole, whatever follows |
| `HttpLaws.ChunkedRoundTrip` | include/lepton/net/http.h:239-377 | a response with header lines, chunks, extensions and trailers is read back whole, whatever follows |
| `HttpServing.StatusNumber` | include/lepton/net/http.h:249-258 | every three-digit status, behind any version without a space, is read as its number |
| `HttpServing.StatusGarbled` | include/lepton/net/http.h:255-261 | a status with a byte that is no digit is read as 502 |
| `HttpServing.ServedLength` | include/lepton/net/http.h:239-309 | a response that a server spells with a status, any other headers and a length, in any mix of cases, is read as that status and body |
| `HttpServing.ServedNothing` | include/lepton/net/http.h:239-309 | without a length and without a chunked coding - also with another coding - there is no body |
| `HttpServing.ServedChunked` | include/lepton/net/http.h:239-377 | a response spelled with a chunked coding, in any mix of cases, is read as its status and the joined chunks |
| `HttpServing.ServedGarbage` | include/lepton/net/http.h:311-341 | a first size line that is no size ends the response without a body and consumes the buffer |
| `HttpLaws.ConsumesSome` | include/lepton/net/http.h:239-377 | a complete response consumes at least its blank line and no more than there is |
| `HttpRequest.FormatDecimal` | include/lepton/net/http.h:175-182 | the digit loop, from the end of a 24-byte array it never leaves, gives the decimal digits |
| `HttpRequest.BuildRequest` | include/lepton/net/http.h:150-197 | writes the whole request, or returns 0 if and only if it does not fit |
| `HttpRequest.RequestFraming` | include/lepton/net/http.h:142-197 | from every request built of clean parts a peer finds the end of the headers and the exact body |
| `HttpPeer.RequestRead` | include/lepton/net/http.h:142-197 | a server that reads request line, host, headers and length byte by byte recovers method name, target, host, headers and body of every request of clean parts |
| `HttpPeer.PeerHears` | include/lepton/net/http.h:142-197 | from any prefix of a stream of requests it reads a prefix of them, and from all of it all of them |
| `HttpRequest.BuildUpgrade` | include/lepton/net/http.h:26-47 | writes the whole upgrade request, or returns 0 if and only if it does not fit |
| `HttpPeer.UpgradeRead` | include/lepton/net/http.h:26-47 | a server reads the upgrade request as a GET of the path at the host with the key and the three fixed headers |
| `WsUpgrade.CheckUpgrade` | include/lepton/net/http.h:79-128 | computes the reference verdict on every buffer |
| `WsUpgrade.ValidateLines` | include/lepton/net/http.h:79-128 | an answer of header lines is accepted if and only if prefix, status and first accept line are right, and exactly the header block is consumed |
| `WsServing.AnswerJudged` | include/lepton/net/http.h:79-128 | an answer as servers spell it, in any mix of cases and with spaces around the value, is accepted if and only if its status is 101 and its accept line carries the expected value |
| `WsServing.AnswerWithout` | include/lepton/net/http.h:79-128 | an answer without an accept line is refused |
| `WsUpgrade.VerdictStable` | include/lepton/net/http.h:76-98 | a complete verdict never changes unless nothing is missing but a status that is still open |
| `WsUpgrade.VerdictVaries` | include/lepton/net/http.h:95-101 | otherwise it does: refused now, accepted with the bytes that complete the status |
| `WsUpgrade.VerdictFinalIff` | include/lepton/net/http.h:79-128 | for every complete answer, exactly when the verdict is final |
| `IoBuffer.IOBuffer.constructor` | include/lepton/base/buffer_pool.h:190-195 | a window at the reserved offset of its storage |
| `IoBuffer.IOBuffer.Tailroom` | include/lepton/base/io_buffer.h:32 | the room behind the payload |
| `IoBuffer.IOBuffer.Append` | include/lepton/base/io_buffer.h:42-47 | the payload grows at its end and nothing before it changes |
| `IoBuffer.IOBuffer.Prepend` | include/lepton/base/io_buffer.h:52-58 | the payload grows at its front into the reserved space |
| `IoBuffer.IOBuffer.Consume` | include/lepton/base/io_buffer.h:61-65 | the payload loses its first bytes |
| `IoBuffer.IOBuffer.Reset` | include/lepton/base/io_buffer.h:68-72 | empty, with the given space in front |
| `IoBuffer.IOBuffer.Compact` | include/lepton/net/detail/ws_session_impl.h:423-435 | the payload is moved to the front of the storage and does not change |
| `IoBuffer.BuildBackwards` | include/lepton/net/detail/ws_session_impl.h:323-331 | payload first, masked in place and header prepended makes the header followed by the masked payload, filling the reserved space exactly |
| `WsPending.QueuePush` | include/lepton/net/detail/ws_session_impl.h:346-355 | storing at head plus count appends to the queue the ring denotes |
| `WsPending.QueueSend` | include/lepton/net/detail/ws_session_impl.h:378 | a partial write changes only how much of the front buffer is sent |
| `WsPending.QueuePop` | include/lepton/net/detail/ws_session_impl.h:380-382 | advancing the head drops the front of the queue |
| `WsPending.RemainingSend` | include/lepton/net/detail/ws_session_impl.h:365-390 | writing n bytes of the front buffer takes exactly those off what remains |
| `Ownership.OwnedMeans` | include/lepton/net/detail/ws_session_impl.h:454-486 | ownership means: no buffer under two handles, none also held by others, every buffer handed out accounted for |
| `WsLedger.ExactPush` | include/lepton/net/detail/ws_session_impl.h:313-344 | enqueueing a frame keeps accepted plus pending bytes equal to the enqueued stream |
| `WsLedger.ExactWrite` | include/lepton/net/detail/ws_session_impl.h:365-391 | so does every partial write |
| `WsLedger.ServerSees` | include/lepton/net/detail/ws_session_impl.h:131-151 | what a server makes of the accepted bytes of a connection: part of the upgrade request, or all of it and a prefix of the messages |
| `WsLedger.AteIsSound` | include/lepton/net/detail/ws_session_impl.h:248-310 | processing the front frame keeps what was delivered equal to what the processed frames say to a session that dropped a message where this one did |
| `WsLedger.AfterIsSound` | include/lepton/net/detail/ws_session_impl.h:35-44 | so does whatever a callback calls, also a teardown that leaves the session closing |
| `WsLedger.FramesAreDecoded` | include/lepton/net/detail/ws_session_impl.h:218-245 | the frames processed are the first frames of the reference decoding of everything received |
| `WsLedger.DeliveredIsDecoded` | include/lepton/net/detail/ws_session_impl.h:218-310 | without a drop, what was delivered is a prefix of the reference decoding of everything received |
| `WsDropping.DropEffect` | include/lepton/net/detail/ws_session_impl.h:283-310 | dropping the message under reassembly after k frames loses that message and no other, if a later frame would have finished it |
| `WsDropping.PrefixIff` | include/lepton/net/detail/ws_session_impl.h:283-310 | and what is delivered is then a prefix of the right messages if and only if nothing was unfinished, the finishing frame has not come, or everything behind it equals the lost message |
| `WsLedger.FramesAreAll` | include/lepton/net/detail/ws_session_impl.h:218-245 | the frames processed are all frames of the stream when the buffer holds no whole frame |
| `WsLedger.FullMeansTooLarge` | include/lepton/net/detail/ws_session_impl.h:196-200 | the header in a full buffer without a whole frame is there and announces a frame larger than the buffer |
| `WsLedger.NextDelayIsBackoff` | include/lepton/net/detail/ws_session_impl.h:124-126 | the doubling rule gives min(2^(k-1), 30) seconds after k attempts |
| `WsLedger.SpacedPing` | include/lepton/net/detail/ws_session_impl.h:414-418 | a ping sent when due keeps all pings at least the interval apart |
| `WsLedger.AlternatePing` | include/lepton/net/detail/ws_session_impl.h:414-418 | a ping sent while none is awaited keeps a Pong between any two pings |
| `WsLedger.PongHeard` | include/lepton/net/detail/ws_session_impl.h:264-266 | a processed Pong answers whatever ping is outstanding |
| `WsSession.BuildFrame` | include/lepton/net/detail/ws_session_impl.h:323-336 | copy, mask and prepend make exactly the bytes of the masked frame |
| `WsSession.Session.constructor` | include/lepton/net/detail/ws_session_impl.h:9-10 | on a pool whose buffers are whole cache lines, a new session is disconnected and valid, without automatic reconnection |
| `WsSession.Session.SetAutoReconnect` | include/lepton/net/ws_session.h:83 | in every state |
| `WsSession.Session.SetState` | include/lepton/net/detail/ws_session_impl.h:443-451 | records the transition; only allowed transitions are possible |
| `WsSession.Session.PushPending` | include/lepton/net/detail/ws_session_impl.h:346-362 | appends if and only if a slot is free |
| `WsSession.Session.DrainPending` | include/lepton/net/detail/ws_session_impl.h:469-475 | releases every pending buffer once |
| `WsSession.Session.ReleaseBuffers` | include/lepton/net/detail/ws_session_impl.h:478-486 | everything the session held goes back to the pool, and nothing else |
| `WsSession.Session.Teardown` | include/lepton/net/detail/ws_session_impl.h:454-466 | closes, drains, drops the fragment, schedules the reconnection and ends in the given state |
| `WsSession.Session.WriteFront` | include/lepton/net/detail/ws_session_impl.h:366-389 | writes part or all of the front buffer, keeping accepted plus pending bytes exact |
| `WsSession.Session.FlushOne` | include/lepton/net/detail/ws_session_impl.h:366-388 | one write: offers exactly what is left of the front buffer; an error fails the session, and the last byte of a closing session disconnects it |
| `WsSession.Session.FlushPending` | include/lepton/net/detail/ws_session_impl.h:365-391 | attempts to write what is left of the front buffer first, goes on until the queue is empty or the transport took less than offered, and ends the session only when a write failed or, while closing, when everything is written |
| `WsSession.Session.QueueFrame` | include/lepton/net/detail/ws_session_impl.h:313-341 | queues exactly one frame with that opcode and payload, or leaves no trace; which of the statuses it returns follows from the pool, the size and the free slots |
| `WsSession.Session.MakeFrame` | include/lepton/net/detail/ws_session_impl.h:313-336 | the masked frame in a new buffer, or no buffer taken: would block if and only if there is none, too large if and only if it does not fit one |
| `WsSession.Session.EnqueueFrame` | include/lepton/net/detail/ws_session_impl.h:313-344 | queues and flushes; a refused frame contributes no byte |
| `WsSession.Session.Send` | include/lepton/net/detail/ws_session_impl.h:27-32 | refused as not open if and only if not open, otherwise as the pool, the size and the free slots say; keeps the session valid |
| `WsSession.Session.CloseOpen` | include/lepton/net/detail/ws_session_impl.h:37-40 | attempts the Close frame and ends Closing even if that tore the session down, which drops the message under reassembly and happens whenever the frame is queued and its write fails |
| `WsSession.Session.Close` | include/lepton/net/detail/ws_session_impl.h:35-44 | Closing from Open, Disconnected from anything else, never reconnecting |
| `WsSession.Session.Deliver` | include/lepton/net/detail/ws_session_impl.h:276-280 | one more message delivered, whatever sends and closes the callback performs; a callback that does nothing changes nothing else |
| `WsSession.Session.OneCall` | include/lepton/net/detail/ws_session_impl.h:27-44 | a call of the callback does what the same call of the application does |
| `WsSession.Session.RunCalls` | include/lepton/net/detail/ws_session_impl.h:276-280 | every sequence of calls of the callback leaves the session in step with its stream, torn down, or closing with a drop |
| `WsSession.Session.AppendFragment` | include/lepton/net/detail/ws_session_impl.h:297-310 | collects, delivers the whole message on the last fragment, fails when it does not fit, and skips a continuation of nothing |
| `WsSession.Session.BeginFragment` | include/lepton/net/detail/ws_session_impl.h:283-294 | starts a new message with this payload, replacing one under way; fails if and only if the payload exceeds a buffer or none can be had |
| `WsSession.Session.DispatchWhole` | include/lepton/net/detail/ws_session_impl.h:248-257 | an unfragmented message goes to the callback as it is, also in the middle of another |
| `WsSession.Session.DispatchContinuation` | include/lepton/net/detail/ws_session_impl.h:258-260 | a continuation extends or finishes the message under way |
| `WsSession.Session.DispatchPing` | include/lepton/net/detail/ws_session_impl.h:261-263 | answers with a Pong of the same payload |
| `WsSession.Session.DispatchPong` | include/lepton/net/detail/ws_session_impl.h:264-266 | no Pong is awaited any more |
| `WsSession.Session.DispatchClose` | include/lepton/net/detail/ws_session_impl.h:267-269 | ends the session as Disconnected |
| `WsSession.Session.DispatchFrame` | include/lepton/net/detail/ws_session_impl.h:248-273 | after every frame the session is in step with the reference decoder or has ended |
| `WsSession.Session.ParseOne` | include/lepton/net/detail/ws_session_impl.h:218-243 | one turn of the loop: the frame at the front is processed and consumed |
| `WsSession.Session.ParseFrames` | include/lepton/net/detail/ws_session_impl.h:218-245 | processes every whole frame, leaves an incomplete one at the front of the buffer, or ends; a violation at the front fails the session |
| `WsSession.Session.DriveFrameRead` | include/lepton/net/detail/ws_session_impl.h:194-215 | reads once; end of stream and errors end the session accordingly; "buffer full" only when the header there announces a frame larger than the buffer |
| `WsSession.Session.ArmTimers` | include/lepton/net/detail/ws_session_impl.h:394-399 | no ping outstanding, the next one an interval from now, no reconnect delay |
| `WsSession.Session.EnterOpen` | include/lepton/net/detail/ws_session_impl.h:176-187 | Open only with a complete answer that is accepted, or with nothing expected; what follows the header block is kept, the delay cleared and the ping timer armed |
| `WsSession.Session.DriveUpgradeRead` | include/lepton/net/detail/ws_session_impl.h:154-191 | waits while nothing came or the answer is incomplete; opens, with the reconnect delay cleared, on a complete answer that is accepted or not checked; fails on any other, on end of stream, error and full buffer |
| `WsSession.Session.QueueRequest` | include/lepton/net/detail/ws_session_impl.h:135-149 | queues exactly the upgrade request if and only if a buffer is to be had and it fits; its ignored push result is always success |
| `WsSession.Session.SendUpgradeRequest` | include/lepton/net/detail/ws_session_impl.h:131-151 | Upgrading with the request queued and offered to the transport, or ended without leaking its buffer |
| `WsSession.Session.SendPing` | include/lepton/net/detail/ws_session_impl.h:414-418 | one ping, recorded, with its deadline |
| `WsSession.Session.CheckKeepalive` | include/lepton/net/detail/ws_session_impl.h:402-420 | a due ping goes out and an overdue Pong fails the session; one that reads neither waits past the Pong deadline nor owes a ping |
| `WsSession.Session.CheckTimeouts` | include/lepton/net/detail/ws_session_impl.h:489-496 | a connection attempt past its deadline fails, and nothing else does |
| `WsSession.Session.StartConnect` | include/lepton/net/detail/ws_session_impl.h:85-113 | all buffers are returned, one is acquired, and the books of the new connection start empty, with its deadline set; Connecting whenever the pool and the transport permit |
| `WsSession.Session.Connect` | include/lepton/net/detail/ws_session_impl.h:21-24 | the same from every valid state |
| `WsSession.Session.MaybeReconnect` | include/lepton/net/detail/ws_session_impl.h:116-128 | attempts again if and only if automatic and not before the delay has passed, with the next longer delay; Connecting whenever the pool and the transport permit |
| `WsSession.Session.Serve` | include/lepton/net/detail/ws_session_impl.h:74-81 | writes, then reads: the front of the queue is offered first, and a session that has not ended has read once |
| `WsSession.Session.OnReady` | include/lepton/net/detail/ws_session_impl.h:57-82 | a pending attempt waits, an open one sends the upgrade request and a failed one ends; otherwise what is pending is offered to the transport again, one read follows, and no session that reads waits past its Pong deadline or owes a ping |
| `WsRuns.AnyRun` | include/lepton/net/detail/ws_session_impl.h:21-82 | every sequence of calls, with any close code, callback and environment, keeps the session valid |
| `WsRuns.OutboundOfRun` | include/lepton/net/detail/ws_session_impl.h:313-391 | in every run the accepted bytes are a prefix of the upgrade request and the accepted frames, from which a server reads a prefix of the accepted messages - all of them when nothing is pending |
| `WsRuns.PendingOfRun` | include/lepton/net/detail/ws_session_impl.h:365-391 | in every run something is pending only if the transport took less than it was offered last |
| `WsRuns.UpgradeOfRun` | include/lepton/net/detail/ws_session_impl.h:135-149 | in every run a server reads what opens the connection as a GET of the session's path at its host with its key |
| `WsRuns.InboundOfRun` | include/lepton/net/detail/ws_session_impl.h:154-310 | in every run, however the stream is cut, the frames processed are the first of the stream, and all of them while the session reads; what was delivered is exactly what they say to a session that dropped a message where this one did |
| `WsRuns.PrefixOfRun` | include/lepton/net/detail/ws_session_impl.h:154-310 | in every run what was delivered is a prefix of the decoding of everything received if and only if nothing was dropped or the drop is harmless, and all of it while the session is open |
| `WsRuns.ConformingOfRun` | include/lepton/net/detail/ws_session_impl.h:218-310 | in every run in which the server does not interleave messages it is a prefix, and all of it while the session reads |
| `WsRuns.DroppingRun` | include/lepton/net/detail/ws_session_impl.h:218-310 | three turns of the frame loop on an open session, with a callback that closes and a write that fails, deliver messages that are no prefix of the decoding |
| `WsRuns.BuffersOfRun` | include/lepton/net/detail/ws_session_impl.h:297-391 | in every run the pool buffers held are pairwise distinct and exactly those of the receive, fragment and pending handles |
| `WsRuns.TransitionsOfRun` | include/lepton/net/detail/ws_session_impl.h:443-451 | in every run Open is entered only from Upgrading and Upgrading only from Connecting |
| `WsRuns.AnswerOfRun` | include/lepton/net/detail/ws_session_impl.h:169-187 | a session that reads was answered completely, and as expected unless nothing was expected |
| `WsRuns.PingsOfRun` | include/lepton/net/detail/ws_session_impl.h:402-420 | in every run pings on a connection are at least the interval apart and a Pong was processed between any two |
| `WsRuns.PongsOfRun` | include/lepton/net/detail/ws_session_impl.h:264-266 | in every run a Pong was processed after every ping unless one is awaited, and the Pongs counted are those among the frames of the stream |
| `WsRuns.TimersOfRun` | include/lepton/net/detail/ws_session_impl.h:116-128 | in every run a Pong was attempted for every Ping processed, once, in order and with its payload, and the delay follows the backoff law |
| `HttpClient.ParseBuffered` | include/lepton/net/detail/http_client_impl.h:211 | the parser's view and the bytes it leaves, over the buffered bytes |
| `HttpClient.Client.constructor` | include/lepton/net/detail/http_client_impl.h:6-7 | a new client is disconnected with empty books |
| `HttpClient.Client.Fail` | include/lepton/net/detail/http_client_impl.h:256-263 | ends the request in flight, if any, in exactly one error |
| `HttpClient.Client.ReleaseBuffers` | include/lepton/net/detail/http_client_impl.h:266-273 | both buffers go back to the pool, and nothing else |
| `HttpClient.Client.Close` | include/lepton/net/detail/http_client_impl.h:58-63 | Disconnected; a request in flight counts as abandoned |
| `HttpClient.Client.StartConnect` | include/lepton/net/detail/http_client_impl.h:122-151 | Connecting with fresh buffers and books and its deadline set when the pool and the transport permit, Failed otherwise |
| `HttpClient.Client.Connect` | include/lepton/net/detail/http_client_impl.h:18-24 | nothing while idle or connecting; otherwise as above, and a request in flight counts as abandoned |
| `HttpBooks.LeavesSnoc` | include/lepton/net/detail/http_client_impl.h:18-63 | one more call leaves the client connecting if and only if it is a `connect` that gets under way, or the calls before it did and it is no `close` |
| `HttpClient.Client.Callback` | include/lepton/net/detail/http_client_impl.h:219-221 | after any sequence of callback calls the client is connecting if and only if the sequence leaves it so, and otherwise untouched, failed or disconnected |
| `HttpClient.Client.TakeResponse` | include/lepton/net/detail/http_client_impl.h:219-221 | the response delivered is the reference result of the bytes its connection received since the request |
| `HttpClient.Client.TryComplete` | include/lepton/net/detail/http_client_impl.h:210-237 | delivers if and only if the bytes are a complete response; `consume` exceeds the buffer if and only if they are and the calls of the callback leave the client connecting |
| `HttpClient.Client.KeepAlive` | include/lepton/net/detail/http_client_impl.h:231-236 | idle again, the rest of the buffer kept |
| `HttpClient.Client.DriveRecv` | include/lepton/net/detail/http_client_impl.h:181-207 | ends idle, failed, or waiting for the transport; an end of stream and an error each fail the client with one error for the request |
| `HttpClient.Client.FlushSend` | include/lepton/net/detail/http_client_impl.h:154-178 | offers what is left of the request first and writes it in order until it is out, the transport waits, or it fails |
| `HttpClient.Client.WriteSome` | include/lepton/net/detail/http_client_impl.h:155-169 | one write: offers exactly what is left of the request and keeps what was written in line with the accepted requests |
| `HttpClient.Client.Accept` | include/lepton/net/detail/http_client_impl.h:36-44 | the request is the one in flight, its response starts behind everything received so far, and leftover bytes are dropped |
| `HttpClient.Client.Request` | include/lepton/net/detail/http_client_impl.h:27-55 | each refusal if and only if its reason holds, and then nothing changes; otherwise exactly this request - method, path, headers and body - is logged, offered to the transport and given its deadline |
| `HttpClient.Client.CheckTimeouts` | include/lepton/net/detail/http_client_impl.h:66-78 | a request or connection past its deadline fails, once |
| `HttpClient.Client.OnReady` | include/lepton/net/detail/http_client_impl.h:91-119 | an open attempt becomes idle, a failed one fails, a pending one waits; a request in flight is offered to the transport or read for; an end of stream or error fails it |
| `HttpClient.AnyRun` | include/lepton/net/detail/http_client_impl.h:18-119 | every sequence of calls, with any request and callback, keeps the client valid until a fault; `consume` exceeds its buffer if and only if some callback left the client connecting, and a wrap happens only on a response whose lengths do |
| `HttpClient.OverrunRun` | include/lepton/net/detail/http_client_impl.h:210-237 | with a whole response and a callback that connects, `consume` exceeds its buffer |
| `HttpClient.RequestsOfRun` | include/lepton/net/detail/http_client_impl.h:27-263 | in every run accepted requests are responses, errors, abandoned ones and at most one in flight |
| `HttpClient.PeerOfRun` | include/lepton/net/detail/http_client_impl.h:27-178 | in every run, on every connection, a server reads from what was written a prefix of the methods, paths, headers and bodies of the requests accepted on it, in order, and all of them while the client is idle or waits for the answer |
| `HttpClient.ResponsesOfRun` | include/lepton/net/detail/http_client_impl.h:210-221 | in every run, every prefix of what a connection received since a request is not a whole response or is the one delivered for it, and long enough ones are |
| `HttpClient.ResponsesApart` | include/lepton/net/detail/http_client_impl.h:36-44 | in every run every response answers a request of its connection, no request has two, no received byte is part of two responses, and responses come in the order of their requests and bytes |
| `HttpBooks.AnyCut` | include/lepton/net/detail/http_client_impl.h:181-221 | what was delivered does not depend on how the stream was cut |
| `HttpClient.BuffersOfRun` | include/lepton/net/detail/http_client_impl.h:122-273 | in every run the two buffers are distinct, held by nobody else, and no other buffer is lost |
| `HttpClient.NothingMissed` | include/lepton/net/detail/http_client_impl.h:181-207 | while waiting, no cut of what arrived since the request is a whole response |
| `EventLoop.Loop.AddPollable` | include/lepton/net/event_loop.h:79-87 | registered unless the poller refuses it |
| `EventLoop.Loop.RemovePollable` | include/lepton/net/event_loop.h:89-111 | every later event of the batch is scrubbed and the first entry in the table nulled |
| `EventLoop.Loop.StepBusy` | include/lepton/net/event_loop.h:131-141 | computes the run of the script over the table as it was, then sweeps |
| `EventLoop.Loop.StepPoller` | include/lepton/net/event_loop.h:143-151 | computes the run of the script over the batch; nulled entries stay |
| `EventLoop.Loop.Step` | include/lepton/net/event_loop.h:127-153 | the hook first, then one of the two loops |
| `EventLoopLaws.DispatchedAreDue` | include/lepton/net/event_loop.h:131-151 | whatever callbacks add and remove, dispatched is exactly what was there at the start of the loop and not removed before its turn, in order; additions wait |
| `EventLoopLaws.DueOnce` | include/lepton/net/event_loop.h:131-139 | in busy-poll mode each pollable at most once a step |
| `EventLoopLaws.RemovedNeverAgain` | include/lepton/net/event_loop.h:94-111 | a removed pollable is not dispatched again in that step: in poller mode always, in busy-poll mode without double registration |
| `EventLoopLaws.HookRemovalHolds` | include/lepton/net/event_loop.h:127-151 | a pollable that the step hook removes is not dispatched in that step |
| `EventLoopLaws.AbsentIsNotDispatched` | include/lepton/net/event_loop.h:131-151 | nor is anything that is in no slot when the loop starts |
| `EventLoopLaws.NeverAgainIff` | include/lepton/net/event_loop.h:104-109 | in busy-poll mode that holds for all callbacks if and only if nothing is registered twice |
| `EventLoopLaws.TwiceIsAgain` | include/lepton/net/event_loop.h:104-109 | the callback that shows it for every table with a double entry |
| `EventLoopLaws.SweepKeeps` | include/lepton/net/event_loop.h:140-141 | the sweep drops the nulled entries and no other |
| `EventLoopLaws.SweepOrder` | include/lepton/net/event_loop.h:140-141 | surviving entries keep their order: the swept table is read off the old one at strictly increasing positions, which are all that are not nulled |
| `EventLoopLaws.TableGrows` | include/lepton/net/event_loop.h:79-111 | whatever callbacks do, the table is the old one with the additions behind it in order, and only removed pollables are nulled |
| `EventLoopLaws.QuietStepsAgree` | include/lepton/net/event_loop.h:131-141 | without additions and removals consecutive busy-poll steps dispatch the same sequence, the table in order |
| `Base64.Encode` | include/lepton/net/detail/base64.h:15-50 | exactly the encoding and a NUL, or nothing when it does not fit; what lies behind is untouched |
| `Base64.Alphabet` | include/lepton/net/detail/base64.h:17-18 | the 64 characters, range by range |
| `Base64.GroupOfThree` | include/lepton/net/detail/base64.h:27-33 | three bytes are four characters of six bits, most significant first |
| `Base64.DecodeEncoded` | include/lepton/net/detail/base64.h:15-50 | a strict decoder recovers every input |
| `Base64.EncodedDecode` | include/lepton/net/detail/base64.h:15-50 | what that decoder accepts is the encoding of what it returns |

## Left out

- F-Stack and DPDK branches, `sys_api.h`, `poller.h`, `TcpSocket`, `Endpoint::resolve`, mmap and mlock: foreign calls; they appear as the nondeterministic transport, pool and event batch.
- `TlsStream`, `TlsContext` and the SHA-1 accept hash: OpenSSL is not visible; TLS is one more transport, and the expected accept value is a parameter.
- Logger, `TscClock`, `init.h`, `EventLoopThread`: plumbing; the clock is any nondecreasing input.
- C++ memory orders beyond interleaving: the pool's steps are sequentially consistent, the ring's acquire loads return any published value no older than the cached one.
- `notify_write_interest`, `wants_write`, `registered_` and `write_armed_`: interest in readiness has no effect on the model's nondeterministic polling.
- Session and client buffers: in `WsSession` and `HttpClient` they are values (`IoBuffer.Window`), so aliasing of payload views with the receive buffer is not captured there; the in-place algorithms themselves are modelled on arrays (`WsMask.Mask`, `WsFrame.EncodeClientHeader`, `HttpResponse.ParseInPlace`, `IoBuffer.IOBuffer`).
- Masking keys: the session proofs hold for every key; that the generator supplies it is not used.
- Statistical quality of the generators beyond their periods and the equal frequency of all keys.
- Changing the timeouts, the host, the path or the expected answer of a session or client in the middle of a run; they are constants.
- 64-bit overflow of the nanosecond timers: they are unbounded integers.
- Re-entrance from `on_state` and `on_error`, and `connect` from `on_message`.
- UTF-8 validation and close-code rules of RFC 6455: the source does not implement them.
- The example JSON scanners, percentile reports and the other copies of the ring.
- HttpResponse.ParseInPlace: a chunk or body whose end is not a 64-bit number is a separate outcome (`overflows`); of what the source does then only the cursor of the dry run is modelled (`HttpWrap`).
- HttpResponse.DryRun: says of such a chunk only that it overflows.
- HttpClient.AnyRun: says nothing after a fault, because the program has then failed an assertion or computed with a wrapped length.
- EventLoop.Loop.Step: event flags are not modelled and a callback does not call `step` again.
