# Verified model of the CKB script IPC message path

Two libraries let a client call a server over a pair of byte pipes: one in Rust, one in C.
This project models the path of a message through both, from the variable-length integers
of a packet header up to whole runs of calls, and proves each layer against a description
in terms of byte sequences.

| file | what it models |
|---|---|
| `Words.dfy` | bytes, 64-bit words, and the shifts and bitwise operators on them |
| `Errors.dfy` | library errors, wire codes and the conversions between them |
| `Vlq.dfy` | the variable-length integer: its meaning on all byte strings, the Rust loops |
| `Frames.dfy` | packets on the wire, and what a reader makes of any stream |
| `NativePipe.dfy` | the zero-capacity native pipe |
| `RustIo.dfy` | buffered reading and writing of packets in Rust |
| `Rpc.dfy` | what a server makes of a stream of requests and a client of a reply |
| `Sessions.dfy` | both ends of a call straight from the bytes, with every number written out |
| `RpcChannel.dfy` | `Channel`: the server loop and the client call |
| `Protocol.dfy` | a Rust client, a server of either library and both pipes as one transition system |
| `CBuffers.dfy`, `CCodec.dfy` | the C buffered reader and writer, the C integers, agreement with Rust |
| `Allocator.dfy` | the C fixed block allocator and its bitmap |
| `CPackets.dfy`, `CServer.dfy`, `CTransfer.dfy` | C packets in payload memory, the server loop, the client call, end-to-end transfer |
| `Interop.dfy` | a C server behind a Rust client |
| `CryptoServer.dfy` | the hasher sessions of the crypto service |

Code that updates state in place is written as classes and methods with loops, and each
method is proved equal to a function on values (`Decoded`, `ReadPacket`, `ServerSession`,
`MallocStep`, `FirstRounds`, `Step`, ...); the lemmas are about those functions, over all inputs
and all runs.

## Reading the model

* A pipe's reading end knows the chunks that will arrive (`Receiver.incoming`), so a proof
  for every value of that field is a proof for every way the stream can be cut. A writing end
  knows how many more chunks its peer will take before it is gone (`Sender.takes`), so a proof
  for every value of that field is a proof for a peer that leaves between any two chunks.
* `Parse` tells apart a reader that would ask for more bytes (`Short`) from one that fails
  whatever follows (`Broken`). `ReadPacketStable` shows that the other verdicts do not depend
  on later bytes.
* In `Protocol` a chunk changes hands only while its reader is blocked on an empty pipe, and
  its size is free; `Calls` says what the calls should come to without mentioning bytes.
  `System.answered` is a history variable of the proof.
* `Service` holds the serializer and the service as functions; `Lawful` is the serializer's
  law that decoding undoes encoding.
* The buffered reader and writer under the Rust channel come from `ckb_rust_std`, which is
  not part of this model. They are taken to fill with one read of the pipe only when empty,
  and to have passed everything on when a flush returns.
* A reader is over a pipe whose reads end with zero bytes, as those of the native pipe, or
  with an error, as those of the system (`CBufReader.endCode`, `BufReader.fails`,
  `Setting.readsFail`). In C, `Source` says what it will deliver in both cases: `now` before
  the end, and `later` after a failed read, when the rest of the buffer passes for data. In
  Rust, `AtEnd` is the error it comes to. A C write to a closed peer returns a code or ends
  the machine (`CBufWriter.closedCode`).
* In `Protocol` the client leaves when it has made its calls (`Close`), and so between two
  calls only, for every list of calls. Its server is the Rust one or, if it ends without a
  word (`Setting.reports`), the C one (`QuietServerIsTheCServer`).
* The C server loop over a failing pipe need not end, so it is followed for any number of
  rounds (`FirstRounds`); over the other kind it ends (`ServerEnds`).
* A panic is an outcome (`Panicked`, `Status.Panic`) after which nothing more happens.

## Findings

* The comment at `c/ckb_script_ipc.c:46` and the check in `fixed_allocator_init` speak of 64
  blocks, but `1 << index` shifts an `int`. The shift is defined over all histories exactly up
  to 31 blocks (`ShiftIsDefinedIff`); with more, 31 allocations in a row reach an undefined
  one. `Malloc` and `Free` are proved for up to 64 blocks wherever the shift is defined.
* An oversize request to the C allocator returns NULL and uses up a block, exactly when one
  was free (`MallocIsLowestFree`). No caller can free that block, so the allocator is dead
  exactly when it has had as many such requests as it has blocks (`AllocatorIsDeadIff`).
* `csi_call` is documented to return zero for success only. It does not
  (`CallReturnsZeroIff`): it narrows the 64-bit code to `int`, so code 2^32 passes for
  success (`CallOnReply`); it counts the payload down in an `int`, so of 2^31 bytes it reads
  none, if there is a block of that size (`ExactLenIsLenIff`); and in `csi_read_vlq` a second
  `err` hides the one that is returned, so a read that fails inside the header returns zero
  and leaves the field alone. When no byte of a reply came it returns zero exactly if what the
  buffer still held reads as a code with 32 low zero bits and a payload it can receive, zeros
  standing in for numbers that are not whole (`NoReplyPassesForSuccessIff`).
* For the same reason a C server over a pipe whose reads fail can take a header that is cut
  short for a request. It does exactly if what the buffer still held completes the header to
  one whose payload fits a block and is all there (`CutRequestIsServedIff`); eleven
  continuation bytes stop it (`NoNumberStopsIt`), nothing at all or zeros do not
  (`ServesForEver`). The Rust
  server stops on every cut header, with `ReadVlqError` (`OnlyRustNoticesTheEnd`).
* Two payload blocks are enough, as `c/README.md` says, if every payload fits a block
  (`TwoBlocksAreEnough`); one is not (`OneBlockIsNotEnough`).
* The decoders accept byte strings that are not encodings: a padding zero group, or bits
  past bit 63 in a tenth byte (`AcceptedIsEncodingIff`, `PaddedZeroIsAccepted`).
* The comment at `crates/ckb-script-ipc-common/src/error.rs:50` gives codes up to 2^64 - 1,
  but a client panics on every code other than 0 to 9 and 20 to 29 (`ClientPanicsIff`). A
  failure `ProtocolError(Ok)` is sent as code 0 and passes for an answer; no other is
  (`OnlyProtocolOkIsSilent`, `ErrorReachesClient`).
* A C packet is two pipe writes when its payload makes no room beside the header, so a peer
  that leaves in between has taken the header alone (`SendPacket`, `InChunks`). A Rust packet
  is one write, taken whole or not at all (`Execute`).
* When the client goes away, the Rust server sees the end of the stream or a failed reply,
  tries to report it, and ends in the `unwrap` of that attempt. Over whole runs it ends so
  exactly when the service never failed (`WholeRuns`, `ServerEnd`; `Execute` for a client that
  leaves anywhere).
* When its callback fails, the C server ends without a response, where the Rust server sends
  the code of the error (`SameServerUntilFailure`). A Rust client of it gets
  `IncompleteVlqSeq` for that call, over every interleaving (`WholeRuns`, `Reported`).
* Rust keeps one byte of a packet's version and C all 64 bits (`PacketReadersAgree`).

## Model

| member | source | states |
|---|---|---|
| Vlq.VlqEncode | crates/ckb-script-ipc-common/src/vlq.rs:5-19 | the loop produces the base-128 digits of the word, least significant first |
| Vlq.VlqDecode | crates/ckb-script-ipc-common/src/vlq.rs:22-36 | on arbitrary bytes: success iff one of the first ten has a clear top bit, the value being the 7-bit groups summed modulo 2^64; else overflow iff at least ten bytes were given |
| Vlq.DecoderRound | crates/ckb-script-ipc-common/src/vlq.rs:25-33 | or-ing in a shifted 7-bit group adds it to the sum modulo 2^64; only the tenth group loses bits |
| Vlq.DecodeEncoding | crates/ckb-script-ipc-common/src/vlq.rs:5-36 | every word decodes from its encoding, whatever follows |
| Vlq.EncodingLength | crates/ckb-script-ipc-common/src/vlq.rs:5-19 | the encoding has at most n bytes iff the value is below 128^n |
| Vlq.EncodingFitsTen | c/ckb_script_ipc.c:390-402 | an encoding never overruns the ten-byte buffer |
| Vlq.NoShorterEncoding | crates/ckb-script-ipc-common/src/vlq.rs:22-36 | no byte string decodes to a value from fewer bytes than its encoding |
| Vlq.AcceptedIsEncodingIff | crates/ckb-script-ipc-common/src/vlq.rs:22-36 | exactly which accepted byte strings re-encode to themselves |
| Vlq.PaddedZeroIsAccepted | crates/ckb-script-ipc-common/src/vlq.rs:22-36 | the bytes 128, 0 decode to zero and are not its encoding |
| Frames.ReadWholePacket | crates/ckb-script-ipc-common/src/packet.rs:52-73 | a packet is recovered from any stream that starts with its bytes, and only they are taken |
| Frames.SmallPacket | crates/ckb-script-ipc-common/src/packet.rs:128-135 | a packet with small header numbers, byte for byte |
| Frames.ReadWholeList | crates/ckb-script-ipc-common/src/packet.rs:107-136 | repeated reads of a concatenation of packets give the list back and take exactly its bytes |
| Frames.WireAllInjective | crates/ckb-script-ipc-common/src/packet.rs:45-74 | two lists of packets, of whatever lengths, never share a byte stream |
| Frames.TruncationIsDetected | crates/ckb-script-ipc-common/src/packet.rs:52-65 | a strict prefix fails with an incomplete-number error when cut in the header and with the exact-read error when cut in the payload, never otherwise |
| Frames.ReadPacketStable | crates/ckb-script-ipc-common/src/packet.rs:151-165 | a verdict other than "more bytes" is independent of what follows |
| NativePipe.Pipe.Read | crates/ckb-script-ipc-common/src/native.rs:310-330 | exact data and new state of a read; no byte lost or reordered; without empty chunks, zero means the end |
| NativePipe.Pipe.Write | crates/ckb-script-ipc-common/src/native.rs:332-351 | an empty write sends nothing, any other is one chunk, taken whole by a peer that is there, or fails |
| NativePipe.ReadsAreFifo | crates/ckb-script-ipc-common/src/native.rs:310-330 | over any run of reads, the bytes returned followed by the unread ones are the bytes handed over |
| NativePipe.WritesReachReads | crates/ckb-script-ipc-common/src/native.rs:310-351 | for every list of writes, empty ones included, and every list of reads: what is read is a prefix of what was written, and the next nonempty read returns nothing iff everything was delivered |
| NativePipe.EndOfStreamIsSoundIff | crates/ckb-script-ipc-common/src/native.rs:332-337 | over all runs of reads, a zero read means the end iff no chunk is empty |
| RustIo.ReadNextVlq | crates/ckb-script-ipc-common/src/packet.rs:151-165 | the byte-at-a-time loop gives the verdict on the whole stream, or the error of a failing read at its end, and leaves the rest of it |
| RustIo.ReadFrom | crates/ckb-script-ipc-common/src/packet.rs:114-127 | the same for a packet, including every error path and a read that fails |
| RustIo.Serialize | crates/ckb-script-ipc-common/src/packet.rs:128-135 | the three numbers and the payload |
| Rpc.ErrorShutdown | crates/ckb-script-ipc-common/src/channel.rs:65-81 | on every stream the server sends success packets and then exactly one packet with the code of the error it returns, nonzero unless that is `ProtocolError(Ok)` |
| Rpc.RequestsAreAnsweredInOrder | crates/ckb-script-ipc-common/src/channel.rs:59-82 | requests laid end to end are answered one by one in order with the state threaded, up to the first failure, however many are buffered |
| Rpc.ErrorReachesClient | crates/ckb-script-ipc-common/src/channel.rs:210-228 | an error packet comes out of the call as the protocol error of the same code iff it is not `ProtocolError(Ok)`, which passes for an answer with an empty payload |
| Rpc.ClientPanicsIff | crates/ckb-script-ipc-common/src/channel.rs:210-228 | on every stream: the `unwrap` is hit iff a packet is read whose code is not an assigned one |
| Sessions.OnRequest | crates/ckb-script-ipc-common/src/channel.rs:65-81 | on any request packet before anything: rejected payload 27, rejected answer 26, a failure of the service its own number, each as the last packet and in the state the service left; else the answer as packet (0, 0, bytes) and the session goes on |
| Sessions.AfterExchanges | crates/ckb-script-ipc-common/src/channel.rs:59-82 | after any number of exchanges the session is the one on what follows, from the state they left |
| Sessions.OnCutRequest | crates/ckb-script-ipc-common/src/packet.rs:107-136 | bytes that end inside a request: 28 in the payload, 25 in the header over a failing read, 23 in the header over a zero read; the service is not called |
| Sessions.OnOverlongNumber | crates/ckb-script-ipc-common/src/packet.rs:151-165 | a header number that does not end within ten bytes: 24, or 25 if a failing read comes before its end |
| Sessions.OnReply | crates/ckb-script-ipc-common/src/channel.rs:210-228 | on any reply packet: the answer for code 0, the error of that number for an assigned code, else the `unwrap` |
| Sessions.OnCutReply | crates/ckb-script-ipc-common/src/packet.rs:114-127 | bytes that end inside a reply: the exact-read error in the payload, in the header the number error of the way reads end |
| Sessions.OnOverlongReply | crates/ckb-script-ipc-common/src/packet.rs:151-165 | an overlong number in a reply: overflow, or the read error if a failing read comes first |
| Sessions.CutRead | crates/ckb-script-ipc-common/src/packet.rs:114-127 | the same three errors as what reading a packet returns, with nothing left |
| Errors.CodesSurviveTheWire | crates/ckb-script-ipc-common/src/error.rs:129-133 | every code comes back as itself, and exactly the unassigned values panic |
| Errors.OnlyProtocolOkIsSilent | crates/ckb-script-ipc-common/src/error.rs:98-127 | only `ProtocolError(Ok)` becomes code 0 |
| RpcChannel.Channel.Round | crates/ckb-script-ipc-common/src/channel.rs:66-69 | receive, serve, reply: result, new state, bytes sent, bytes left |
| RpcChannel.Channel.Execute | crates/ckb-script-ipc-common/src/channel.rs:59-82 | for a client that leaves after any number of packets and either way reads end: the packets sent are the first replies of the server session, exactly as many as it takes; all of them with the session's error returned, or fewer and a panic |
| RpcChannel.Channel.Call | crates/ckb-script-ipc-common/src/channel.rs:123-152 | bytes sent, with version and method zero, result and bytes left, on every path |
| Protocol.StepKeepsInv | crates/ckb-script-ipc-common/src/channel.rs:123-228 | every step of either thread or pipe keeps the bytes of the current request or reply in order and complete |
| Protocol.FillIsAPipeRead | crates/ckb-script-ipc-common/src/native.rs:310-330 | a reader's fill in the interleaving system is the read of the native pipe |
| Protocol.PacketOnItsWay | crates/ckb-script-ipc-common/src/packet.rs:151-165 | a reader asks for more exactly while part of the packet is missing |
| Protocol.TurnIsTheCall | crates/ckb-script-ipc-common/src/channel.rs:132-141 | a server turn on the bytes of a request, read by the client, is the service's answer |
| Protocol.SomeStepIsEnabled | crates/ckb-script-ipc-common/src/native.rs:310-351 | no deadlock: in every reachable state some step is possible until the calls are made and the server has ended |
| Protocol.StepLowersMeasure | crates/ckb-script-ipc-common/src/native.rs:310-351 | every step lowers a measure on unsent and undelivered bytes |
| Protocol.WholeRuns | crates/ckb-script-ipc-common/src/channel.rs:59-228 | for every interleaving, chunking, buffer size, way reads end and server of either library: bounded runs, no deadlock, no client panic, results that are in order what the calls should come to, and a server that ends on the service's error, or, iff the service never failed, dead of the `unwrap` (Rust) or on the end of the stream (C) |
| Protocol.FailureIsFinal | crates/ckb-script-ipc-common/src/channel.rs:71-80 | the first failure reaches its caller as its own code, or as the end of the stream if it is not reported; earlier calls are answered, later ones fail and find the service stopped on the same error |
| CBuffers.CBufReader.Read | c/ckb_script_ipc.c:210-230 | delivers the next bytes, at least one; at the end panics over zero bytes or returns the pipe's error, after which the rest of the buffer passes for data |
| CBuffers.CBufReader.Fill | c/ckb_script_ipc.c:213-218 | one fill: the pipe's data over the front of the buffer, or after a failed read the buffer untouched and all of it counted as filled |
| CBuffers.CBufReader.AtTheEndOfThePipe | c/ckb_script_ipc.c:213-222 | with the pipe at its end the source is the unread data and, if reads fail, all that lies behind it in the buffer |
| CBuffers.CBufWriter.Flush | c/ckb_script_ipc.c:232-245 | moves the buffer to the wire as one chunk or keeps both |
| CBuffers.CBufWriter.Write | c/ckb_script_ipc.c:247-268 | wire followed by buffer grows by exactly the data, through the flush and bypass branches, or not at all; exactly when, and what is on the wire in each case |
| CBuffers.ReadExact | c/ckb_script_ipc.c:289-301 | exactly the next bytes under every pattern of short reads, or the status of the end; how many is the length narrowed to an int |
| CBuffers.ExactLenIsLenIff | c/ckb_script_ipc.c:289-290 | the length read is the low 32 bits, or none from 2^31 on; it is the length asked for iff that is below 2^31 |
| CTransfer.RunWrites | c/ckb_script_ipc.c:232-268 | over any run of writes and flushes up to the first failure, wire followed by buffer is everything written, in order, and the wire only grows; only a peer that leaves makes one fail |
| CCodec.VlqEncodeInto | c/ckb_script_ipc.c:433-454 | the same encoding as Rust, or an error exactly when the buffer is too short |
| CCodec.VlqDecodeFrom | c/ckb_script_ipc.c:456-479 | succeeds on the same inputs as Rust with the same value |
| CCodec.WriteVlq | c/ckb_script_ipc.c:390-402 | writes exactly the encoding |
| CCodec.GatherVlq | c/ckb_script_ipc.c:410-424 | stops at the first stop byte, on an eleventh byte, or with the status of a read that brought nothing |
| CCodec.ReadVlqFrom | c/ckb_script_ipc.c:404-431 | value, bytes taken and return value on every source, failing reads included; the last length check never fires |
| CCodec.FieldsOnStream | c/ckb_script_ipc.c:348-355 | the header reads give the numbers the stream holds; a stream cut short is noticed over a pipe that ends with zero bytes |
| CCodec.CutFields | c/ckb_script_ipc.c:348-355 | a header cut short by a failing read becomes its whole numbers, a zero for the cut one, and the numbers in what the buffer still held, or fails on those |
| CCodec.ReadersAgree | c/ckb_script_ipc.c:404-431 | both libraries' number readers succeed together with the same value and bytes; C fails after exactly eleven bytes |
| CCodec.PacketReadersAgree | c/ckb_script_ipc.c:348-388 | both libraries read packets together from the same bytes, up to the cut of the version |
| CCodec.Interoperation | c/ckb_script_ipc.c:303-346 | each side's reader recovers what the other sent, Rust exactly when the version fits a byte |
| CPackets.SendPacket | c/ckb_script_ipc.c:303-346 | the packet's bytes follow everything written before, or the peer is gone and the wire ends strictly inside the packet; exactly how many chunks it is and where each cut falls, if the buffer has room for the header |
| CPackets.ReceivePacket | c/ckb_script_ipc.c:348-388 | on every source: the packet with its payload in the lowest free block, or the panic or error the source and the memory call for |
| CPackets.ReceivedIsPacket | c/ckb_script_ipc.c:348-388 | what is received behind a packet's header is the packet, if there is room and its payload has fewer than 2^31 bytes |
| CPackets.PacketFields | c/ckb_script_ipc.c:348-355 | on a source that begins with a whole packet, the three header reads give its fields and stop at its payload |
| CTransfer.Transfer | c/ckb_script_ipc.c:303-388 | end to end: same packet, reader at the next byte, for any two buffer sizes, any cutting of the stream and either way its reads end |
| Allocator.FixedAllocator.Malloc | c/ckb_script_ipc.c:69-86 | bitmap search and update are the lowest-free-block step, with the block used up by an oversize request, for up to 64 blocks while the shift is defined |
| Allocator.FixedAllocator.Free | c/ckb_script_ipc.c:88-102 | clears only the bit of the block the pointer starts; panics exactly on other non-NULL pointers |
| Allocator.ShiftIsDefinedIff | c/ckb_script_ipc.c:46-81 | over all histories the shift in malloc is defined iff there are at most 31 blocks, though the init allows 64 |
| Allocator.LiveBlocksAreSeparate | c/ckb_script_ipc.c:56-102 | over every history, live blocks are pairwise disjoint, inside the buffer, and apart from those used up by oversize requests |
| Allocator.MallocIsLowestFree | c/ckb_script_ipc.c:69-86 | malloc gives the lowest free block, fails exactly when the request is too large or every block is taken, and changes the memory on failure exactly when the request is too large and a block was free |
| Allocator.FreeIsOneBlock | c/ckb_script_ipc.c:88-102 | free makes one block free, used up or handed out, and touches no other |
| Allocator.EveryLossIsABlock | c/ckb_script_ipc.c:80-84 | over every history that frees only live blocks, the blocks used up are exactly as many as its oversize requests that found one free, and never fewer |
| Allocator.AllocatorIsDeadIff | c/ckb_script_ipc.c:69-102 | after a history, no continuation gets a block again iff as many oversize requests found a free block as there are blocks |
| Allocator.FirstZeroBit | c/ckb_script_ipc.c:70-78 | complement and trailing-zero count find the lowest unused index |
| CServer.Iterate | c/ckb_script_ipc.c:579-590 | one iteration on every source, with a client that may leave inside the reply: answer, part of an answer, or end; after an answer every payload block is free again |
| CServer.RunServer | c/ckb_script_ipc.c:560-593 | for any number of rounds over any pipes, with a client that may leave between any two chunks: the packets sent are the first replies of those rounds, all of them with their end, or fewer and then a strict front of the next one; the bitmap is zero at every loop head |
| CServer.ServerEnds | c/ckb_script_ipc.c:579-590 | over a pipe that ends with zero bytes the loop ends, within a bound on its rounds |
| CServer.TwoBlocksAreEnough | c/README.md:150-153 | over any pipe, with two blocks and payloads that fit, no number of requests makes an allocation fail, and they are answered in order |
| CServer.RoundOnRequest | c/ckb_script_ipc.c:357-361 | exactly when an allocation fails in a round |
| CServer.OneBlockIsNotEnough | c/README.md:150-153 | over any pipe, with one block a nonempty answer to a nonempty request ends the server |
| CServer.CutRequestEnds | c/ckb_script_ipc.c:348-367 | a request cut by a zero read ends the server with the reader's panic 50, or 53 if its header asks for more than a block |
| CServer.CutHeaderIsARequest | c/ckb_script_ipc.c:404-431 | a round on a header cut short by a failing read is the round on the request that the leftovers of the buffer make of it, or stops before the callback with the error they call for |
| CServer.CutRequestIsServedIff | c/ckb_script_ipc.c:404-431 | exactly when the callback is called on a request nobody finished, and on bytes alone when none of it was sent |
| CServer.NoNumberStopsIt | c/ckb_script_ipc.c:404-431 | eleven continuation bytes left in the buffer end the server with the number reader's error before it serves anything |
| CServer.ServesForEver | c/ckb_script_ipc.c:560-593 | with only zeros left over a failing pipe, every round answers an empty request, for any number of rounds |
| CServer.MallocResponse | c/ckb_script_ipc.c:499-508 | NULL for an empty payload, else the lowest free block holding it, or the panic |
| CServer.ReceiveRequest | c/ckb_script_ipc.c:348-367 | the request as the callback sees it, in block 0 of an empty memory, and every error path; of 2^31 bytes and more, what is read and what the memory held |
| CServer.Call | c/ckb_script_ipc.c:481-490 | bytes sent, or where the request is cut when the server is gone, and return value on every path, failing reads included; the response whenever a whole one with fewer than 2^31 bytes and room came |
| CServer.CallReturnsZeroIff | c/ckb_script_ipc.c:481-490 | exactly when zero is returned, on bytes alone: a whole header with 32 low zero code bits and a payload received, or one that the leftovers of the buffer make of a header cut by a failing read; and exactly when that is a success |
| CServer.CallOnReply | c/ckb_script_ipc.c:481-490 | on every reply there is room for: the code itself below 2^31, else the int congruent to it modulo 2^32; code 2^32 comes out as zero |
| CServer.CutReplyEnds | c/ckb_script_ipc.c:369-388 | the same for a reply and a call |
| CServer.NoReplyPassesForSuccessIff | c/ckb_script_ipc.c:404-431 | exactly when zero is returned though no byte of a reply came, on the bytes left in the buffer |
| CServer.OnlyZerosPassForSuccess | c/ckb_script_ipc.c:404-431 | with only zeros left over a failing pipe, however few, zero is returned |
| Interop.SameServerUntilFailure | c/ckb_script_ipc.c:579-590 | over any pipe: a C server that implements a service sends a Rust client the same bytes as the Rust server until the first failure, and then nothing where Rust sends the error's code |
| Interop.CServerReadsRustRequest | crates/ckb-script-ipc-common/src/packet.rs:77-83 | a C server behind a Rust client sees version 0, method 0 and the serialized request |
| Interop.OnlyRustNoticesTheEnd | crates/ckb-script-ipc-common/src/packet.rs:151-165 | on every header cut by a failing read the Rust server stops with `ReadVlqError` unserved and the Rust call fails; C serves or returns zero exactly under the stated conditions, and always serves when its buffer is empty |
| Interop.QuietServerIsTheCServer | c/ckb_script_ipc.c:579-590 | the server of the interleaving system that ends without a word is the C server: same state, reply and end on a whole request and at the end of the stream |
| CryptoServer.CryptoServer.HasherNew | contracts/ckb-crypto-service/src/main.rs:84-116 | opens a session under the next id, or panics on the last one |
| CryptoServer.CryptoServer.HasherUpdate | contracts/ckb-crypto-service/src/main.rs:117-124 | the table step of an update, with the context never missing |
| CryptoServer.CryptoServer.HasherFinalize | contracts/ckb-crypto-service/src/main.rs:125-131 | the table step of a finalization |
| CryptoServer.SessionsAreIsolated | contracts/ckb-crypto-service/src/main.rs:112-131 | in every interleaved trace a session answers with the digest of its own updates in order, and is refused for ever once finalized |
| CryptoServer.IdsAreFresh | contracts/ckb-crypto-service/src/main.rs:112-115 | ids are handed out in order, below the count, and only they are in the table |
| CryptoServer.OpenedIdsDiffer | contracts/ckb-crypto-service/src/main.rs:112-115 | two openings of one trace never get the same id |
| CryptoServer.UnknownIdIsRefused | contracts/ckb-crypto-service/src/main.rs:117-131 | an id not handed out is refused and nothing changes |
| CryptoServer.OpeningOf | contracts/ckb-crypto-service/src/main.rs:112-115 | every id handed out is that of one opening in the trace |

## Left out

- System calls, process creation and the virtual machine: a pipe is modelled by its bytes only.
- `ckb_read` is not part of this model: a failing one is taken to store nothing in the buffer and no length, and to go on failing. The system's own codes are taken as given.
- CServer.RunServer: stops after a given number of rounds, as its loop need not end; that number is free. It requires blocks below 2^31 bytes, as `CServer.Iterate` does.
- CServer.Iterate: requires blocks below 2^31 bytes, more than the machine's 4 MiB of memory hold, so that what the callback sees depends on the stream alone; `CServer.ReceiveRequest`, `CPackets.ReceivePacket` and `CServer.Call` do not.
- Allocator.FixedAllocator.constructor: requires one to 64 blocks and a length they divide, as the source panics or divides by zero otherwise.
- Allocator.FixedAllocator.Malloc: requires that the index it shifts by, if any, is at most 30, because the shift of an int is undefined beyond; `Allocator.ShiftIsDefinedIff` says when it is.
- Allocator.FixedAllocator.Free: requires that the block a valid pointer starts has an index of at most 30, for the same reason.
- CPackets.ReceivePacket: requires a packet zeroed before the call, as an empty payload leaves its pointer alone and a failed read its numbers.
- A successful write of the system is taken to accept all bytes of its chunk. `buf_flush` checks it (`c/ckb_script_ipc.c:239`) and `buf_write` overwrites the count (`c/ckb_script_ipc.c:259`); a peer that leaves in the middle of a chunk counts as having taken it, or not.
- CBuffers.CBufReader.constructor, CBuffers.CBufWriter.constructor: the buffer is an array of its own and not the tail of a block of the I/O allocator (`new_buffer`); a reader needs at least one byte of it.
- The length arithmetic of the C buffers is on unbounded integers, since array lengths are far below 2^63.
- Memory exhaustion on huge declared payload lengths in Rust.
- Protocol.WholeRuns: the client of the interleaving model is the Rust one and makes one call at a time. The C server in it has room for every payload and runs over the native pipe; over failing reads `CServer` covers it.
- The serializer is a pair of functions with a law; the JSON entry points of the channel add only text conversion.
- The generated service code is one abstract serve function; request and response packets share one type, as their code is the same.
- The digest functions and the signature checks of the crypto service.
- Custom memory and panic hooks, logging, demos and build files.
