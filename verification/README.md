# Galculus: wire stack, agent runtime, memory and token scheduling in Dafny

This project models four parts of Galculus and proves what they keep.

* **Wire stack.** An LLM request or response (little-endian, `LLMMessageCodec`) travels in the payload of a
  message, the message in a packet (big-endian, `Protocol`), the packet in a frame (`Frame`), and the frame over a
  TCP stream cut up by partial `send` and `recv` calls (`TcpByteTransport`).
* **Agent runtime.** `AgentRuntime` over the plain in-memory queue and over frames on the in-memory byte queue, as
  one state machine whose backlog is either a list of messages or a list of byte strings; and over a TCP connection,
  up to messages that one runtime sends and another drains.
* **Memory.** The fixed-block pool, the bump arena with its bit mask, per-agent budgets, scoped reservations and the
  memory manager.
* **Tokens.** The token scheduler, and any nesting of scheduled and memory-aware LLM runtimes around a backend.

## How it is built

Each C++ function that changes state step by step is a Dafny method, and each such class is a Dafny class. The
method's contract equates its result and new state with a function; the laws are lemmas about those functions, over
single calls and by induction over whole runs. Beside these, laws that do not go through the
functions' bodies fix what the operations compute: byte by byte for the formats, field by field for the state, and case
by case for the errors.

Machine words are explicit. Byte strings have no length limit, and the casts that cut a size down to 32 bits (in every
length prefix), to a signed `int` (in `send_bytes` and `receive_bytes`) and the 32- and 64-bit sums (in the checksum,
the pool, the arena, the budgets and the scheduler) wrap as in C++. Laws that fail when something wraps are stated as
equivalences with the condition under which they hold:

* a frame or message round trip holds exactly below 2^32 bytes per prefix;
* a successful `send_bytes` has written everything exactly below 2^31 bytes, because from there on the size becomes
  negative or too small and the loop ends early with success; `receive_bytes` hands over the frame at the front of the
  stream exactly when the part after the header is below 2^31 bytes; a whole list of frames, messages or requests comes
  out at the other end exactly when each frame is below 2^31 bytes;
* the runtime over frames follows the runtime over a plain queue, operation by operation, exactly when each packet it
  sends is below 2^32 bytes;
* a fixed-block pool keeps its blocks in its storage exactly when the product of block size and block count does not wrap
  (`BlockPools.WrappedStorage` is a pool that hands out a block far outside);
* `MemoryArena::allocate` keeps to its buffer exactly when its sums do not wrap or the request is refused anyway
  (`Arenas.WrappedSizeAccepted` is a request that wraps past the capacity check);
* a budget reservation is given back in full exactly when `used + bytes` does not wrap or is refused
  (`Budgets.WrappedReservation`); a call through nested wrappers clears the usage of exactly the agents whose
  reservation wrapped on the way;
* tokens are conserved by a run of `schedule` exactly when no admitted total wraps (`TokenScheduling.WrappedTotalAdmitted`),
  and calls cost exactly what was taken less what was reported when no release passes the ceiling.

A decreased frame size can go unnoticed although every increased one is caught (`Frames.SizeOverwritten`,
`Frames.SizeShrunkUnnoticed`).

`TokenScheduler::release` adds the reported tokens back to the budget, so a call costs what was taken less what the
backend reports having used; the model follows the code.

The virtual interfaces become datatypes with one constructor per implementation: `Transport`, `ByteTransport`, and
`Stack` for `LLMRuntime`. The operating system's part of a transfer is a script of return values of `send`, `recv` and
`select`; the laws hold for every script. The order in which an `unordered_map` is walked through is a parameter; the
laws hold for every order. An agent is the list of callbacks it has had. A backend is a script of answers, each with the
scratch memory it asks for. Addresses are numbers, and where a buffer lies is a parameter.

| file | contents |
|---|---|
| `end_to_end.dfy` | LLM requests through all layers of the wire stack |
| `bytes.dfy`, `arithmetic.dfy` | fixed-width integers, byte strings, wrapping, bitwise `and`, products |
| `frame.dfy`, `message.dfy`, `protocol.dfy`, `envelope.dfy` | frames, packets, messages in frames |
| `llm_types.dfy`, `llm_codec.dfy`, `llm_codec_laws.dfy`, `llm_codec_code.dfy` | the LLM codec: layout, laws, `Writer` and `Reader` |
| `tcp_stream.dfy`, `tcp_transport.dfy` | partial transfers: laws, loops over a socket |
| `transports.dfy` | in-memory transports, message-to-byte adapter, framed transport |
| `runtime.dfy`, `runtime_laws.dfy`, `lifecycle.dfy`, `runtime_tcp.dfy`, `lifecycle_tcp.dfy`, `runtime_code.dfy` | agent runtime: state machine, drain and refinement, callbacks and ids, over TCP, code |
| `memory_block.dfy`, `pool.dfy`, `arena.dfy`, `budgets.dfy`, `memory_manager.dfy` | memory |
| `scheduler.dfy`, `llm_stack.dfy`, `llm_stack_code.dfy` | token scheduling, stacked LLM runtimes |

## Model

| member | source | states |
|---|---|---|
| `EndToEnd.RequestsEndToEnd` | llm_bridge/src/LLMMessageCodec.cpp:183-262 | any list of LLM requests through codec, packets, frames and a stream chopped up in any way can come out unchanged and in order, and without failures does and leaves nothing, exactly when each frame is below 2^31 bytes; if then some call fails, what comes out is still the first of what went in |
| `TcpStream.MessagesEndToEnd` | core/src/tcp_byte_transport.cpp:35-233 | any list of messages sent over one stream with any partial sends and reads can come out whole, and without failures does and leaves nothing, exactly when each frame is below 2^31 bytes; if then some call fails, what is received is still the first of what was sent |
| `TcpStream.StreamReassembly` | core/src/tcp_byte_transport.cpp:185-233 | for every chopping of sends and receives: all the frames can be received, and without failures are with nothing left over, exactly when each is below 2^31 bytes; then for every failure the frames received are the first of those sent, unchanged and in order |
| `TcpStream.ReassemblesSized` | core/src/tcp_byte_transport.cpp:185-233 | if every frame of 2^31 bytes or more has a size that, cast to int, is not above 0, these leave no trace although their sends succeed: received are the first of the others, and without failures all of them |
| `TcpStream.ReassemblesSizedExact` | core/src/tcp_byte_transport.cpp:185-233 | without failures just the frames below 2^31 bytes come in and use up the stream exactly when the size of every other one, cast to int, is not above 0 |
| `TcpStream.WireHoldsFrames` | core/src/tcp_byte_transport.cpp:185-197 | if every frame of 2^31 bytes or more has a size that, cast to int, is not above 0, the wire carries a prefix of the others end to end, all of them when every send succeeds |
| `TcpStream.WireHoldsExact` | core/src/tcp_byte_transport.cpp:185-197 | when every send succeeds, the wire carries just the frames below 2^31 bytes exactly when the size of every other one, cast to int, is not above 0 |
| `TcpStream.WireExact` | core/src/tcp_byte_transport.cpp:185-197 | when every send succeeds the wire carries the frames end to end exactly when each is below 2^31 bytes; no failing call means every send succeeds |
| `TcpStream.FramesReceived` | core/src/tcp_byte_transport.cpp:199-233 | from any prefix of the frames end to end, where payload size + 4 is below 2^31 for each, successive receives return the first frames, each ending on its boundary |
| `TcpStream.FramesReceivedExact` | core/src/tcp_byte_transport.cpp:199-233 | without failures exactly the frames are received from the whole stream, with nothing left, if and only if payload size + 4 is below 2^31 for each |
| `TcpStream.SendAllTakes` | core/src/tcp_byte_transport.cpp:35-54 | success exactly when all bytes were taken; otherwise a strict prefix was; no failing call means success |
| `TcpStream.RecvAllConserves` | core/src/tcp_byte_transport.cpp:56-75 | received bytes and what is left of the stream are the stream; success exactly when the wanted number came |
| `TcpStream.SendBytesComplete` | core/src/tcp_byte_transport.cpp:185-197 | a successful send has written everything exactly when the size is below 2^31 |
| `TcpStream.SendBytesExact` | core/src/tcp_byte_transport.cpp:185-197 | a successful send has written as many bytes from the front as the int cast of their number says; nothing to send is a failure |
| `TcpStream.Int32Exact` | core/src/tcp_byte_transport.cpp:192-196 | the cast keeps the low 32 bits and takes them as signed |
| `TcpStream.FrameReceived` | core/src/tcp_byte_transport.cpp:199-233 | where payload size + 4 is below 2^31, a frame at the front of the stream is what is returned, and the stream then starts behind it |
| `TcpStream.ReceiveBytesExact` | core/src/tcp_byte_transport.cpp:199-233 | for any payload, a completed receive returns the frame at the front and stops on its boundary exactly when payload size + 4 is below 2^31 |
| `TcpStream.ReceivedExactly` | core/src/tcp_byte_transport.cpp:199-233 | for any stream: what a completed receive returns and leaves, byte by byte, whatever size the header gives; without failures just a stream that is too short yields nothing |
| `TcpStream.DownIsInert` | core/src/tcp_byte_transport.cpp:185-238 | without a connection nothing is sent, received or waited for |
| `TcpStream.BrokenFrameNotReceived` | core/src/tcp_byte_transport.cpp:199-233 | where payload size + 4 is below 2^31, a frame that breaks off is never returned |
| `TcpStream.BrokenFrameExact` | core/src/tcp_byte_transport.cpp:199-233 | for any payload, that its frame is never returned wherever it breaks off holds exactly when payload size + 4 is below 2^31 |
| `TcpTransport.SendAll` | core/src/tcp_byte_transport.cpp:35-54 | the loop writes what the scripted calls let through, and reports success exactly when that is the requested part |
| `TcpTransport.RecvAll` | core/src/tcp_byte_transport.cpp:56-75 | the loop fills the buffer from its start with the bytes received, in order, and touches nothing else |
| `TcpTransport.ReadU32BE` | core/src/tcp_byte_transport.cpp:77-83 | the big-endian value of four bytes |
| `TcpTransport.TcpByteTransport.SendBytes` | core/src/tcp_byte_transport.cpp:185-197 | not connected or nothing to send: refused; otherwise the specified transfer, with the size cast to int |
| `TcpTransport.TcpByteTransport.ReceiveBytes` | core/src/tcp_byte_transport.cpp:199-233 | not connected: nothing; otherwise header, length from its last four bytes with 32-bit wrap, and the specified rest |
| `TcpTransport.TcpByteTransport.Empty` | core/src/tcp_byte_transport.cpp:235-257 | not connected: empty without asking; otherwise what the next select call answers |
| `Envelopes.Carried` | core/src/message_byte_adapter.cpp:11-55 | a message survives packet and frame exactly when its packet is below 2^32 bytes |
| `Envelopes.MessageOfExact` | core/src/message_byte_adapter.cpp:25-55 | a byte string is taken for a message exactly when it starts with the frame of a payload below 2^32 bytes that starts with the packet of that message |
| `Envelopes.OneByteChanged` | core/src/message_byte_adapter.cpp:36-42 | the frame of a message with one byte of magic number, packet or checksum changed is no message |
| `Transports.CorruptionReported` | core/src/message_byte_adapter.cpp:36-42 | for such a frame the adapter answers InvalidArgument and no message |
| `Frames.ExactAcceptance` | core/src/frame.cpp:44-126 | decode accepts exactly the byte strings that start with an encoded frame, returns its payload and consumes just it |
| `Frames.RoundTrip` | core/src/frame.cpp:44-126 | decode after encode gives the payload back exactly when it is below 2^32 bytes |
| `Frames.PrefixFree` | core/src/frame.cpp:44-57 | no encoded frame is a prefix of another; the payload is determined by the frame |
| `Frames.ExtensionStable` | core/src/frame.cpp:59-126 | bytes after an accepted frame change nothing |
| `Frames.CutShortRejected` | core/src/frame.cpp:95-101 | cutting an accepted frame short anywhere makes it rejected |
| `Frames.StrictPrefixRejected` | core/src/frame.cpp:95-101 | no strict prefix of an encoded frame decodes |
| `Frames.OneByteChanged` | core/src/frame.cpp:76-122 | changing one byte of magic, payload or checksum is always rejected |
| `Frames.PayloadSwap` | core/src/frame.cpp:103-122 | a payload replaced by one of equal length is accepted exactly when the checksums agree |
| `Frames.SizeOverwritten` | core/src/frame.cpp:84-122 | an overwritten size is accepted exactly when it is not larger and the four bytes after the shortened payload are its checksum; a larger one is an incomplete frame |
| `Frames.SizeShrunkUnnoticed` | core/src/frame.cpp:84-122 | a frame whose decreased size is accepted |
| `Frames.EmptyFrame` | core/src/frame.cpp:44-57 | the bytes of the empty frame: GFME, size 0, checksum 0 |
| `Frames.FrameBytes` | core/src/frame.cpp:44-57 | a frame is GFME, the size, the payload and the checksum, both integers digit by digit |
| `Frames.ChecksumAdds` | core/src/frame.cpp:32-40 | the checksum of nothing is 0, of one byte that byte, of two strings end to end the sum modulo 2^32 |
| `Frames.DecodeErrors` | core/src/frame.cpp:59-126 | for each error, the byte strings that are rejected with it, in terms of their length and bytes; the missing checksum is none of them |
| `Frames.WriteU32` | core/src/frame.cpp:7-12 | appends the four big-endian bytes |
| `Frames.ReadU32` | core/src/frame.cpp:14-30 | fails exactly past the end, otherwise the big-endian value |
| `Frames.ComputeChecksum` | core/src/frame.cpp:32-40 | the sum of the bytes modulo 2^32 |
| `Frames.EncodeFrame` | core/src/frame.cpp:44-57 | builds the frame layout whose laws are proved |
| `Frames.DecodeFrame` | core/src/frame.cpp:59-126 | returns the payload, or the error of the first check that fails; the missing-checksum error cannot occur |
| `Protocols.ExactAcceptance` | core/src/protocol.cpp:144-255 | decode accepts exactly the byte strings that start with the encoding of a message whose fields fit, and returns that message |
| `Protocols.RoundTrip` | core/src/protocol.cpp:144-255 | a message survives encoding exactly when each field is below 2^32 bytes; the packet is 31 bytes plus the fields |
| `Protocols.PrefixFree` | core/src/protocol.cpp:144-160 | no encoded packet is a prefix of another; the message is determined by the packet |
| `Protocols.ExtensionStable` | core/src/protocol.cpp:162-255 | bytes after an accepted packet change nothing |
| `Protocols.CutShortRejected` | core/src/protocol.cpp:97-140 | cutting an accepted packet short anywhere makes it rejected |
| `Protocols.StrictPrefixRejected` | core/src/protocol.cpp:97-140 | no strict prefix of an encoded packet decodes |
| `Protocols.PacketStart` | core/src/protocol.cpp:144-149 | a packet starts with GCLC, version 1 and the type byte |
| `Protocols.PacketBytes` | core/src/protocol.cpp:144-160 | a packet is GCLC, version 1, the type byte, the id and the four fields, each behind its length, in this order |
| `Protocols.ShortPacket` | core/src/protocol.cpp:144-160 | the 36 bytes of one packet |
| `Protocols.HeaderErrors` | core/src/protocol.cpp:162-213 | for each error of the first fifteen bytes, the byte strings that have it |
| `Protocols.DecodeErrors` | core/src/protocol.cpp:162-255 | behind a good header the error is that of the first field that is cut off |
| `Bytes.BigEndianDigit` | core/src/protocol.cpp:10-26 | byte i of a big-endian integer of any width, most significant first |
| `Protocols.WriteU16` | core/src/protocol.cpp:10-13 | appends the two big-endian bytes |
| `Protocols.WriteU32` | core/src/protocol.cpp:15-20 | appends the four big-endian bytes |
| `Protocols.WriteU64` | core/src/protocol.cpp:22-26 | the shifting loop appends the eight big-endian bytes |
| `Protocols.WriteField` | core/src/protocol.cpp:28-39 | appends the length, cut to 32 bits, and the bytes |
| `Protocols.EncodeMessage` | core/src/protocol.cpp:144-160 | builds the packet layout whose laws are proved |
| `Protocols.ReadU16` | core/src/protocol.cpp:41-57 | fails exactly past the end, otherwise value and new offset |
| `Protocols.ReadU32` | core/src/protocol.cpp:59-76 | fails exactly past the end, otherwise value and new offset |
| `Protocols.ReadU64` | core/src/protocol.cpp:78-95 | fails exactly past the end, otherwise value and new offset; the shifts drop no bits |
| `Protocols.ReadString` | core/src/protocol.cpp:97-140 | fails exactly when prefix or content is cut off, otherwise content and new offset |
| `Protocols.DecodeMessage` | core/src/protocol.cpp:162-255 | returns the message, or the error of the first field that fails |
| `LlmCodecLaws.RequestRoundTrip` | llm_bridge/src/LLMMessageCodec.cpp:183-262 | a request with any list of messages survives encoding exactly when ids, contents and count fit 32 bits; the reader stops at the end; the size is 43 plus the id plus 5 and the content per message |
| `LlmCodecLaws.RequestExact` | llm_bridge/src/LLMMessageCodec.cpp:222-262 | a payload reads as a request exactly when its first bytes are the encoding up to the stream byte |
| `LlmCodecLaws.RequestCarried` | llm_bridge/src/LLMMessageCodec.cpp:183-262 | a request comes through codec, packet and frame unchanged exactly when the packet is below 2^32 bytes |
| `LlmCodecLaws.RequestNormalForm` | llm_bridge/src/LLMMessageCodec.cpp:222-262 | re-encoding an accepted request gives back the consumed bytes with the stream byte made 0 or 1; a second decode sees the same |
| `LlmCodecLaws.MessageCountBound` | llm_bridge/src/LLMMessageCodec.cpp:248-261 | an accepted request holds at most a fifth of its size in messages, whatever count it declares |
| `LlmCodecLaws.RequestExtensionStable` | llm_bridge/src/LLMMessageCodec.cpp:229-261 | bytes after an accepted request change nothing |
| `LlmCodecLaws.RequestCutShort` | llm_bridge/src/LLMMessageCodec.cpp:103-108 | cutting an accepted request short anywhere makes it rejected |
| `LlmCodecLaws.RequestStrictPrefixRejected` | llm_bridge/src/LLMMessageCodec.cpp:103-108 | no strict prefix of an encoded request decodes |
| `LlmCodecLaws.TurnsExact` | llm_bridge/src/LLMMessageCodec.cpp:250-259 | the message loop accepts exactly the encoding of that many messages with known roles |
| `LlmCodecLaws.ResponseRoundTrip` | llm_bridge/src/LLMMessageCodec.cpp:264-319 | a response survives encoding exactly when its strings fit 32 bits |
| `LlmCodecLaws.ResponseExact` | llm_bridge/src/LLMMessageCodec.cpp:292-319 | a payload reads as a response exactly when its first bytes are the encoding up to the status byte |
| `LlmCodecLaws.ResponseCarried` | llm_bridge/src/LLMMessageCodec.cpp:264-319 | a response comes through codec, packet and frame unchanged exactly when the packet is below 2^32 bytes |
| `LlmCodecLaws.ResponseNormalForm` | llm_bridge/src/LLMMessageCodec.cpp:148-158 | re-encoding an accepted response gives back the consumed bytes with a status byte above 4 made 4; a second decode sees the same |
| `LlmCodecLaws.ResponseExtensionStable` | llm_bridge/src/LLMMessageCodec.cpp:292-319 | bytes after an accepted response change nothing |
| `LlmCodecLaws.ResponseCutShort` | llm_bridge/src/LLMMessageCodec.cpp:103-108 | cutting an accepted response short anywhere makes it rejected |
| `LlmCodecLaws.ResponseStrictPrefixRejected` | llm_bridge/src/LLMMessageCodec.cpp:103-108 | no strict prefix of an encoded response decodes |
| `LlmCodecLaws.RoleExact` | llm_bridge/src/LLMMessageCodec.cpp:114-134 | a byte decodes to a role exactly when the role encodes to it |
| `LlmCodecLaws.StatusNormalForm` | llm_bridge/src/LLMMessageCodec.cpp:136-158 | decoding and encoding a status byte keeps 0 to 4 and makes the rest 4 |
| `LlmCodecLaws.RequestFields` | llm_bridge/src/LLMMessageCodec.cpp:183-220 | a request is a message of id 0 and event LLM_REQUEST whose payload is GLM_REQ_V1, id, the five numbers, the stream byte, the message count and the messages, in this order |
| `LlmCodecLaws.TurnsFields` | llm_bridge/src/LLMMessageCodec.cpp:207-211 | each message of a request is its role number 0 to 3, the length of its content and the content |
| `LlmCodecLaws.ResponseFields` | llm_bridge/src/LLMMessageCodec.cpp:264-290 | a response is a message of id 0 and event LLM_RESPONSE whose payload is GLM_RES_V1, id, status, text, the three numbers and the error, in this order |
| `LlmCodecLaws.RoleNumbers` | llm_bridge/src/LLMMessageCodec.cpp:114-123 | system, user, assistant and tool are 0, 1, 2 and 3 |
| `LlmCodecLaws.StatusNumbers` | llm_bridge/src/LLMMessageCodec.cpp:136-146 | the five statuses are 0 to 4 |
| `LlmCodecLaws.RequestErrors` | llm_bridge/src/LLMMessageCodec.cpp:222-262 | exactly messages of another event, those that start with another magic string, and those where a byte above 3 stands in place of a declared message are refused as such; the other failures are truncations |
| `LlmCodecLaws.TurnsErrors` | llm_bridge/src/LLMMessageCodec.cpp:250-259 | reading the messages ends with an unknown role exactly where one stands behind fewer messages than declared |
| `LlmCodecLaws.ResponseErrors` | llm_bridge/src/LLMMessageCodec.cpp:292-319 | exactly messages of another event and those that start with another magic string are refused as such |
| `Bytes.LittleEndianDigit` | llm_bridge/src/LLMMessageCodec.cpp:26-31 | byte i of a little-endian integer of any width, least significant first |
| `LlmCodecCode.Writer.U8` | llm_bridge/src/LLMMessageCodec.cpp:22-24 | appends the byte |
| `LlmCodecCode.Writer.U32` | llm_bridge/src/LLMMessageCodec.cpp:26-31 | appends the four little-endian bytes |
| `LlmCodecCode.Writer.F32` | llm_bridge/src/LLMMessageCodec.cpp:33-39 | appends the 32 bits as they are |
| `LlmCodecCode.Writer.Text` | llm_bridge/src/LLMMessageCodec.cpp:41-49 | appends the length, cut to 32 bits, and the bytes |
| `LlmCodecCode.Reader.U8` | llm_bridge/src/LLMMessageCodec.cpp:64-67 | throws exactly past the end, otherwise the byte, one further on |
| `LlmCodecCode.Reader.U32` | llm_bridge/src/LLMMessageCodec.cpp:69-80 | throws exactly past the end, otherwise the value, four further on |
| `LlmCodecCode.Reader.Text` | llm_bridge/src/LLMMessageCodec.cpp:90-101 | throws exactly when prefix or content is cut off |
| `LlmCodecCode.WriteRequest` | llm_bridge/src/LLMMessageCodec.cpp:183-220 | the writer and its message loop build the request layout whose laws are proved |
| `LlmCodecCode.ReadTurnsLoop` | llm_bridge/src/LLMMessageCodec.cpp:250-259 | the loop reads exactly the declared number of messages, or throws where the first one fails |
| `LlmCodecCode.ParseRequest` | llm_bridge/src/LLMMessageCodec.cpp:222-262 | returns the request, or the failure of the first field that throws |
| `LlmCodecCode.WriteResponse` | llm_bridge/src/LLMMessageCodec.cpp:264-290 | builds the response layout whose laws are proved |
| `LlmCodecCode.ParseResponse` | llm_bridge/src/LLMMessageCodec.cpp:292-319 | returns the response, or the failure of the first field that throws |
| `Transports.InMemoryTransport.Send` | core/src/in_memory_transport.cpp:5-9 | always succeeds and appends |
| `Transports.InMemoryTransport.Receive` | core/src/in_memory_transport.cpp:11-22 | first in, first out; nothing from an empty queue |
| `Transports.InMemoryByteTransport.SendBytes` | core/src/in_memory_byte_transport.cpp:5-11 | always succeeds and appends |
| `Transports.InMemoryByteTransport.ReceiveBytes` | core/src/in_memory_byte_transport.cpp:13-25 | first in, first out; nothing from an empty queue |
| `Transports.ByteTransport.Empty` | core/src/in_memory_byte_transport.cpp:27-30 | whether anything waits, in memory or according to the connection; nothing is taken |
| `Transports.MessageByteAdapter.SendMessage` | core/src/message_byte_adapter.cpp:11-23 | the frame of the message goes out; an error is exactly a failed send |
| `Transports.MessageByteAdapter.ReceiveMessage` | core/src/message_byte_adapter.cpp:25-55 | the message of the frame taken, or the error of the layer that rejects it, or nothing to receive |
| `Transports.FramedMessageTransport.Send` | core/src/framed_message_transport.cpp:8-10 | in memory the frame of the message is queued; over TCP it is written as specified, and fails as that does |
| `Transports.FramedMessageTransport.Receive` | core/src/framed_message_transport.cpp:12-20 | a corrupt frame is taken and reported as no message, in memory as over TCP; over TCP a failed receive is no message either |
| `AgentSystemLaws.RunRefines` | core/src/framed_message_transport.cpp:8-24 | over whole runs whose packets are below 2^32 bytes, with corrupt byte strings arriving anywhere, the runtime over frames ends where the runtime over a plain queue of the decodable messages ends: same agents, callbacks, ids and waiting messages |
| `AgentSystemLaws.StepRefines` | core/src/runtime.cpp:10-155 | each operation over frames is the same operation, or none, over the plain queue exactly when each packet it sends is below 2^32 bytes |
| `AgentSystemLaws.ThroughoutExact` | core/src/runtime.cpp:10-155 | every operation of a run is matched over the plain queue exactly when each packet sent in the run is below 2^32 bytes |
| `AgentSystemLaws.DrainRefines` | core/src/runtime.cpp:145-155 | draining frames with corrupt ones among them is draining the messages that decode |
| `AgentSystemLaws.RunOnceRefines` | core/src/runtime.cpp:128-143 | taking a corrupt frame succeeds and is no step of the plain queue; everything else is the same step with the same code |
| `AgentSystemLaws.SendVisible` | core/src/message_byte_adapter.cpp:11-23 | sending through frames is sending the message exactly when its packet is below 2^32 bytes |
| `AgentSystemLaws.DrainDelivers` | core/src/runtime.cpp:145-155 | running: exactly the messages before the first unknown target are delivered in order, that one is dropped, the rest stays; stopped: nothing changes |
| `AgentSystemLaws.FramedDrainDelivers` | core/src/runtime.cpp:145-155 | running, over frames: corrupt ones are skipped, exactly the messages before the first unknown target are delivered in order, the frame with that one is dropped, and just the frames behind it are left; stopped: nothing changes |
| `AgentsOverTcp.MessagesBetweenRuntimes` | core/src/runtime.cpp:56-155 | messages sent over a connection that does not fail and drained by a running runtime at its other end, where frames of 2^31 bytes or more have a size that, cast to int, is not above 0: just those with frames below 2^31 bytes come in, and of these the ones before the first unknown target are delivered in order |
| `AgentsOverTcp.DrainLinkIsDrain` | core/src/runtime.cpp:128-155 | draining a connection, whatever fails on it and whatever select answers, does to the agents what draining the frames that come in over it does when they wait in memory |
| `AgentsOverTcp.ArrivingFrames` | core/src/runtime.cpp:145-155 | frames that make up the whole stream, with payload size + 4 below 2^31 for each, all come in, unchanged and in order, while select reports something to read and no call fails |
| `AgentsOverTcp.ExhaustedSpins` | core/src/runtime.cpp:145-155 | on a connection whose stream is used up, every poll that reports something to read is a turn that changes nothing; drain ends only at a poll that reports nothing |
| `AgentLifecycle.Lifecycle` | core/src/runtime.cpp:10-143 | over every run in memory, the callbacks of an agent registered while stopped form (start msg* stop)* (start msg*)?; registered while running they lack only the first start; the last session is open exactly while it is registered and the runtime runs |
| `AgentLifecycleOverTcp.LifecycleOverTcp` | core/src/runtime.cpp:10-155 | the same over every run over TCP, whatever comes in, fails or changes on the connection |
| `AgentLifecycle.FollowedIsWord` | core/src/runtime.cpp:104-143 | a log that is in order is a word of that language |
| `AgentLifecycle.WordFollows` | core/src/runtime.cpp:104-143 | every word of that language is in order |
| `AgentLifecycle.RunInOrder` | core/src/runtime.cpp:104-143 | every run in memory keeps every log in order |
| `AgentLifecycleOverTcp.RunOverInOrder` | core/src/runtime.cpp:104-155 | every run over TCP keeps every log in order |
| `AgentLifecycle.SilentAfterUnregister` | core/src/runtime.cpp:38-54 | after unregistering an agent nothing is logged for it, over every run in memory |
| `AgentLifecycleOverTcp.SilentOverTcp` | core/src/runtime.cpp:38-54 | nor over any run over TCP |
| `AgentLifecycle.RunNumbers` | core/src/runtime.cpp:169-171 | over every run in memory, the messages the runtime makes are numbered from the counter on without gap or repeat, up to the 64-bit wrap |
| `AgentLifecycleOverTcp.RunOverNumbers` | core/src/runtime.cpp:67-102 | over every run over TCP, the messages the runtime makes, sent or not, are numbered so |
| `AgentLifecycle.FreshRunNumbers` | core/src/runtime.cpp:67-102 | in a new runtime the ids are 1, 2, 3 and so on exactly if fewer than 2^64 messages are made |
| `AgentLifecycle.MadeIsQueued` | core/src/runtime.cpp:67-102 | while only publish and broadcast are called, the queue holds exactly what was made, in order |
| `AgentLifecycle.BroadcastReachesAll` | core/src/runtime.cpp:82-102 | a broadcast into an empty queue and a drain while running reach every agent exactly once, for any order of the map, and leave nothing queued |
| `AgentSystem.StepValid` | core/src/runtime.cpp:10-155 | every operation keeps names and agents matched one to one |
| `AgentSystem.RunOnceStep` | core/src/runtime.cpp:145-155 | each successful turn of the drain loop shortens the queue, so it ends |
| `AgentSystemLaws.FreshIsIdle` | core/include/galculus/core/runtime.hpp:50-53 | a new runtime is stopped, has no agents and numbers from 1 |
| `AgentSystemLaws.RegisterEffect` | core/src/runtime.cpp:10-36 | just a nameless or null agent is invalid and just a taken name exists already; otherwise the name gets an agent of its own with an empty log, and everything else stays |
| `AgentSystemLaws.UnregisterEffect` | core/src/runtime.cpp:38-54 | just unknown names are an error; otherwise the name goes, its agent gets a stop exactly if the runtime runs, and everything else stays |
| `AgentSystemLaws.StartEffect` | core/src/runtime.cpp:104-114 | from stopped: running, each registered agent has one start more, every other log, the names, the counter and the queue stay; from running: nothing changes |
| `AgentSystemLaws.StopEffect` | core/src/runtime.cpp:116-126 | from running: stopped, each registered agent has one stop more, everything else stays; from stopped: nothing changes |
| `AgentSystemLaws.DispatchEffect` | core/src/runtime.cpp:173-185 | the agent named by the target gets the message and no other does; an unknown target is an error and changes nothing |
| `AgentSystemLaws.PublishEffect` | core/src/runtime.cpp:67-80 | the message with the next number, type 0, and source, target and event as given is the last that waits |
| `AgentSystemLaws.SendEffect` | core/src/runtime.cpp:56-65 | the message, or its frame, is the last that waits, and nothing else changes |
| `AgentSystemLaws.TurnEffect` | core/src/runtime.cpp:128-143 | refused just when stopped; otherwise the first that waits goes, and if it is a message it is dispatched |
| `AgentsOverTcp.TurnEffect` | core/src/runtime.cpp:128-143 | over TCP: refused just when stopped; otherwise what the connection hands over is dispatched if it is a message |
| `AgentRuntimeCode.AgentRuntime.RegisterAgent` | core/src/runtime.cpp:10-36 | null and empty names are invalid, taken names exist already, otherwise a new agent with an empty log |
| `AgentRuntimeCode.AgentRuntime.UnregisterAgent` | core/src/runtime.cpp:38-54 | unknown names are an error; otherwise stop if running, then gone |
| `AgentRuntimeCode.AgentRuntime.SendMessage` | core/src/runtime.cpp:56-65 | in memory the message waits at the end of the transport; over TCP its frame is written, and a failed write is a transport error |
| `AgentRuntimeCode.AgentRuntime.PublishEvent` | core/src/runtime.cpp:67-80 | one message with the next id, in memory at the end of the transport, over TCP written; the id is used up even if that fails |
| `AgentRuntimeCode.AgentRuntime.BroadcastEvent` | core/src/runtime.cpp:82-102 | one message to each registered name, in some order of the map; over TCP the first failed write ends it, with just the names before it served and one id used per name tried |
| `AgentRuntimeCode.AgentRuntime.StartAgents` | core/src/runtime.cpp:104-114 | every agent is started once, unless running already |
| `AgentRuntimeCode.AgentRuntime.StopAgents` | core/src/runtime.cpp:116-126 | every agent is stopped once, unless stopped already |
| `AgentRuntimeCode.AgentRuntime.DispatchMessage` | core/src/runtime.cpp:173-185 | delivery to the target, or an unknown-target error |
| `AgentRuntimeCode.AgentRuntime.RunOne` | core/src/runtime.cpp:128-143 | error when stopped, success when nothing is received, otherwise dispatch, in memory as over TCP |
| `AgentRuntimeCode.AgentRuntime.DrainAll` | core/src/runtime.cpp:145-155 | the loop ends in the state whose deliveries are specified, in memory as over TCP |
| `BlockPools.PoolRun` | memory/src/FixedBlockPool.cpp:8-67 | a new pool does what it is for after every run of allocations and frees exactly when block size times block count is below 2^64: held blocks lie in the storage and are disjoint, the counter is their number, allocation fails exactly when none is left, free succeeds for exactly the held blocks, and the byte figures add up; from 2^64 on some run hands out a block outside the storage |
| `BlockPools.PeakExact` | memory/src/FixedBlockPool.cpp:34-35 | over every run the peak is the most blocks that were ever in use |
| `BlockPools.WrappedStorage` | memory/src/FixedBlockPool.cpp:14 | two blocks of 2^63 + 8 bytes get 16 bytes of storage; block 1 is handed out outside it, freeing it is refused, and more is used than the capacity |
| `BlockPools.AllocateAgrees` | memory/src/FixedBlockPool.cpp:23-41 | stack, bitmap and counter stay in agreement; a block comes out exactly when one is free, and where the product of the sizes does not wrap it is one not live before |
| `BlockPools.FreeAgrees` | memory/src/FixedBlockPool.cpp:43-67 | succeeds for exactly the live blocks that start inside the storage, which are all the live ones where the product of the sizes does not wrap; reuses the block next, never underflows the counter, never computes an index out of range |
| `BlockPools.NewPoolAgrees` | memory/src/FixedBlockPool.cpp:8-21 | a new pool is in agreement with all blocks free |
| `BlockPools.UsedCountsLive` | memory/src/FixedBlockPool.cpp:31-32 | the counter is the number of bits set |
| `BlockPools.LiveIsOwned` | memory/src/FixedBlockPool.cpp:103-112 | where the product of the sizes does not wrap, a live block starts in the storage, at a multiple of the block size |
| `BlockPools.StatsHonest` | memory/src/FixedBlockPool.cpp:69-85 | where the product of the sizes does not wrap, capacity, used and peak are the bytes of all blocks, of the live ones and of the most live at once; used and free make up the capacity |
| `BlockPools.FixedBlockPool.constructor` | memory/src/FixedBlockPool.cpp:8-21 | the loop stacks every index once |
| `BlockPools.FixedBlockPool.AllocateBlock` | memory/src/FixedBlockPool.cpp:23-41 | the top free index is taken, or nothing changes |
| `BlockPools.FixedBlockPool.FreeBlock` | memory/src/FixedBlockPool.cpp:43-67 | the block at the address is given back, or nothing changes |
| `BlockPools.FixedBlockPool.ReadStats` | memory/src/FixedBlockPool.cpp:69-85 | the figures in 64 bits whose honesty is proved |
| `Arenas.PowersOfTwo` | memory/src/MemoryArena.cpp:81-83 | the bit test holds exactly for powers of two |
| `Arenas.LegalExact` | memory/src/MemoryArena.cpp:16-22 | the checks let through exactly a buffer, at least one byte and a power of two |
| `Arenas.AlignUpLeast` | memory/src/MemoryArena.cpp:27-31 | the mask expression is the least multiple of the alignment at or above the address, and 0 where its sum wraps |
| `Arenas.AllocateExact` | memory/src/MemoryArena.cpp:12-50 | a call hands out an aligned block in the free part, or nothing and changes nothing, exactly when no sum wraps or it is refused |
| `Arenas.WrappedSizeAccepted` | memory/src/MemoryArena.cpp:36-44 | a size near 2^64 that wraps past the capacity check |
| `Arenas.RoomExact` | memory/src/MemoryArena.cpp:12-50 | that success means a buffer, at least one byte, a power of two and an aligned block that fits in the free part holds exactly when no sum wraps, or the request is refused, or the aligned address wraps to null |
| `Arenas.ArenaRun` | memory/src/MemoryArena.cpp:12-54 | over any run in which no accepted request wraps, blocks since the last reset are aligned, in bounds, ordered and disjoint, and used <= peak <= capacity |
| `Arenas.ThroughoutExact` | memory/src/MemoryArena.cpp:12-54 | every call of a run hands out an aligned block in the free part, or nothing and changes nothing, exactly when no request of the run wraps unless it is refused |
| `Arenas.PeakExact` | memory/src/MemoryArena.cpp:46-54 | over every run, whatever wraps, the peak is the most bytes that were ever in use, and a reset does not lower it |
| `Arenas.CapacityGuarantee` | memory/src/MemoryArena.cpp:24-44 | requests whose sizes plus alignment - 1 fit in what is free all succeed, from any address, and use between the sum of sizes and that sum |
| `Arenas.SmallRequestsSafe` | memory/src/MemoryArena.cpp:33-41 | requests not near 2^64 never wrap |
| `Arenas.StatsOf` | memory/src/MemoryArena.cpp:56-63 | used and free make up the capacity, with used <= peak <= capacity |
| `Arenas.MemoryArena.AllocateBlock` | memory/src/MemoryArena.cpp:12-50 | block and new offsets as the laws on one allocation describe; used <= peak <= capacity stays |
| `Arenas.MemoryArena.ResetArena` | memory/src/MemoryArena.cpp:52-54 | everything is free again and the peak stays |
| `Budgets.RunBalanced` | memory/src/MemoryManager.cpp:43-75 | over every run in which no reservation wraps past its limit and no budget is set anew while bytes of it are reserved, with reservations of any agents opened and closed in any order, usage is the sum of the open reservations and used <= peak <= limit |
| `Budgets.ThroughoutExact` | memory/src/MemoryManager.cpp:43-75 | the ledger balances after every operation of a run exactly when no reservation of the run wraps past its limit and no budget is set anew while bytes of it are reserved |
| `Budgets.StepBalanced` | memory/src/MemoryManager.cpp:43-75 | among balanced states an operation leads to a balanced one exactly when a reservation does not wrap past the limit and no budget is set anew while bytes of it are reserved |
| `Budgets.OpenExact` | memory/src/AgentMemoryBudget.cpp:14-24 | an admitted reservation adds its bytes exactly when the sum does not wrap; otherwise refused, and other agents are untouched |
| `Budgets.OpenCloseExact` | memory/src/ScopedMemoryReservation.cpp:5-27 | opening and closing restores usage exactly when the sum does not wrap or is refused |
| `Budgets.WrappedReservation` | memory/src/AgentMemoryBudget.cpp:35-37 | a reservation that wraps past a limit near 2^64 and is not given back |
| `Budgets.AllClosed` | memory/src/ScopedMemoryReservation.cpp:20-27 | once every reservation of such a run is closed nothing is used |
| `Budgets.PeakExact` | memory/src/AgentMemoryBudget.cpp:20-21 | over every run, fair or not, the peak of a budget is the most that was used of it since it was set |
| `Budgets.SetBudgetEffect` | memory/src/MemoryManager.cpp:43-49 | the new budget has the given limit and nothing used; the others stay |
| `Budgets.ReleaseEffect` | memory/src/AgentMemoryBudget.cpp:26-33 | the bytes go off what is used, not below nothing; limit, peak and the other budgets stay |
| `MemoryManagers.AgentMemoryBudget.ReserveBytes` | memory/src/AgentMemoryBudget.cpp:14-24 | refused when used plus bytes, in 64 bits, passes the limit; otherwise used grows by it and the peak follows |
| `MemoryManagers.AgentMemoryBudget.ReleaseBytes` | memory/src/AgentMemoryBudget.cpp:26-33 | takes the bytes off, down to 0 at the least |
| `MemoryManagers.MemoryManager.constructor` | memory/src/MemoryManager.cpp:5-15 | empty budgets, empty arenas, a new pool |
| `MemoryManagers.MemoryManager.AllocateScratch` | memory/src/MemoryManager.cpp:24-29 | only the scratch arena changes, as specified |
| `MemoryManagers.MemoryManager.AllocateGlobal` | memory/src/MemoryManager.cpp:17-22 | only the global arena changes, as specified |
| `MemoryManagers.MemoryManager.ResetScratch` | memory/src/MemoryManager.cpp:31-33 | only the scratch arena is emptied |
| `MemoryManagers.MemoryManager.AllocateMessage` | memory/src/MemoryManager.cpp:35-37 | only the pool changes, as specified |
| `MemoryManagers.MemoryManager.FreeMessage` | memory/src/MemoryManager.cpp:39-41 | only the pool changes, as specified |
| `MemoryManagers.MemoryManager.SetAgentBudget` | memory/src/MemoryManager.cpp:43-49 | a new budget for that agent, the others kept |
| `MemoryManagers.MemoryManager.ReserveAgentMemory` | memory/src/MemoryManager.cpp:51-62 | unknown agents are refused; otherwise only that agent changes |
| `MemoryManagers.MemoryManager.ReleaseAgentMemory` | memory/src/MemoryManager.cpp:64-75 | unknown agents are ignored; otherwise only that agent changes |
| `MemoryManagers.ScopedMemoryReservation.constructor` | memory/src/ScopedMemoryReservation.cpp:5-18 | reserves, and remembers whether that worked |
| `MemoryManagers.ScopedMemoryReservation.Destroy` | memory/src/ScopedMemoryReservation.cpp:20-27 | gives back exactly what was reserved, if anything was |
| `TokenScheduling.TokensConserved` | scheduler/src/TokenScheduler.cpp:10-110 | over any run, what is left and what the admitted tasks took add up to what there was exactly when no admitted total wraps |
| `TokenScheduling.SmallMaximaConserve` | scheduler/src/TokenScheduler.cpp:10-110 | with maxima adding up to less than 2^32 tokens are always conserved |
| `TokenScheduling.DecisionConserves` | scheduler/src/TokenScheduler.cpp:10-110 | one decision takes estimate plus allowed tokens exactly when its total does not wrap; a refusal changes nothing |
| `TokenScheduling.DecisionExact` | scheduler/src/TokenScheduler.cpp:10-110 | for totals that do not wrap, or do not decide: which tasks are admitted with truncation on and off, with the least of request, maximum and what is left after the prompt, and which refusal the others get |
| `TokenScheduling.AllowanceExact` | scheduler/src/TokenScheduler.cpp:10-110 | an admitted task gets the least of request, maximum and what is left after its prompt exactly when its total does not wrap or does not decide |
| `TokenScheduling.ReasonExact` | scheduler/src/TokenScheduler.cpp:14-110 | the reason given with each decision |
| `TokenScheduling.NeverMoreThanCapped` | scheduler/src/TokenScheduler.cpp:27-28 | no task gets more than it requests or than the maximum |
| `TokenScheduling.WrappedTotalAdmitted` | scheduler/src/TokenScheduler.cpp:47-51 | a task admitted on a total that wraps to nothing |
| `TokenScheduling.ReleaseExact` | scheduler/src/TokenScheduler.cpp:112-118 | the tokens are added back exactly when that does not pass the ceiling |
| `TokenScheduling.ReleaseEffect` | scheduler/src/TokenScheduler.cpp:112-118 | what is left is the sum or, if that is less, the ceiling, each modulo 2^32; the maxima stay |
| `TokenScheduling.TokenScheduler.ScheduleTask` | scheduler/src/TokenScheduler.cpp:10-110 | the chain of early returns gives the decision and the remaining tokens whose laws are proved |
| `TokenScheduling.TokenScheduler.Release` | scheduler/src/TokenScheduler.cpp:112-118 | remaining plus reported tokens, cut at the ceiling, both sums in 32 bits |
| `LlmStacks.RestoresUsage` | llm_memory/src/MemoryAwareLLMRuntime.cpp:18-51 | when no reservation on the way wraps past its limit, a call through any nesting of wrappers, admitted or refused at any of them, leaves every agent's usage as it was |
| `LlmStacks.UsageAfterCall` | llm_memory/src/MemoryAwareLLMRuntime.cpp:18-51 | after any call through any nesting, usage is as it was but for the agents whose reservation wrapped on the way, who are left with none; keys and limits are kept, peaks never fall |
| `LlmStacks.RestoresExact` | llm_memory/src/MemoryAwareLLMRuntime.cpp:18-51 | a call through any nesting restores every agent's usage exactly when the agents whose reservation wraps on the way used nothing before |
| `LlmStacks.HonestNoneWrapped` | llm_memory/src/MemoryAwareLLMRuntime.cpp:18-51 | no reservation on the way wraps exactly when the set of agents with a wrapped one is empty |
| `LlmStacks.RunRestoresUsage` | llm_memory/src/MemoryAwareLLMRuntime.cpp:18-51 | so does any run of calls in which no reservation wraps |
| `LlmStacks.UsageAfterRun` | llm_memory/src/MemoryAwareLLMRuntime.cpp:18-51 | after any run of calls, usage is as it was but for the agents whose reservation wrapped in the run, who are left with none |
| `LlmStacks.RunRestoresExact` | llm_memory/src/MemoryAwareLLMRuntime.cpp:18-51 | a run of calls restores every agent's usage exactly when the agents whose reservation wraps in it used nothing before |
| `LlmStacks.RoomyIsHonest` | llm_memory/src/MemoryAwareLLMRuntime.cpp:57-73 | with limits that leave room for the call below 2^64, no reservation on the way wraps |
| `LlmStacks.OneWrapperExact` | llm_memory/src/MemoryAwareLLMRuntime.cpp:18-51 | around a backend, usage is restored exactly when the reservation does not wrap past the limit |
| `LlmStacks.ScratchEmptied` | llm_memory/src/MemoryAwareLLMRuntime.cpp:34-51 | an admitted outermost call leaves the scratch arena empty; a refused one changes nothing and does not call the backend |
| `LlmStacks.MemoryAwareCall` | llm_memory/src/MemoryAwareLLMRuntime.cpp:18-73 | a memory-aware wrapper lets through just what fits the budget, with characters plus eight per completion token plus 1024 bytes reserved while the inner runtime runs, scratch emptied and the bytes given back after it, and refuses the rest unchanged - exactly if the sum does not wrap past the limit |
| `LlmStacks.ScheduledCall` | llm_scheduled/src/ScheduledLLMRuntime.cpp:14-82 | a scheduled wrapper lets through just what the maxima and the remaining tokens admit, with the limited token count passed on and the reported tokens released after it, and answers the rest with the fallback, unchanged - exactly if the total does not wrap, or does not decide |
| `LlmStacks.BackendCall` | llm_scheduled/src/ScheduledLLMRuntime.cpp:48-52 | the backend gets the call as it is, its answer is the reply, and the scratch arena has seen just the run of its requests |
| `LlmStacks.EstimatesExact` | llm_scheduled/src/ScheduledLLMRuntime.cpp:72-82 | a quarter of the characters as tokens, rounded down but at least 1, the characters modulo 2^32; as bytes the characters plus eight per completion token plus 1024, modulo 2^64 |
| `LlmStacks.ReportedExact` | llm_scheduled/src/ScheduledLLMRuntime.cpp:54-63 | released are the prompt and completion tokens of the reply together, modulo 2^32 |
| `LlmStacks.RefusalsReportNothing` | llm_memory/src/MemoryAwareLLMRuntime.cpp:34-40 | a refusal reports no tokens, and one for want of memory names the agent |
| `LlmStacks.BackendSees` | llm_scheduled/src/ScheduledLLMRuntime.cpp:46-52 | the backend is called at most once, with the same prompt and configuration but a token limit of at most the request and the completion maximum |
| `LlmStacks.CallAccounts` | llm_scheduled/src/ScheduledLLMRuntime.cpp:14-66 | for any budget: the tokens gone are at least those taken less those reported, summed over every scheduler passed, and exactly those if and only if no release on the way passes the ceiling; that is so where no more than the ceiling was left before and the backend reports no more than was taken; with maxima below 2^32 nothing wraps in what is taken; what is reported is what the reply of the call reports |
| `LlmStacks.TakenExact` | llm_scheduled/src/ScheduledLLMRuntime.cpp:14-66 | what the schedulers took is at most what was reserved, and just that exactly when no reserved total is 2^32 or more |
| `LlmStacks.RunAccounts` | llm_scheduled/src/ScheduledLLMRuntime.cpp:14-66 | the same over any run of calls, exact if and only if no release in the run passes the ceiling |
| `LlmStacks.OneSchedulerExact` | llm_scheduled/src/ScheduledLLMRuntime.cpp:52-63 | an admitted call around a backend costs exactly taken less the prompt and completion tokens of the reply unless the ceiling cuts the release; taken is reserved exactly when the total does not wrap |
| `LlmStackCode.PromptTokens` | llm_scheduled/src/ScheduledLLMRuntime.cpp:72-82 | the 32-bit loop computes a quarter of the characters, at least 1 |
| `LlmStackCode.MemoryBytes` | llm_memory/src/MemoryAwareLLMRuntime.cpp:57-73 | the 64-bit loop computes content plus eight per completion token plus 1024 |
| `LlmStackCode.Deployment.RunMemoryAware` | llm_memory/src/MemoryAwareLLMRuntime.cpp:18-51 | reserve, call the inner runtime, reset scratch, give back; or refuse |
| `LlmStackCode.Deployment.RunScheduled` | llm_scheduled/src/ScheduledLLMRuntime.cpp:14-66 | decide, call the inner runtime with the adjusted limit, release the reported tokens; or fall back |

## Left out

- Sockets: set-up, `connect_to`, `listen_once`, the destructor and the waiting of `select` are foreign calls; only byte streams with scripted transfers and scripted answers of `select` are modelled. The answers end with nothing to read, so a `drain` that never ends is seen only as one that goes on until they end, whether because bytes keep coming or because the peer has closed and `select` keeps reporting that (`AgentsOverTcp.ExhaustedSpins`).
- `RemoteLLM`, `MockLLM`, `Prompt::to_string`, the tools library, the examples, clocks and error output.
- Mutexes: each queue operation is one step.
- Agents that call back into the runtime or the transport from a handler: a handler only notes the call.
- Real pointers: addresses are numbers from an arbitrary base, and the contents of blocks are not modelled. A pointer past the storage of a pool, which C++ leaves undefined, is the number that the sum gives.
- The meaning of `temperature` and `top_p`: they are 32 raw bits.
- The half-filled payload or message that `decode` leaves in a failed result: no caller reads it.
- The pieces of a prompt role or status outside its enumeration (`role_to_u8` 255, `status_to_u8` 4 after the switch).
- Task ids, deadlines and priorities, which `schedule` never reads; getters, `name` strings and the texts of `Result` errors.
- A pointer from `agent_budget` kept across `set_agent_budget`: the C++ overwrites the budget in place, the model puts a new object into the map.
- More than one memory manager or token scheduler in one stack of LLM runtimes.
- AgentsOverTcp.MessagesBetweenRuntimes: asks that every frame of 2^31 bytes or more leaves nothing on the wire, because of any other the front stands on the stream and comes in as whatever its bytes read as; `TcpStream.ReassemblesSizedExact` says that this is the boundary.
