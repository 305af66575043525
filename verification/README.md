# A verified model of the chat server

The project models a chat server built on asynchronous sockets: the message codec that a protocol compiler generated, the
frames that carry messages over TCP, the buffers that put an arbitrarily chunked byte stream back together, the router that
hands packets to worker threads, the life of a session from accept to close, the chat rooms, and the object and packet pools.
Dafny 4.11 proves its properties; `dafny verify dfyconfig.toml` checks all of it.

| layer | modules |
|---|---|
| codec | `Bytes`, `Varint`, `Wire`, `Utf8`, `Messages`, `CodecLaws` (values and laws; `Utf8` against an encoder); `Reader`, `ParseLoop`, `StructPb`, `ProtocolPb` (the library's readers and the generated classes, proved against them) |
| frames and streams | `Framing`, `Reassembly`, `Overflow`, `Bound`, `Queued` (values and laws), `Buffers` (byte arrays with cursors, one buffer for each session, the read loop), `EndToEnd` |
| router and sessions | `Server` (one step machine, invariants over every interleaving), `Closing` (how often sessions are closed), `Runtime` (the objects whose methods are its steps) |
| chat rooms | `Replies` (what MakePacket makes of each reply), `Chat` (the handlers on values), `ChatHistory` (what a history of events says about every reply), `ChatAnswers` (what each request leaves behind and tells), `ChatTable` (the room table and its wrap-around), `ChatServer` (the handlers on objects) |
| pools | `Pools` |

Where the generated code calls the Protocol Buffers library, the library's own code is modelled: tags of at most five bytes,
values of at most ten, lengths below 2^31 - 16, nesting up to 100. The wire format is that of the Protocol Buffers Encoding
specification ("Base 128 Varints", "Message Structure", "Length-Delimited Records", "Last One Wins"); strings are valid by
section 4 of RFC 3629. Frame headers are in the layout of the machine: twelve bytes, little-endian, two of them padding.

For some classes the table cites declarations or callers; the bodies behind them that the model follows are `PacketBuffer`
(ServerCore/PacketBuffer.cpp, lines 5-85), `NetworkHandler::RecvData` (ServerCore/NetworkHandler.cpp, lines 15-28),
`PacketHeader` (ServerCore/Packet.h, lines 29-41), `TaskQueue` (ServerCore/TaskQueue.h, lines 33-139) and
`AsioService::CreateSession` (ServerCore/AsioService.cpp, lines 40-64).

Where the code differs from what its comments or names promise, the code is followed, and the exact condition is proved:

- `PacketBuffer::Clear` is commented as moving unread bytes to the front when less than one buffer size is free
  (ServerCore/PacketBuffer.cpp, lines 77-83). It copies them and then sets both positions to 0, which drops them. So the frames
  that arrive depend on the chunking (`Reassembly.ChunkingMatters`), and the theorems on streams are equivalences with the two
  guards that lose bytes (`Reassembly.FaithfulIffSafe`, `EndToEnd.DeliveredIffSafe`). They are proved for both kinds of Clear,
  `Dropping` as in the code, which is what `Buffers` runs, and `Keeping` as in the comment; with the latter only an overflow
  loses bytes (`Reassembly.KeepingIsSafe`, `EndToEnd.KeepingDelivers`). A run that ends stuck can hide its loss
  (`Reassembly.HungHidesLoss`).
- How large frames and chunks may be is decided by the buffer size, not by the capacity, because Clear makes room only when
  less than one buffer size is free (`Overflow.CapacityIsNoBound`). `Keeping` never overflows if and only if the largest frame
  and the largest chunk together are at most 65538 bytes (`Bound.BoundIsExact`). `Dropping` can overflow nevertheless
  (`Overflow.DroppingOverflows`): a byte that Clear drops shifts the headers behind it. There the guard of Clear decides
  (`Overflow.LossStartsAtClear`), and streams of at most nine buffer sizes never meet it (`Reassembly.ShortStreamIsSafe`).
- `ProcessPacket` never returns on a header of size 0 (`Framing.NeverReturns`). It holds the lock of all buffers then, so all
  sessions stop (`EndToEnd.SessionsAreIsolated`).
- `MakePacket` keeps sizes in 16 bits, writes out of bounds for bodies of 65524 to 65535 bytes, and returns an empty packet
  for longer ones (`Framing.MakePacketFrames`, `Replies.PackIs`). Long chats and long lists of rooms are therefore never
  delivered (`ChatHistory.ChatGoesTo`, `ChatHistory.LongListIsLost`, `ChatTable.ListIsLost`).
- `PacketPool::Push` decrements the count of available packets (ServerCore/Pool.h:147), so packets stop being reused
  (`Pools.PacketAccounting`).
- `ProcessDisconnect` checks and writes the state in two steps without a lock (ServerCore/AsioSession.cpp:45-52). A session
  gets at most one task if and only if no thread passes the check while another one is between the two
  (`Server.OneTaskIffApart`). It is closed at most once if and only if no thread finds it while another one is about to close
  it (`Closing.ClosedOnceIffApart`), and that decides whether the service's counter is right (`Closing.CounterIffClosedOnce`,
  `Closing.CounterIffApart`); `Closing.RaceClosesTwice` is a run where it is not. The theorems on the router hold either way.
- The 16-bit room number wraps (`ChatTable`). A chat reaches the sender's own room if and only if fewer than 65536 rooms were
  created behind it (`ChatHistory.ChatReachesMembers`).
- A queue item is a pointer into its session's buffer, and the next chunk can be written over it before the handler runs
  (`Queued.NextChunkReplaces`); `Queued.IntactIff` says exactly when the handler still reads its frame.

Inputs of the model that stand for the outside world: chunks of bytes for reads, outboxes for sends, the steps of a run for
the scheduling of threads, the padding bytes of a header, the number of cores, and the stored form of a room name, which the
code converts between code pages.

## Model

| member | source | states |
|---|---|---|
| `Varint.ReadEncode` | Libraries/include/google/protobuf/parse_context.cc:369-397 | reading what was written gives the value back, for every value and whatever follows, if the limit on bytes is at least its length |
| `Varint.EncodeIsShortest` | Libraries/include/google/protobuf/io/coded_stream.h:905-930 | no byte string that reads as a value is shorter than its encoding |
| `Varint.SizeIsLength` | Libraries/include/google/protobuf/io/coded_stream.h:1678-1696 | the size formula (log2 * 9 + 73) / 64 is the length of the encoding, for every 64-bit value |
| `Varint.Int32RoundTrip` | GameServer/Protocol.pb.cc:417-457 | every int32 survives sign extension to ten bytes, reading as 64 bits and truncation |
| `Varint.SignExtend` | GameServer/Protocol.pb.cc:447-457 | the 64-bit value differs from the int32 by a multiple of 2^64 |
| `Varint.ToInt32` | GameServer/Protocol.pb.cc:411-425 | the int32 differs from the 64-bit value by a multiple of 2^32 |
| `Varint.ReadBehind` | Libraries/include/google/protobuf/parse_context.h:519-533 | a value is the carried bits of its first bytes plus what the rest reads, at any split point |
| `Varint.StepRuns` | Libraries/include/google/protobuf/parse_context.cc:387-397 | one step of the wrapped sum res += (byte - 1) << 7i keeps the running value, wrap-around of the shift included |
| `Varint.ParseTelescoped` | Libraries/include/google/protobuf/parse_context.cc:369-408 | the unrolled loops for 32 and 64 bits fail exactly when the value has too many bytes, and otherwise return the value modulo the word size and the position behind it |
| `Wire.EncodeAllConcat` | Libraries/include/google/protobuf/wire_format.cc:192-225 | records are written one behind the other: the encoding of two lists is the encodings in a row |
| `Wire.SizeIsLength` | Libraries/include/google/protobuf/wire_format.cc:266-305 | the computed size of an unknown field is the number of bytes written for it, groups included |
| `Wire.ReadFieldEncode` | Libraries/include/google/protobuf/parse_context.h:735-780 | every valid record, group or not, is read back from its encoding, whatever follows |
| `Wire.ReadGroupEncode` | Libraries/include/google/protobuf/parse_context.h:781-797 | the records of a group are read back up to its own end tag |
| `Wire.RecordsEncode` | Libraries/include/google/protobuf/parse_context.h:781-797 | the records of an encoded list are the list |
| `Wire.RecordsSound` | Libraries/include/google/protobuf/unknown_field_set.cc:280-322 | everything that is read is a valid list of records, and writing it takes no more bytes than it was read from |
| `Wire.RecordsConcat` | Libraries/include/google/protobuf/parse_context.h:781-797 | the records of a concatenation are the records of its parts in a row, once the first part is complete |
| `Wire.NestingLimit` | Libraries/include/google/protobuf/parse_context.h:403-412 | a hundred groups within each other are read, and a hundred and one are refused |
| `Utf8.ValidIffEncoded` | Libraries/include/google/protobuf/parse_context.cc:438-446 | a byte string is accepted if and only if it is the encoding of some sequence of scalar values by the arithmetic of section 3 of RFC 3629: no surrogates, no overlong forms, nothing above 0x10FFFF |
| `Utf8.EncodeCharsInjective` | Libraries/include/google/protobuf/parse_context.cc:438-446 | and of one sequence only |
| `Messages.FoldConcat` | GameServer/Protocol.pb.cc:1504-1550 | applying a list of records to a message is applying its front and then its rest, failure included |
| `Messages.ParseStep` | GameServer/Struct.pb.cc:295-352 | parsing is reading one record, applying it and parsing the rest |
| `Messages.MergeIntoCleared` | GameServer/Protocol.pb.cc:1644-1649 | merging into a cleared message copies it |
| `Messages.FoldFields` | GameServer/Protocol.pb.cc:1552-1578 | the records the serializer emits for a message, applied to any message of its kind, are the merge of the two, nested rooms and unknown fields included |
| `Messages.ReadsBack` | GameServer/Struct.pb.cc:354-394 | what the serializer writes is read as the records it emitted |
| `Messages.FieldsAscend` | GameServer/Protocol.pb.cc:2467-2501 | every serializer writes its known fields by ascending number and the unknown ones last |
| `CodecLaws.ParseConcat` | GameServer/Protocol.pb.cc:1504-1550 | parsing a concatenation is parsing its second part into the result of the first |
| `CodecLaws.MergeHomomorphism` | GameServer/Protocol.pb.cc:1504-1635 | for every accepted byte string a and every message m: parsing a followed by the encoding of m is merging m into the parse of a, and fails exactly when a string of m is not UTF-8 |
| `CodecLaws.RoundTrip` | GameServer/Protocol.pb.cc:1504-1607 | a message parses back from its encoding if and only if its strings are UTF-8 |
| `CodecLaws.SerializeInjective` | GameServer/Protocol.pb.cc:1552-1578 | two messages with the same encoding are the same message |
| `CodecLaws.ExplicitZeroIsNotMerged` | GameServer/Protocol.pb.cc:411-516 | an encoding with an explicit zero, which no serializer writes, is where parsing a concatenation is not merging: 5 then 0 parses to 0 and merges to 5 |
| `CodecLaws.RoomNotLonger` | GameServer/Struct.pb.cc:295-439 | writing a parsed room again never takes more bytes than it came in, so a length prefix that fitted still fits |
| `CodecLaws.ParseSound` | GameServer/Struct.pb.cc:295-352 | everything a parser accepts, at every nesting depth, can be encoded again and has only UTF-8 strings |
| `CodecLaws.NormalForm` | GameServer/Struct.pb.cc:331-391 | re-encoding an accepted byte string gives one that parses to the same message, unlisted records kept in order |
| `CodecLaws.ApplyUnknown` | GameServer/Struct.pb.cc:331-343 | a record with an unlisted number or another wire type is appended to the unknown fields, every other one leaves them alone |
| `CodecLaws.ParseMeans` | GameServer/Protocol.pb.cc:1504-1550 | the loop's result, field by field: the last value of a scalar, every element of a repeated field, every unlisted record in order; and it fails on any string that is not UTF-8 (exactly those of Utf8.ValidIffEncoded pass), even one a later record replaces |
| `CodecLaws.FoldMeans` | GameServer/Struct.pb.cc:295-352 | the same for a list of records and any message to start from |
| `Reader.ReadTag` | Libraries/include/google/protobuf/parse_context.h:542-556 | accepts exactly the tags of at most five bytes, with the value modulo 2^32 and the position behind it |
| `Reader.ReadVarint32` | Libraries/include/google/protobuf/parse_context.h:632-637 | accepts what the 64-bit reader accepts and returns its low 32 bits |
| `Reader.ReadVarint64` | Libraries/include/google/protobuf/parse_context.h:626-630 | accepts exactly the varints of at most ten bytes |
| `Reader.ReadSize` | Libraries/include/google/protobuf/parse_context.cc:410-430 | accepts exactly the lengths up to 2147483631 in at most five bytes; the test on the fifth byte decides this |
| `Reader.ReadString` | Libraries/include/google/protobuf/parse_context.cc:448-455 | accepts exactly a length and that many bytes, and returns them |
| `Reader.UnknownFieldParse` | Libraries/include/google/protobuf/parse_context.h:735-780 | returns exactly the record behind a tag, or fails where there is none, nested groups included |
| `Reader.ParseGroup` | Libraries/include/google/protobuf/parse_context.h:403-412 | returns exactly the records up to the matching end tag, and fails on any other |
| `StructPb.ChatRoomInfo.ParseRecord` | GameServer/Struct.pb.cc:299-343 | one turn of the tag switch applies one record |
| `StructPb.ChatRoomInfo.InternalParse` | GameServer/Struct.pb.cc:295-352 | the parse loop is the parse function, up to the end, tag 0 or an end-group tag, and fails exactly where it fails |
| `StructPb.ChatRoomInfo.InternalSerialize` | GameServer/Struct.pb.cc:354-394 | writes the encoding of the message, defaults skipped, unknown fields last |
| `StructPb.ChatRoomInfo.ByteSizeLong` | GameServer/Struct.pb.cc:396-439 | returns the number of bytes the serializer writes and caches it |
| `StructPb.ChatRoomInfo.NotAddressableIsLong` | GameServer/Struct.pb.cc:396-439 | the encoding of a message with a string of 4 GiB or more, whose prefix size the code computes modulo 2^32, has at least 4 GiB |
| `StructPb.ChatRoomInfo.MergeFrom` | GameServer/Struct.pb.cc:456-475 | a field that is not the default replaces, unknown fields are appended |
| `StructPb.ChatRoomInfo.CopyFrom` | GameServer/Struct.pb.cc:484-489 | the message becomes the other one; copying onto itself changes nothing |
| `StructPb.LoginRes.ParseFromArray` | GameServer/Struct.pb.cc:586-639 | the parse loop is the parse function; the open enum is read as 64 bits and truncated to an int32 |
| `StructPb.LoginRes.InternalSerialize` | GameServer/Struct.pb.cc:641-680 | writes the encoding, a negative enum value in ten bytes |
| `StructPb.LoginRes.ByteSizeLong` | GameServer/Struct.pb.cc:682-717 | returns the number of bytes written |
| `StructPb.LoginRes.MergeFrom` | GameServer/Struct.pb.cc:734-750 | a field that is not the default replaces |
| `StructPb.LoginRes.CopyFrom` | GameServer/Struct.pb.cc:759-764 | the message becomes the other one |
| `StructPb.UserListRes.ParseUsers` | GameServer/Struct.pb.cc:1568-1581 | the fast loop over equal tags takes exactly the strings that the outer switch would take one by one, and stops where it would meet another tag |
| `StructPb.UserListRes.ParseFromArray` | GameServer/Struct.pb.cc:1562-1603 | the whole parse with its fast loop is the parse function |
| `StructPb.UserListRes.InternalSerialize` | GameServer/Struct.pb.cc:1605-1627 | writes the encoding, one record for each user |
| `StructPb.UserListRes.ByteSizeLong` | GameServer/Struct.pb.cc:1629-1652 | returns the number of bytes written |
| `StructPb.UserListRes.MergeFrom` | GameServer/Struct.pb.cc:1669-1677 | the users of the other message are appended |
| `ProtocolPb.ChatRoomListAck.ParseRooms` | GameServer/Protocol.pb.cc:1517-1528 | the fast loop over equal tags parses exactly the rooms that the outer switch would parse one by one, each into a new room |
| `ProtocolPb.ChatRoomListAck.ParseRecord` | GameServer/Protocol.pb.cc:1508-1541 | one turn of the outer loop applies the records it takes |
| `ProtocolPb.ChatRoomListAck.InternalParse` | GameServer/Protocol.pb.cc:1504-1550 | the parse loop is the parse function |
| `ProtocolPb.ChatRoomListAck.InternalSerialize` | GameServer/Protocol.pb.cc:1552-1578 | with fresh cached sizes, writes the encoding: every length prefix is right |
| `ProtocolPb.ChatRoomListAck.ByteSizeLong` | GameServer/Protocol.pb.cc:1580-1607 | returns the number of bytes written, and leaves in every nested room the size that room writes |
| `ProtocolPb.ChatRoomListAck.SerializeToArray` | Libraries/include/google/protobuf/message_lite.cc:479-495 | succeeds exactly when the encoding fits the buffer and an int, and then it is the encoding |
| `ProtocolPb.ChatRoomListAck.MergeFrom` | GameServer/Protocol.pb.cc:1624-1635 | the rooms of the other message are appended as copies, success is or-ed |
| `ProtocolPb.ChatRoomListAck.CopyFrom` | GameServer/Protocol.pb.cc:1644-1649 | the message becomes the other one |
| `ProtocolPb.EnterChatRoomReq.ParseFromArray` | GameServer/Protocol.pb.cc:411-445 | the parse loop is the parse function; a room id is read as 64 bits and truncated to an int32 |
| `ProtocolPb.EnterChatRoomReq.SerializeToArray` | GameServer/Protocol.pb.cc:447-465 | writes the encoding, a negative room id in ten bytes |
| `ProtocolPb.EnterChatRoomReq.MergeFrom` | GameServer/Protocol.pb.cc:506-516 | a room id other than 0 replaces |
| `ProtocolPb.ChatReq.ParseFromArray` | GameServer/Protocol.pb.cc:2415-2465 | the parse loop is the parse function |
| `ProtocolPb.ChatReq.InternalSerialize` | GameServer/Protocol.pb.cc:2467-2501 | writes the encoding of the message |
| `ProtocolPb.ChatReq.ByteSizeLong` | GameServer/Protocol.pb.cc:2503-2539 | returns the number of bytes written |
| `ProtocolPb.ChatReq.MergeFrom` | GameServer/Protocol.pb.cc:2556-2572 | a field that is not the default replaces |
| `Framing.MakePacketFrames` | Tools/PacketGenerator/TestPacketHandler.h:69-96 | a frame is made exactly for bodies of at most 65523 bytes, byte by byte: type and length little-endian, the padding, the sequence number 1, the body; from 65536 bytes on the empty packet is returned, and the lengths between write beyond a buffer that is too short |
| `Framing.MakeRoomListPacket` | Tools/PacketGenerator/TestPacketHandler.h:69-96 | the template at the room list: the 16-bit sizes lead to the same three outcomes |
| `Framing.ProcessPacket` | ServerCore/AsioSession.cpp:184-204 | the loop dispatches the frames of the cut, returns their length, and makes no progress exactly when the cut meets a size of 0 |
| `Framing.NeverReturns` | ServerCore/AsioSession.cpp:188-200 | the original loop runs forever if and only if cutting reaches a header of size 0 |
| `Framing.ZeroHeaderHangs` | ServerCore/AsioSession.cpp:194-199 | twelve zero bytes do this |
| `Framing.CutDecomposes` | ServerCore/AsioSession.cpp:188-202 | the frames are the bytes taken, in order, and no whole frame is left |
| `Framing.CutIsUnique` | ServerCore/AsioSession.cpp:184-204 | a string of well-formed frames and an incomplete rest is cut into exactly these |
| `Framing.CutIsLongest` | ServerCore/AsioSession.cpp:184-204 | no longer prefix is made of whole frames |
| `Framing.CutLater` | ServerCore/AsioSession.cpp:184-204 | bytes that arrive later are cut together with what was left over, with the same result as all at once |
| `Reassembly.RecvInTwo` | ServerCore/SessionPacketBuffer.cpp:14-65 | a received chunk is its AddData followed by its ProcessSessionBuffer, each under the lock for itself |
| `Reassembly.RunKeeps` | ServerCore/SessionPacketBuffer.cpp:14-65 | in every run, whatever the chunks: bytes received are bytes dispatched, waiting or dropped, and no whole frame waits |
| `Reassembly.RunFaithful` | ServerCore/SessionPacketBuffer.cpp:31-64 | a run that drops nothing goes on as if its stream had been cut at once |
| `Reassembly.ChunkingIndependence` | ServerCore/SessionPacketBuffer.cpp:31-64 | a run without a dropped byte dispatches the frames of the stream cut at once and keeps its rest, however it was chunked |
| `Reassembly.FaithfulIffNothingDropped` | ServerCore/SessionPacketBuffer.cpp:31-64 | for runs that do not end stuck the condition is exact: with one dropped byte the frames and the rest are no longer the stream's |
| `Reassembly.DropsIffUnsafe` | ServerCore/PacketBuffer.h:13-22 | a byte is dropped exactly when a guard fires: a chunk larger than the free space, or unread bytes with less than one buffer size free at a Clear |
| `Reassembly.FaithfulIffSafe` | ServerCore/SessionPacketBuffer.cpp:31-64 | so a run in which neither guard fires is the one-shot cut of its stream, and every run in which one fires is not, unless it ends stuck |
| `Reassembly.SameStreamSameFrames` | ServerCore/SessionPacketBuffer.cpp:31-64 | two ways of chunking one stream that meet neither guard dispatch the same frames, leave the same rest and hang alike |
| `Reassembly.KeepingIsIndependent` | ServerCore/PacketBuffer.h:17-22 | with a Clear that keeps the unread bytes, as its comment says, this holds for any two chunkings that do not overflow |
| `Reassembly.KeepingIsSafe` | ServerCore/PacketBuffer.h:17-22 | such a Clear loses a byte if and only if a chunk overflows |
| `Reassembly.ShortStreamIsSafe` | ServerCore/PacketBuffer.h:13-22 | neither does on a connection that receives at most nine buffer sizes |
| `Reassembly.ChunkingMatters` | ServerCore/SessionPacketBuffer.cpp:56-64 | beyond that chunking matters: nine frames of 65535 bytes and the start of a tenth in one chunk lose that start, in two chunks they do not |
| `Reassembly.HungHidesLoss` | ServerCore/SessionPacketBuffer.cpp:56-64 | the exception for stuck runs is needed: nine frames and zero bytes in two chunks drop ten bytes and get stuck exactly where the one-shot cut of the stream gets stuck, with the same frames |
| `Overflow.ResidueShort` | ServerCore/SessionPacketBuffer.cpp:56-64 | what waits after processing is shorter than the frame it belongs to |
| `Overflow.RunRoomy` | ServerCore/PacketBuffer.h:17-22 | in every state of every run, for both kinds of Clear, the free space and the waiting bytes together are more than one buffer size |
| `Overflow.LossStartsAtClear` | ServerCore/SessionPacketBuffer.cpp:30-64 | frames of at most F bytes in chunks of at most C bytes with F + C up to 65538, for both kinds of Clear: a run loses nothing if and only if the guard of Clear never fires, and no chunk overflows as long as it does not |
| `Overflow.NeverOverflows` | ServerCore/SessionPacketBuffer.cpp:30-37 | hence with a Clear that keeps the unread bytes no chunk of the whole run overflows |
| `Bound.BoundIsExact` | ServerCore/SessionPacketBuffer.cpp:30-37 | for frames that may carry a body and chunks that may have more than one byte the bound is exact at every size: with a Clear that keeps the unread bytes every stream of frames of at most F bytes in chunks of at most C bytes fits the buffer if and only if F + C is at most 65538 |
| `Bound.BeyondTheBound` | ServerCore/SessionPacketBuffer.cpp:30-37 | beyond it some stream overflows for both kinds of Clear |
| `Overflow.CapacityIsNoBound` | ServerCore/SessionPacketBuffer.cpp:30-37 | F + C within the capacity is not enough: two chunks of 65535-byte frames, nothing lost before, and the second one overflows for both kinds of Clear |
| `Overflow.DroppingOverflows` | ServerCore/SessionPacketBuffer.cpp:30-64 | with the Clear of the code the bound alone is not enough: 32768-byte frames cut one byte into each overflow the buffer once Clear has dropped a byte, while a Clear that keeps the bytes never does on the same chunks |
| `Buffers.PacketBuffer.Append` | ServerCore/PacketBuffer.h:13-22 | copies the chunk behind the write position, or changes nothing when it does not fit; of the array's bytes it writes these and no others |
| `Buffers.PacketBuffer.Advance` | ServerCore/PacketBuffer.h:15-22 | moves the write position by the bytes that were read in, if there is room |
| `Buffers.PacketBuffer.OnRead` | ServerCore/PacketBuffer.h:16-22 | takes bytes off the front exactly when there are that many |
| `Buffers.PacketBuffer.Clear` | ServerCore/PacketBuffer.h:17-22 | resets an empty buffer; with little room left copies the unread bytes to the front and then points past none of them, which drops them; changes nothing otherwise; of the array's bytes it writes that copy and no others |
| `Buffers.SessionBuffers.AddData` | ServerCore/SessionPacketBuffer.cpp:14-38 | the session's own buffer, made on first use, takes the chunk; overflow is reported exactly when it does not fit; no other buffer changes |
| `Buffers.SessionBuffers.ProcessSessionBuffer` | ServerCore/SessionPacketBuffer.cpp:40-65 | dispatches the frames of the session's buffer and leaves what processing leaves; no other buffer changes |
| `Buffers.SessionBuffers.RecvData` | ServerCore/SessionPacketBuffer.cpp:14-65 | is one step of the connection's run, and leaves all other sessions alone |
| `Buffers.ReadLoop.HandleRead` | ServerCore/AsioSession.cpp:106-135 | the loop's own buffer is empty at every read, so RecvData gets exactly the bytes that were read, none lost and none repeated, and the session takes the step for them |
| `Buffers.ReadLoop.Serve` | ServerCore/AsioSession.cpp:98-135 | over any number of reads until a cut gets stuck: what RecvData is handed is, concatenated, exactly what was read, the session's buffer and frames are those of the connection's run on the reads, and no other session changes |
| `Queued.DispatchedInPlace` | ServerCore/AsioSession.cpp:184-204 | at the moment of dispatch the bytes that a queue item points to are its frame |
| `Queued.RunMemIs` | ServerCore/SessionPacketBuffer.cpp:14-65 | over a whole run the buffer's array is what it was before with every append and every copy of Clear applied in order, and the unread bytes lie between the cursors |
| `Queued.IntactIff` | ServerCore/PacketRouter.cpp:112-129 | however many chunks come while an item is queued: its handler reads the frame that was dispatched if and only if the byte written last to each of its places, if any, is the frame's own |
| `Queued.IntactWhileUp` | ServerCore/PacketRouter.cpp:112-129 | which holds as long as no Clear sets the cursors back |
| `Queued.NextChunkReplaces` | ServerCore/SessionPacketBuffer.cpp:47-64 | a frame that arrives alone in an empty buffer sets them back at once: after the next chunk, any of at most nine buffer sizes, a late handler reads that chunk's bytes in place of the frame's |
| `EndToEnd.FrameHandled` | Tools/PacketGenerator/TestPacketHandler.h:59-96 | a framed message is a well-formed frame of its type, and its handler parses back the message exactly when its strings are UTF-8 |
| `EndToEnd.DeliveredIffSafe` | ServerCore/SessionPacketBuffer.cpp:14-65 | framed messages, concatenated and chunked in any way, are dispatched one frame each, in order, with nothing left, if and only if neither guard fires |
| `EndToEnd.MessagesArrive` | ServerCore/AsioSession.cpp:184-204 | and then as many frames as messages were dispatched, in order, of the same types, and at the moment of dispatch each parses back as its message exactly when its strings are UTF-8 |
| `EndToEnd.ShortStreamDelivered` | ServerCore/SessionPacketBuffer.cpp:14-65 | this always holds for at most nine buffer sizes of frames |
| `EndToEnd.KeepingDelivers` | ServerCore/PacketBuffer.h:13-22 | with a Clear that keeps the unread bytes, and for streams of any length, if the largest frame and the largest chunk together are at most 65538 bytes |
| `EndToEnd.SessionsAreIsolated` | ServerCore/SessionPacketBuffer.cpp:14-65 | on every interleaving of the sessions' AddData and ProcessSessionBuffer each session is where the chunks that it took in lead alone, with the last one cut or still to be cut; only a stuck cut, which keeps the lock, stops the others where they are |
| `EndToEnd.ServerDelivers` | ServerCore/SessionPacketBuffer.cpp:14-65 | end to end for every session of an interleaved server run that has cut what it took in: its messages are delivered if and only if neither guard fires on its own chunks |
| `Server.WorkerIndexInRange` | ServerCore/PacketRouter.cpp:85-88 | the remainder truncates towards zero and is an index exactly for non-negative UIDs and for negative multiples of the number of workers |
| `Server.LifeKeeps` | ServerCore/AsioSession.cpp:42-55 | every step, check and write apart, keeps: each disconnect task is queued, held by a thread, has closed its session or was lost at shutdown, a session is registered until it is closed, and none has two; the one exception is a step that passes the check while another thread is between check and write |
| `Server.RouterKeeps` | ServerCore/PacketRouter.cpp:64-133 | every step of any thread keeps: a worker's items are those dispatched to it, in order, and a drop is final for its session |
| `Server.RunKeepsRouter` | ServerCore/PacketRouter.cpp:43-133 | so it holds in every state of every run that accepts at most 2^31 connections, however disconnects interleave |
| `Server.RunKeepsLife` | ServerCore/AsioSession.cpp:42-55 | and the lifecycle's invariant in those that accept at most 2^32 connections and in which no two threads overlap between check and write |
| `Server.EveryItemOnce` | ServerCore/PacketRouter.cpp:106-133 | every dispatched item is in exactly one place, in dispatch order: handled, dropped, in its worker's hand, queued, or lost at shutdown; dropped only after its session is gone; on no other worker |
| `Server.HandledIsPrefix` | ServerCore/PacketRouter.cpp:64-133 | over every run the handled items of a session are a prefix of its dispatched ones, and all but those under way while it is registered |
| `Server.OneWorkerPerSession` | ServerCore/PacketRouter.cpp:85-88 | no two workers hold items of one session at once |
| `Server.OneTaskIffApart` | ServerCore/AsioSession.cpp:42-55 | for every run that ends with the task queue running and no thread between check and write: a session has a disconnect task if and only if a failure was reported for it, and more than one if and only if two threads overlapped |
| `Server.AtomicIsApart` | ServerCore/AsioSession.cpp:45-54 | with check and write as one step no run overlaps |
| `Server.OneTaskPerSession` | ServerCore/AsioSession.cpp:42-55 | without overlap a session gets one disconnect task if a report is written down while the task queue runs, and none otherwise, however many are reported and even if the queue stops |
| `Closing.RegisteredUntilClosed` | ServerCore/AsioSession.cpp:206-241 | over every run of at most 2^32 connections, races included: a session is registered if and only if it was created and not closed, and the service's counter is the number of sessions created less the number of closings |
| `Closing.NeverRegisteredAgain` | ServerCore/AsioSession.cpp:206-241 | and a closed session stays unregistered, however the run goes on |
| `Closing.ClosedOnceIffApart` | ServerCore/TaskQueue.cpp:6-23 | over every such run: a session is closed more than once, or about to be, if and only if a thread finds it while another one is about to close it |
| `Closing.CounterIffClosedOnce` | ServerCore/AsioSession.cpp:236-240 | over every such run: the counter is the number of registered sessions if and only if no session was closed twice |
| `Closing.CounterIffApart` | ServerCore/AsioSession.cpp:236-240 | and, when no thread is about to close one, if and only if no thread ever found a session while another one was about to close it |
| `Closing.ApartClosesOnce` | ServerCore/AsioSession.cpp:42-55 | a run without overlap in ProcessDisconnect has none of these either |
| `Closing.ClosedForGood` | ServerCore/AsioSession.cpp:206-241 | hence, without overlap: no task is left for a closed session; when none is left at all, exactly the sessions with a task are closed, but for those whose task was lost at shutdown, which stay registered; and the counter is right |
| `Closing.ShutdownLosesTask` | ServerCore/AsioSession.cpp:42-55 | a run in which the shutdown of the task queue drops a task and leaves the session open |
| `Closing.RaceClosesTwice` | ServerCore/AsioSession.cpp:45-54 | with overlap, two threads push two tasks, both close the session, and the counter is -1 |
| `Runtime.PacketRouter.constructor` | ServerCore/PacketRouter.cpp:7-41 | starts running with the number of workers asked for, or with half the cores, rounded down, but at least one, and with empty queues |
| `Runtime.PacketRouter.Dispatch` | ServerCore/PacketRouter.cpp:64-88 | while the router runs appends the item to the queue of worker uid % workers, and to no other; a negative index is a fault; afterwards nothing happens; this is the machine's dispatch step |
| `Runtime.PacketRouter.TestRunning` | ServerCore/PacketRouter.cpp:112 | is the machine's test step |
| `Runtime.PacketRouter.TryPop` | ServerCore/PacketRouter.cpp:112-118 | takes the front item of the worker's queue if there is one, even after a stop; this is the machine's pop step |
| `Runtime.PacketRouter.LookUp` | ServerCore/PacketRouter.cpp:120-129 | the worker goes on to handle the item if its session is registered and skips it otherwise; this is the machine's lookup step |
| `Runtime.PacketRouter.ClearQueues` | ServerCore/PacketRouter.cpp:43-62 | after the workers were joined every queue is emptied and its items are lost; this is the machine's clear step |
| `Runtime.TaskQueue.PushTask` | ServerCore/AsioSession.cpp:54 | appends a task, or drops it once the queue is stopped |
| `Runtime.Lifecycle.Accept` | ServerCore/AsioSession.cpp:35-40 | is the machine's accept step; the int32 counter wraps as the step says |
| `Runtime.Lifecycle.CheckState` | ServerCore/AsioSession.cpp:42-46 | is the machine's check step |
| `Runtime.Lifecycle.MarkAndPush` | ServerCore/AsioSession.cpp:52-54 | is the machine's write step, without another look at the state |
| `Runtime.Lifecycle.ProcessDisconnect` | ServerCore/AsioSession.cpp:42-55 | the two in a row are the machine's failure step |
| `Runtime.Lifecycle.TestRunning` | ServerCore/TaskQueue.cpp:6-8 | a free thread's test of the running flag is the machine's poll step |
| `Runtime.Lifecycle.TakeTask` | ServerCore/TaskQueue.cpp:6-15 | is the machine's take step, which may follow a stop |
| `Runtime.Lifecycle.DrainTasks` | ServerCore/TaskQueue.cpp:6-15 | the end of the shutdown is the machine's drain step: every task still queued is lost |
| `Runtime.Lifecycle.FindSession` | ServerCore/TaskQueue.cpp:6-23 | is the machine's find step |
| `Runtime.Lifecycle.CloseSession` | ServerCore/AsioSession.cpp:206-241 | is the machine's close step |
| `Replies.PackIs` | Tools/PacketGenerator/TestPacketHandler.h:69-96 | a reply becomes a frame of its encoding, with its padding and the sequence number 1, if and only if that has at most 65523 bytes, the empty packet from 65536 bytes on, and overruns its buffer between |
| `Replies.PackCarries` | GameServer/ClientPacketHandler.cpp:58-181 | every delivered packet is of the reply's type (1001, 1003, 1005 or 1011) and its body reads back, record by record, as the reply: for a chat the sender under 1 and the text under 2, for a login success under 1 and the id under 2, for an entry the room's id under 1 and its name under 2, for a list success under 1 and under 2 every room in order with its id, users, limit and name |
| `Replies.BodySize` | GameServer/ClientPacketHandler.cpp:60-181 | the size of each reply's encoding as a function of its names, texts and rooms |
| `Replies.RoomsTakeSpace` | GameServer/ClientPacketHandler.cpp:107-115 | every room takes at least four bytes of a list, six if its id is not 0 |
| `Chat.InsertElements` | GameServer/ChatRoom.cpp:21-25 | entering adds one entry for the player and keeps all others |
| `Chat.InsertKeepsOrder` | GameServer/ChatRoom.cpp:24 | and keeps the multimap's order of keys |
| `Chat.InsertPlaces` | GameServer/ChatRoom.cpp:24 | the new entry comes behind the last one whose key is not greater |
| `Chat.NextKeepsValid` | GameServer/ClientPacketHandler.cpp:41-183 | every request leaves players, sessions and rooms well linked |
| `ChatHistory.LoginExplained` | GameServer/ClientPacketHandler.cpp:66-92 | a login step keeps state and history together |
| `ChatHistory.CreateExplained` | GameServer/ClientPacketHandler.cpp:124-153 | so does a creation, although the player enters under its old room id |
| `ChatHistory.EnterExplained` | GameServer/ClientPacketHandler.cpp:41-64 | so does an entry, with the room id narrowed from int32 to uint16: into the last room with that id, and it faults exactly when there is none |
| `ChatHistory.ChatExplained` | GameServer/ClientPacketHandler.cpp:159-183 | so does a chat: to the last room with the id of the sender's room, and it faults exactly when there is none |
| `ChatHistory.ListExplained` | GameServer/ClientPacketHandler.cpp:94-122 | so does a list request |
| `ChatHistory.SessionsPermuted` | GameServer/ChatRoom.cpp:33-42 | the order of a room's entries does not change which sessions get how many copies |
| `ChatHistory.HistoryExplains` | GameServer/ClientPacketHandler.cpp:41-183 | over every run, with any number of creations: which packet went to which sessions how often, and whether a handler faulted, are what the history of logins, creations and entries tells, wrap-around of room ids and overruns included |
| `ChatHistory.ChatGoesTo` | GameServer/ClientPacketHandler.cpp:159-183 | over every run: a chat goes to exactly the players with an enter event for the room that the sender's room id leads to, one copy for each event, with the sender's name and the text in it: as a frame if and only if name and text fit 65523 bytes with their tags and lengths, as an empty packet if and only if they need 65536, and between it overruns its buffer |
| `ChatHistory.ChatReachesMembers` | GameServer/ClientPacketHandler.cpp:159-183 | over every run: this is the room the sender entered last, with the sender in it, if and only if fewer than 65536 rooms were created behind that one |
| `ChatHistory.ListNamesEveryRoom` | GameServer/ClientPacketHandler.cpp:103-119 | over every run: the list has a room at each of its positions with id, name and number of entries modulo 2^16, and says success exactly when there is a room; it is delivered if and only if its size, given by the rooms, is at most 65523 bytes, and the packet is empty if and only if it is at least 65536 |
| `ChatHistory.ListedRooms` | GameServer/ClientPacketHandler.cpp:107-115 | these are the last 65536 rooms, each once, by ascending id; with fewer rooms all of them in order of creation |
| `ChatHistory.LongListIsLost` | GameServer/ClientPacketHandler.cpp:103-119 | no list of 10921 rooms or more is delivered, whatever their names, and from 10923 on the packet is empty |
| `ChatAnswers.LoginAnswered` | GameServer/ClientPacketHandler.cpp:66-92 | over every run: a login adds one player with the session, the id as its name and no room, and nothing else changes; the session alone is told success and the id |
| `ChatAnswers.CreateAnswered` | GameServer/ClientPacketHandler.cpp:124-153 | over every run: the n-th creation makes a room with id n modulo 65536, the stored name and a limit of ten, whose one entry is the player under the id it had before; the table's entry for the id is this room, the player takes the id, nothing else changes, and the session alone is told the id and the name as it was sent |
| `ChatAnswers.EnterAnswered` | GameServer/ClientPacketHandler.cpp:41-64 | over every run: a request for roomId enters the last room whose order of creation differs from roomId by a multiple of 65536, adds one entry for the player under that id and sets its id, changes nothing else, and tells the session alone the room's id and name |
| `ChatAnswers.EnterFaults` | GameServer/ClientPacketHandler.cpp:41-64 | and it faults exactly for a session that never logged in, when there is no such room, or when the reply overruns its packet |
| `ChatAnswers.AskingChangesNothing` | GameServer/ClientPacketHandler.cpp:94-183 | chats and lists change nothing but the outbox |
| `ChatTable.RoomTable` | GameServer/ChatRoomManager.cpp:5-37 | over every run, with any number of creations: ids follow the order of creation modulo 2^16, every key is its room's id, and a room can be found exactly until 65536 more were created |
| `ChatTable.StrangerIsHeard` | GameServer/ChatRoomManager.cpp:9-13 | from 65536 rooms on a player that entered nothing chats to the room with id 0 and does not hear itself, unless the chat overruns its packet |
| `ChatTable.WrapIsReached` | GameServer/ChatRoomManager.cpp:9-13 | such a state is reached, by one login and 65536 creations |
| `ChatTable.ListIsLost` | GameServer/ClientPacketHandler.cpp:94-122 | a run that loses a list: after 10923 creations the session that asks gets an empty packet |
| `ChatServer.ChatRoom.Enter` | GameServer/ChatRoom.cpp:21-25 | puts the player behind the last entry whose key is not greater, between the others as they were |
| `ChatServer.ChatRoom.BroadCast` | GameServer/ChatRoom.cpp:33-42 | visits the owner of every entry, once for each entry, in order |
| `ChatServer.ChatRoom.GetRoomInfo` | GameServer/ChatRoom.cpp:56-65 | reports id, limit, name and the number of entries as a uint16 |
| `ChatServer.ChatRoomManager.CreateRoom` | GameServer/ChatRoomManager.cpp:5-15 | bumps the 16-bit number and writes the table under it, over an older room if there is one |
| `ChatServer.ChatRoomManager.GetRoom` | GameServer/ChatRoomManager.cpp:23-31 | finds the room under a number, or none |
| `ChatServer.Service.Answer` | GameServer/ClientPacketHandler.cpp:117-119 | MakePacket and Send: the frame or the empty packet goes to the outbox, an overrun is a fault |
| `ChatServer.Service.HandleLoginReq` | GameServer/ClientPacketHandler.cpp:66-92 | is the login step, the outcome of MakePacket included |
| `ChatServer.Service.HandleCreateChatRoomReq` | GameServer/ClientPacketHandler.cpp:124-153 | is the creation step, the outcome of MakePacket included |
| `ChatServer.Service.HandleEnterChatRoomReq` | GameServer/ClientPacketHandler.cpp:41-64 | is the entry step, the outcome of MakePacket included |
| `ChatServer.Service.HandleChatReq` | GameServer/ClientPacketHandler.cpp:159-183 | is the chat step, the outcome of MakePacket included |
| `ChatServer.Service.CollectRooms` | GameServer/ClientPacketHandler.cpp:107-115 | the loop collects the rooms of the table by ascending number and sets success when there is one |
| `ChatServer.Service.HandleChatRoomListReq` | GameServer/ClientPacketHandler.cpp:94-122 | is the list step, the outcome of MakePacket included |
| `Pools.RunConserves` | ServerCore/Pool.h:24-50 | over every run in which only deleters push, each object ever created is free or held, and that once |
| `Pools.OneHolderPerObject` | ServerCore/Pool.h:15-50 | hence the free stack has no duplicates, nothing is free and held, free and held are all objects created, and none has two holders |
| `Pools.ReleasedLast` | ServerCore/Pool.h:24-50 | what was released last is handed out next, and then all is as before |
| `Pools.PutShares` | ServerCore/Pool.h:46-50 | pushing an object that is still held gives it two holders |
| `Pools.ObjectPool.InitPool` | ServerCore/Pool.h:15-21 | stocks that many new objects |
| `Pools.ObjectPool.Pop` | ServerCore/Pool.h:24-43 | hands out the top of the stack, or a new object |
| `Pools.ObjectPool.Deleter` | ServerCore/Pool.h:40-50 | is the release step |
| `Pools.RunAccounted` | ServerCore/Pool.h:115-152 | every run keeps the books of the packet pool, wrap-around of the counters included |
| `Pools.PacketAccounting` | ServerCore/Pool.h:99-152 | queue length, use, total and available as functions of hits, misses and pushes; a packet is taken back exactly when 1 <= hits + accepted <= size; so at most size pushes are ever taken back and at most twice size pops find a packet |
| `Pools.PacketPool.Init` | ServerCore/Pool.h:99-113 | fills the queue with that many new packets and sets the counters |
| `Pools.PacketPool.Pop` | ServerCore/Pool.h:115-135 | takes the front packet or makes one, with the counters of that step |
| `Pools.PacketPool.Push` | ServerCore/Pool.h:137-152 | takes the packet back or not, with the counters of that step |

## Left out

- Chat and login messages beyond the six of `Messages`: they repeat these shapes.
- Arenas, descriptors, reflection, accessors, and the input stream's chunks and slop bytes: parsing starts from one array.
- ProtocolPb.ChatRoomListAck.ByteSizeLong: requires unknown fields that are valid records, which is what parsers deliver and all that the generated code ever stores.
- `PacketBuffer::OnRead` with a destination buffer (ServerCore/PacketBuffer.cpp:39-47): nothing calls it.
- Overlapping memory in `PacketBuffer::Clear`: the copy is modelled as if source and destination did not overlap; they do only with more than 294912 unread bytes.
- What handlers do with an item whose bytes were replaced: `Queued` says what they read, claims about contents elsewhere are made at the moment of dispatch, and those about the router are on the identity and order of items.
- Buffers of closed sessions stay in the map of session buffers; nothing is claimed about them.
- Server.RunKeepsRouter: is about at most 2^31 connections; the int32 counter yields negative UIDs after that, which `Dispatch` uses as an index (`Server.WorkerIndexInRange`).
- Server.RunKeepsLife: is about at most 2^32 connections, and about runs without overlap in ProcessDisconnect; `Closing` treats the others.
- UIDs repeat after 2^32 connections; the machine names a session by its UID.
- `PushTask` tests the running flag and pushes in one step of the machine.
- Accepting and closing a session change the service's counter and the session manager under different locks; in the machine each is one step, so claims about the counter hold between such steps.
- `Dispatch` tests the running flag and pushes in one step of the machine; a worker's test and pop are two.
- Reuse of a session object for a second connection: its state and its players are not reset in the original, and the machine has one connection for each object.
- The idle tasks that the task queue pushes on shutdown (they name no session), restarting the router or the task queue, and `CloseService`.
- What follows an overrun of MakePacket: the run counts as faulted from there on.
- The send path behind `Session::Send`: an empty packet is a packet that puts nothing on the wire.
- `ChatRoom::Leave` and `RemoveRoom`: no handler calls them. The limit on users of a room is stored and never enforced.
- Concurrent chat requests: handlers are steps, as each takes the lock of a room or of the manager.
- The bool that three handlers forget to return, logging, statistics, sockets, configuration and threads' sleeping times.
- `ObjectPool::Clean`, `PacketPool::Clear` and interleavings inside `Push`: the accounting is about sequential runs after one `Init`.
- `GetSize` inside `ObjectPool::Pop` (ServerCore/Pool.h:35), which would lock the same mutex twice: it is an argument of a log line.
- User interface, stress client and code generators.
