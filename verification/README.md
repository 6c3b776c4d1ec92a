# Shero: a verified model

Shero is a reactor network library in C++: an epoll event loop with channels and timers,
TCP connections and connectors on top of it, and HTTP and websocket codecs on top of those.
This project models its stateful core in Dafny and proves what the core is for: no byte of
output is lost or reordered, no functor is forgotten, every codec reads back what it writes
however the bytes arrive, and poller, timerfd and sockets stay in the state the objects say
they are in. Where the code does not keep such a promise, a lemma gives inputs that break
it, and a condition says for all inputs when it is kept.

`dafny verify dfyconfig.toml` checks everything.

## How it is laid out

Each component has a part on values and a part on objects. The part on values defines what
every operation does as a total function, or as the steps of a transition system in which
kernel answers, clock readings and the actions of other threads are part of the step, and
holds the theorems. The part on objects has the classes and loops of the source, each method
proved to do exactly what the value part says.

| component | on values | on objects |
|---|---|---|
| byte buffer and integer codecs | `Bytes`, `Codec` | `Buffers` |
| websocket frames and delivery | `WebSocket`, `WebSocketWire`, `WebSocketCuts` | `WSStructure` |
| HTTP requests, parser and printer | `Http`, `HttpRoundTrip`, `HttpText` | `HttpParsing` |
| chunked bodies in the HTTP client | `Chunked`, `ChunkedLines`, `ChunkedCuts` | `HttpClient` |
| channels, poller, kernel interest set | `Poller` | `Poller` |
| event loop and foreign threads | `Reactor` | `EventLoops` |
| output path of a connection | `Connection` | `TcpConnections` |
| event loop and connection together | `Pipeline` | |
| timer queue | `TimerQueue`, `TimerCallbacks`, `TimerLedger` | `Timers` |
| connector with retries | `Connector` | `TcpConnectors` |

The kernel is modelled by what it answers: `readv`, `write`, `connect`, `getsockopt` and
`epoll_wait` return any value their specification allows, as a parameter or as part of a step;
eventfd, timerfd and the epoll interest set are state. The clock is a function from the number
of the reading within a call to a value; nothing is assumed of it except where a lemma says so.

## What was found

The theorems hold of the code under the conditions they state. These are the places where the
code does not do what one would expect. Each has a lemma that shows it at an input, or at every
input of the failing kind, and one that says for all inputs when the code does meet the
expectation.

- A websocket message of more than three fragments never arrives, and its first three frames
  are dropped; it arrives whole exactly when it has at most three
  (`WebSocket.RoundTrip`).
- A websocket message whose bytes arrive in two reads can be lost, because a decode that runs
  out of bytes does not give back what it took (`WebSocket.SplitMessageIsLost`). A message of
  one frame is delivered exactly when the first read ends before the second byte
  (`WebSocketCuts.SplitMessage`); a stream of such messages exactly when every read ends at the
  end of a message or one byte behind it (`WebSocketCuts.ExactlyGoodCutsDeliver`), and that is
  enough for fragmented messages too (`WebSocketCuts.GoodCutsDeliver`).
- A printed request comes back as a GET whatever its method, its query with the question mark,
  and its fragment as part of path or query (`HttpRoundTrip.PrintThenParse`,
  `HttpRoundTrip.APostComesBackAsGet`). Method, path, query and fragment come back as they were
  exactly for a GET with neither query nor fragment (`HttpRoundTrip.TargetComesBack`).
- A chunk-header line is looked for in the bytes left over and one more received segment. It is
  found exactly when it is whole there, with the CRLF before it (`ChunkedCuts.FoundWhenInSight`);
  otherwise what has arrived of it is thrown away (`ChunkedCuts.CutHeaderIsLost`). The body is
  right when every header line is found in this way (`Chunked.Reassembled`), and where no data
  byte can be taken for a header, only then (`ChunkedCuts.ConditionIsExact`).
- A failed write in `handleWrite` empties the output buffer, and a reset peer in `sendInLoop`
  drops the data (`Connection.BytesAreLost`); these two steps are the only ones that lose bytes
  (`Connection.ConservedUnlessLost`).
- `shutdown()` from another thread takes effect at once, while what that thread has sent may
  still be queued: the write handler can issue SHUT_WR before it (`Pipeline.ShutdownOvertakes`).
  Everything sent before is in the kernel exactly when none of it is in batch or queue at that
  action, and always when the functor of `shutdown()` issues it (`Pipeline.ShutdownBehindSends`).
- Every re-arming of the timerfd drops the events that are overdue at its reading of the clock,
  unrun, and it is made when an earliest event is added, when the earliest is deleted or
  rescheduled, and at the end of each firing. Over a run the events dropped are exactly those
  that some re-arming finds overdue (`TimerLedger.DroppedOnlyLate`); in one firing an event
  is lost exactly when it arrives between the first reading and the last
  (`TimerQueue.LostBetweenReadings`, `TimerQueue.ALostEvent`).
- An event that arrives in the very millisecond of that reading disarms the timerfd
  (`TimerQueue.ADisarmedTimer`); an operation leaves deadline and set in agreement exactly when
  no such event is met (`TimerQueue.StepAgrees`).
- A connect begun while a `resetChannel` functor is still queued loses its channel to that
  functor, for example when `startInLoop` was queued by another thread before the error of the
  previous attempt was handled in the same round (`Connector.AChannelIsDropped`). The channel
  survives the start and every queued functor exactly when there is none
  (`Connector.QueuedResetDropsTheNewChannel`).
- The first connection handed over takes the retry timer out of the loop. A retry that has been
  set is performed by some run of the loop exactly when no connection has been handed over
  (`Connector.RetryHappensUntilASuccess`, `Connector.NoRetryAfterASuccess`).

Where code and documentation differ the model follows the code: the diagram in
shero/net/websocket/WSStructure.h:15-30 shows a 32-bit mask and the reserved bits of RFC 6455,
while the code writes and reads a mask of 32 bytes, numbers CONTINUE as 1 and lets the compiler
lay out the bit fields (modelled as GCC does on a little-endian machine).

## Model

| member | source | states |
|---|---|---|
| `Bytes.XorByteTwice` | shero/net/websocket/WSStructure.cc:70-72 | xor with the same mask byte twice gives the byte back |
| `Bytes.XorByteDigit` | shero/net/websocket/WSStructure.cc:70-72 | a bit of the result is 1 exactly where the two bytes differ |
| `Bytes.OrDisjoint` | shero/net/Buffer.cc:146-149 | or-ing a shifted group into bits that are still zero adds it |
| `Bytes.BigEndianRoundTrip` | shero/net/Buffer.cc:47-84 | big-endian bytes of a number that fits give the number back |
| `Bytes.BigEndianAt` | shero/net/Buffer.cc:47-84 | the byte at i of w is the one worth 256^(w-1-i) |
| `Codec.TwosComplementRoundTrip` | shero/net/Buffer.cc:58-72 | every signed value survives being stored in an unsigned integer of its width |
| `Codec.ToBitsIsModulo` | shero/net/Buffer.cc:58-72 | storing any integer in an unsigned one of its width keeps it modulo 2^bits |
| `Codec.ZigzagEncodes` | shero/net/Buffer.cc:114-126 | with wrapping arithmetic zigzag is 2v or -2v-1, the most negative number included, and fits the width |
| `Codec.ZigzagDecodes` | shero/net/Buffer.cc:128-134 | the shift-and-xor form is the alternating-sign map |
| `Codec.ZigzagRoundTrip` | shero/net/Buffer.cc:114-134 | decoding a zigzag encoding gives the value for every value of the signed range |
| `Codec.EncodeVarLength` | shero/net/Buffer.cc:178-187 | a number of 7k bits takes at most k varint bytes |
| `Codec.EncodeVarAt` | shero/net/Buffer.cc:178-187 | byte i carries the seven bits worth 128^i, and the top bit exactly when it is not the last |
| `Codec.VarRoundTrip` | shero/net/Buffer.cc:141-202 | from any point of the reading loop, the written bytes give the value and leave exactly what followed |
| `Codec.DecodeVarConsumes` | shero/net/Buffer.cc:141-171 | for any input a varint read takes a prefix of the queue of at most one byte per seven bits |
| `Codec.DecodeVarValue` | shero/net/Buffer.cc:141-171 | for any input, truncated or over-long, the value is the sum of the seven-bit groups up to the first byte without the top bit, modulo 2^bits |
| `Codec.EncodeFitsTemporary` | shero/net/Buffer.cc:178-202 | every value that fits its kind takes at least one byte and no more than `tmp` holds |
| `Codec.RoundTrip` | shero/net/Buffer.cc:46-202 | each integer form, fixed, varint or zigzag, reads back what it wrote in front of any bytes |
| `Codec.MixedRoundTrip` | shero/net/Buffer.cc:46-202 | any mixed sequence written and read in order gives the same values and leaves the queue as before |
| `Buffers.FindCRLF` | shero/net/Buffer.h:116-119 | the first CRLF, or none anywhere |
| `Buffers.Buffer.constructor` | shero/net/Buffer.h:33-37 | an empty queue with the reserved prefix |
| `Buffers.Buffer.SearchCRLF` | shero/net/Buffer.h:116-119 | the loop finds the first CRLF of the contents |
| `Buffers.Buffer.Peek` | shero/net/Buffer.h:125-126 | the readable bytes in place are the front of the queue |
| `Buffers.Buffer.EnsureWriteableBytes` | shero/net/Buffer.h:77-81 | the space asked for is there and the contents are unchanged |
| `Buffers.Buffer.ResizeBuffer` | shero/net/Buffer.h:142-151 | contents kept, space always found; it compacts in place exactly when that is enough, and then the forward copy goes to a lower address |
| `Buffers.Buffer.WriteLen` | shero/net/Buffer.cc:107-111 | appends to the queue, whatever had to move |
| `Buffers.Buffer.Store` | shero/net/Buffer.cc:109 | the copy goes behind the contents and leaves them alone |
| `Buffers.Buffer.Retrieve` | shero/net/Buffer.h:83-89 | drops from the front; too many empties the queue |
| `Buffers.Buffer.RetrieveAll` | shero/net/Buffer.h:91-93 | the queue is empty after |
| `Buffers.Buffer.ReadLen` | shero/net/Buffer.cc:75-79 | takes bytes off the front of the queue |
| `Buffers.Buffer.RetrieveAllAsString` | shero/net/Buffer.h:107-109 | takes the whole queue |
| `Buffers.Buffer.ReadFd` | shero/net/Buffer.cc:13-35 | what readv delivers is appended whole, within the free space or spilt into the stack block; a failure changes nothing and reads as SIZE_MAX |
| `Buffers.Buffer.WriteFixed` | shero/net/Buffer.cc:81-101 | appends the encoding of the value |
| `Buffers.Buffer.ReadFixed` | shero/net/Buffer.cc:46-73 | decodes off the queue; with too few bytes it gives 0 and takes nothing |
| `Buffers.Buffer.WriteVarUint` | shero/net/Buffer.cc:178-187 | appends the encoding; the temporary array is never overrun |
| `Buffers.Buffer.Fill` | shero/net/Buffer.cc:179-185 | the loop writes the encoding into the temporary array, within its bounds |
| `Buffers.Buffer.WriteVarInt` | shero/net/Buffer.cc:174-176 | appends the zigzag encoding |
| `Buffers.Buffer.ReadVarUint` | shero/net/Buffer.cc:141-171 | the loop decodes as the codec says for any contents, truncated or over-long |
| `Buffers.Buffer.ReadVarInt` | shero/net/Buffer.cc:137-139 | the same through zigzag |
| `WebSocket.MaskedTwice` | shero/net/websocket/WSStructure.cc:70-72 | masking twice with the 32-byte cyclic mask gives the data back |
| `WebSocket.HeadRoundTrip` | shero/net/websocket/WSStructure.h:34-55 | every head with an opcode below 16 and a payload code below 128 survives its two bytes |
| `WebSocket.LengthRoundTrip` | shero/net/websocket/WSStructure.cc:45-62 | each of the three length forms is read back as the size it was written for |
| `WebSocket.ReadFrame` | shero/net/websocket/WSStructure.cc:86-151 | a round that goes on takes at least the head, and with a frame also mask and payload |
| `WebSocket.FrameRoundTrip` | shero/net/websocket/WSStructure.cc:38-174 | one frame, any mask, any length form, in front of any bytes, is read back whole |
| `WebSocketWire.FrameLayout` | shero/net/websocket/WSStructure.cc:38-77 | head, length, mask and payload stand at 2, 2, 4 or 10, and 32 bytes further |
| `WebSocketWire.HeadOnTheWire` | shero/net/websocket/WSStructure.h:34-55 | byte 0 is fin and 16 times the opcode; byte 1 is odd, the mask bit, and twice the size, 126 or 127 |
| `WebSocketWire.LengthOnTheWire` | shero/net/websocket/WSStructure.cc:45-62 | each length byte is the size digit in base 256 its place is worth |
| `WebSocketWire.MaskedDigit` | shero/net/websocket/WSStructure.cc:146-150 | masking and unmasking flip exactly the bits set in the mask byte of the index modulo 32 |
| `WebSocketWire.PayloadOnTheWire` | shero/net/websocket/WSStructure.cc:64-76 | payload byte i has exactly the bits in which data byte i and mask byte i modulo 32 differ |
| `WebSocketWire.OtherOpcodesAreSkipped` | shero/net/websocket/WSStructure.cc:94-104 | a head is passed over exactly when its opcode is not 1, 2 or 3; no frame is taken without the mask bit |
| `WebSocketWire.FirstOpcodeIsReported` | shero/net/websocket/WSStructure.cc:154-156 | the opcode of a message is that of its first fragment whose opcode is not 1, and 0 when there is none |
| `WebSocketWire.JoinedInOrder` | shero/net/websocket/WSStructure.cc:138-152 | the data of a message are those of its fragments in their order |
| `WebSocket.DecodeEncoded` | shero/net/websocket/WSStructure.cc:79-174 | with a round for each fragment the joined data and the first opcode that is not CONTINUE come out |
| `WebSocket.DecodeTooMany` | shero/net/websocket/WSStructure.cc:84-173 | with more fragments than rounds nothing comes out and the frames looked at are gone |
| `WebSocket.RoundTrip` | shero/net/websocket/WSStructure.cc:30-174 | decode of encode, whatever follows, is the whole message exactly when it has at most three fragments |
| `WebSocket.NoEarlyDelivery` | shero/net/websocket/WSStructure.cc:84-173 | no strict prefix of an encoding of any number of fragments decodes to a message |
| `WebSocket.PartialReadKeepsBytes` | shero/net/websocket/WSStructure.cc:86-144 | a decode of a strict prefix leaves the bytes in place exactly when fewer than two had arrived |
| `WebSocket.SplitMessageIsLost` | shero/net/websocket/WSStructure.cc:86-144 | a 34-byte message that decodes when read at once is lost when two bytes are decoded first |
| `WebSocketCuts.DecodeCosts` | shero/net/websocket/WSStructure.cc:79-174 | no bytes shorter than its one-frame encoding decode to a message |
| `WebSocketCuts.SplitMessage` | shero/net/websocket/WSStructure.cc:86-144 | a message of one frame, any length form, cut anywhere: the second decode delivers it exactly when less than two bytes had been decoded first |
| `WebSocket.SuccessConsumes` | shero/net/websocket/WSStructure.cc:86-163 | every successful decode takes at least 34 bytes, so the delivery loop ends |
| `WebSocket.StreamDelivery` | shero/net/websocket/WSServer.cc:125-136 | from any prefix of a stream of messages the loop delivers exactly those that are whole, in order; from the whole stream all, leaving nothing |
| `WebSocketWire.WholesInOrder` | shero/net/websocket/WSServer.cc:125-136 | the messages delivered stand in the order of the stream, one for each |
| `WebSocketWire.CompleteExactly` | shero/net/websocket/WSServer.cc:125-136 | those counted as whole are exactly the ones that end within the bytes that have arrived |
| `WebSocketCuts.WhatArrived` | shero/net/websocket/WSServer.cc:125-136 | of the message that is not whole the loop leaves all, if it is at most one byte, and at least a head less otherwise |
| `WebSocketCuts.GoodCutsDeliver` | shero/net/websocket/WSServer.cc:125-136 | a stream in any number of reads is delivered whole when each read ends at the end of a message or one byte behind it |
| `WebSocketCuts.ReceiveCosts` | shero/net/websocket/WSServer.cc:125-136 | whatever is received, what is handed over costs no more bytes than arrived |
| `WebSocketCuts.ExactlyGoodCutsDeliver` | shero/net/websocket/WSServer.cc:125-136 | for messages of one frame it is delivered whole exactly then |
| `WSStructure.EncodeMessage` | shero/net/websocket/WSStructure.cc:38-77 | writes the frame of the original data and leaves the message masked |
| `WSStructure.WriteHead` | shero/net/websocket/WSStructure.cc:39-62 | writes head and length for the size |
| `WSStructure.MaskInPlace` | shero/net/websocket/WSStructure.cc:69-72 | the in-place loop masks every byte once |
| `WSStructure.EncodeMessages` | shero/net/websocket/WSStructure.cc:30-36 | writes all fragments, fin on the last only, each as its object is when its turn comes, and leaves each object masked once for every time it is listed |
| `WSStructure.ListedOnce` | shero/net/websocket/WSStructure.cc:30-36 | with every object listed once these are the messages as they were, and each is left masked once |
| `WSStructure.DecodeMessage` | shero/net/websocket/WSStructure.cc:79-174 | the loop returns what Decode returns, null included, and leaves what it leaves |
| `WSStructure.DecodeFrame` | shero/net/websocket/WSStructure.cc:86-170 | one round over the buffer is ReadFrame, on every early exit too |
| `WSStructure.Unmask` | shero/net/websocket/WSStructure.cc:146-150 | the unmasking loop is the mask function |
| `WSStructure.WSServer.WSCommunication` | shero/net/websocket/WSServer.cc:125-136 | the messages handled and the bytes left are those of Deliver |
| `Http.Find` | shero/net/http/HttpParser.cc:44-60 | the first occurrence or the end |
| `Http.Parse` | shero/net/http/HttpParser.cc:8-40 | success and the finished state go together, and a false return can be resumed |
| `Http.FinishedParse` | shero/net/http/HttpParser.cc:8-40 | bytes behind a finished request change nothing but the rest |
| `Http.SplitInvariance` | shero/net/http/HttpParser.cc:8-104 | a call that returns false, then more bytes and another call, give result, state, request and rest of one call on all the bytes, also after a refused request line |
| `Http.AnyPieces` | shero/net/http/HttpParser.cc:8-104 | the same for any number of pieces, from any resting point |
| `Http.AnyPiecesFromEmpty` | shero/net/http/HttpParser.cc:8-104 | the same from an empty buffer |
| `HttpRoundTrip.RequestLineParses` | shero/net/http/HttpCommon.cc:82-92 | the printed request line is one line and parses to path, query and version |
| `HttpRoundTrip.HeaderLineParses` | shero/net/http/HttpParser.cc:84-104 | a printed header line parses to one assignment of name to value |
| `HttpRoundTrip.HeaderLinesParse` | shero/net/http/HttpCommon.cc:97-102 | the printed lines parse to the assignments in the order of the walk |
| `HttpRoundTrip.AssignedIsOverlay` | shero/net/http/HttpCommon.cc:97-102 | in whatever order the map is walked, those assignments overlay it on what was there, case-insensitive keys included |
| `HttpText.KeysAreNames` | shero/net/http/HttpCommon.cc:9-12 | two names are one key exactly when up to the first zero byte they are equal byte by byte, or letters in their two cases |
| `HttpText.SetTwice` | shero/net/http/HttpCommon.cc:35-37 | a second header of the same name replaces the value and keeps the first spelling; of another name it is a second entry; the rest stays |
| `HttpText.CaseDoesNotMatter` | shero/net/http/HttpCommon.cc:35-37 | H and then h leave one entry, spelt H, with the second value |
| `HttpText.ConnectionIsReplaced` | shero/net/http/HttpCommon.cc:94-102 | unless the request is a websocket one a stored header is printed, in its place, exactly when its name is not connection in any spelling |
| `HttpText.DumpOmitsConnection` | shero/net/http/HttpCommon.cc:75-111 | such a request is printed as if that header were not stored |
| `HttpRoundTrip.PrintThenParse` | shero/net/http/HttpCommon.cc:75-111 | printing and parsing any printable request gives version, path, query and the printed headers back, leaves exactly the body, and makes the method GET |
| `HttpText.PrintedText` | shero/net/http/HttpCommon.cc:82-111 | the text of the first line, of a header, of the Connection and content-length lines, for every method, target, version and body |
| `HttpText.DecimalReads` | shero/net/http/HttpCommon.cc:104-106 | a printed number read digit by digit from the left is that number, without a leading zero |
| `HttpText.LengthComesBack` | shero/net/http/HttpCommon.cc:104-106 | the content-length that comes back from a printed request reads as the size of its body |
| `HttpRoundTrip.TargetComesBack` | shero/net/http/HttpParser.cc:42-82 | method, path, query and fragment of a printed request come back as they were exactly for a GET without query and fragment |
| `HttpRoundTrip.APostComesBackAsGet` | shero/net/http/HttpParser.cc:42-82 | POST /a?b#c comes back as GET with path /a, query ?b#c and no fragment |
| `HttpParsing.HttpRequest.SetHeader` | shero/net/http/HttpCommon.cc:35-37 | assignment under the case-insensitive key keeps the first spelling |
| `HttpParsing.Dump` | shero/net/http/HttpCommon.cc:75-111 | the printing code writes Dump of the request |
| `HttpParsing.DumpHeaders` | shero/net/http/HttpCommon.cc:97-102 | the loop over the map writes every header but the replaced Connection |
| `HttpParsing.HttpParser.ParserHttpRequest` | shero/net/http/HttpParser.cc:8-40 | the loop on the buffer ends and does what Parse says to state, request and buffer |
| `HttpParsing.HttpParser.LineRound` | shero/net/http/HttpParser.cc:11-23 | a round in ParserLine returns with the outcome, or takes a line and leaves the outcome unchanged |
| `HttpParsing.HttpParser.HeaderRound` | shero/net/http/HttpParser.cc:24-34 | the same in ParserHeaders |
| `HttpParsing.HttpParser.ParserRequestLine` | shero/net/http/HttpParser.cc:42-82 | accepts and stores as ParseLine does, path and query stored even when the version is refused |
| `HttpText.LinesAccepted` | shero/net/http/HttpParser.cc:42-82 | a request line is accepted exactly when it is a known method, a target and HTTP/1.0 or HTTP/1.1 with one space between |
| `HttpParsing.HttpParser.ParserHeaderLine` | shero/net/http/HttpParser.cc:84-104 | the trimming loops and the assignment are ParseHeader |
| `HttpText.HeadersAccepted` | shero/net/http/HttpParser.cc:84-104 | a line without a colon ends the headers; any other sets what is before the first colon to what is behind it, trimmed |
| `HttpParsing.HttpParser.Trim` | shero/net/http/HttpParser.cc:92-100 | the two loops take the space off both ends |
| `HttpText.TrimsExactly` | shero/net/http/HttpParser.cc:92-100 | what is taken off both ends is white space, and what is left neither begins nor ends with it |
| `Chunked.Execute` | shero/net/http/client/httpclient_parser.rl:151-157 | the chunk-header machine never passes the end and has taken a byte when it is done |
| `Chunked.NextHeader` | shero/net/http/client/HttpClient.cc:170-194 | every header found shrinks what is left, so the loops end |
| `Chunked.ExecuteStops` | shero/net/http/client/httpclient_parser.rl:112-117 | the machine stops at the end of the header line whatever follows |
| `Chunked.HexValueStops` | shero/net/http/client/httpclient_parser.rl:96-99 | bytes behind the line do not change the size |
| `Chunked.HexLineIsHeader` | shero/net/http/client/httpclient_parser.rl:96-106 | every size below 2^31 printed in hexadecimal is a header line for that size |
| `ChunkedLines.SpelledLine` | shero/net/http/client/httpclient_parser.rl:96-99 | every spelling of a size below 2^31, each digit in either case and leading zeros allowed, announces the sum of its digits times powers of 16 |
| `ChunkedLines.SpelledIsHeader` | shero/net/http/client/httpclient_parser.rl:151-157 | with CRLF or a line feed alone behind it |
| `ChunkedLines.ExtendedIsHeader` | shero/net/http/client/httpclient_parser.rl:151-155 | an extension ;name=value changes nothing |
| `ChunkedLines.SpelledSize` | shero/net/http/client/httpclient_parser.rl:96-99 | a size of any length is cut to 2^63-1 and then to its low 32 bits as a signed number |
| `ChunkedLines.Int32IsLow` | shero/net/http/client/httpclient_parser.rl:96-99 | those are in the range of an int and equal modulo 2^32 |
| `ChunkedLines.HugeSize` | shero/net/http/client/httpclient_parser.rl:96-99 | so a size of 2^63-1 or more reads as -1 |
| `Chunked.HeaderStep` | shero/net/http/client/HttpClient.cc:170-194 | a header line whole in what is left over and the next segment is found in one round, and the rest of the stream is left |
| `Chunked.PullStep` | shero/net/http/client/HttpClient.cc:204-225 | the filling loop takes exactly the data of the chunk out of the following segments |
| `Chunked.DataStep` | shero/net/http/client/HttpClient.cc:199-226 | the data of a chunk is taken whole wherever the cuts fall |
| `Chunked.Reassembled` | shero/net/http/client/HttpClient.cc:164-229 | for all chunks, header lines with extensions and received segments, empty ones included, the body is the concatenation of the chunks when each header line is whole by the time one more segment has been received |
| `ChunkedLines.UpperCaseChunk` | shero/net/http/client/HttpClient.cc:170-225 | for example a chunk of size A: its ten bytes, whatever they are |
| `ChunkedLines.DataInOrder` | shero/net/http/client/HttpClient.cc:198-225 | the body is the data of the chunks in their order |
| `Chunked.SparedIsUncut` | shero/net/http/client/HttpClient.cc:164-229 | a cut into non-empty segments that goes through no header line and no CRLF before one meets that condition |
| `ChunkedCuts.HexTextIsPlain` | shero/net/http/client/httpclient_parser.rl:154-155 | a printed size is digits without a leading zero, of that value |
| `ChunkedCuts.SuffixIsSmaller` | shero/net/http/client/httpclient_parser.rl:96-99 | what is left of such a line without its first digits is a smaller size |
| `ChunkedCuts.GotTakes` | shero/net/http/client/HttpClient.cc:170-194 | a header that is found takes bytes |
| `ChunkedCuts.AfterDrop` | shero/net/http/client/HttpClient.cc:170-194 | a search begun inside a line finds some last digits of it and what follows, or lies behind it, or fails |
| `ChunkedCuts.Missed` | shero/net/http/client/HttpClient.cc:176-194 | so does a search for a line that is not whole yet: a smaller size, something behind the line, null or an exception |
| `ChunkedCuts.FoundWhenInSight` | shero/net/http/client/HttpClient.cc:176-194 | the search gives the line's size and leaves what follows it exactly when the line and the CRLF before it are whole in what is left over and one more segment |
| `ChunkedCuts.TakenShort` | shero/net/http/client/HttpClient.cc:199-227 | a chunk taken for a shorter one ends the body or the response |
| `ChunkedCuts.ConditionIsExact` | shero/net/http/client/HttpClient.cc:164-229 | for data without hexadecimal digits and carriage returns the body is right exactly when every header line is whole in this sense |
| `ChunkedCuts.CutHeaderIsLost` | shero/net/http/client/HttpClient.cc:170-194 | the same five bytes: found when the line begins in what is left over, lost when it begins in a segment of its own |
| `HttpClient.ChunkParser.Run` | shero/net/http/client/httpclient_parser.rl:163-224 | from its initial state the machine stops where Execute does, with the size and the last-chunk flag set |
| `HttpClient.FindHeader` | shero/net/http/client/HttpClient.cc:170-194 | the inner loop over the segment index is NextHeader |
| `HttpClient.FillChunk` | shero/net/http/client/HttpClient.cc:206-225 | the filling loop is Pull |
| `HttpClient.TakeChunk` | shero/net/http/client/HttpClient.cc:199-226 | both branches are TakeData |
| `HttpClient.ReassembleChunked` | shero/net/http/client/HttpClient.cc:164-229 | the nested loops return the body, null or exception that ReadBody says |
| `HttpClient.ReadByLength` | shero/net/http/client/HttpClient.cc:230-249 | the first Content-Length bytes of the joined segments, or null when they are too few |
| `HttpClient.JoinIgnoresCuts` | shero/net/http/client/HttpClient.cc:231-233 | cutting any segment anywhere leaves the joined bytes unchanged |
| `Poller.UpdateAgrees` | shero/net/EPollPoller.cc:43-70 | pushing a mask keeps map, statuses and kernel in agreement and issues no illegal epoll_ctl |
| `Poller.RemoveAgrees` | shero/net/EPollPoller.cc:72-87 | so does removing a registered channel |
| `Poller.StepAgrees` | shero/net/EPollPoller.cc:43-101 | every allowed operation meets the asserts of the source and keeps the agreement |
| `Poller.RunAgrees` | shero/net/EPollPoller.cc:43-101 | after any sequence of allowed operations a channel is in the map iff not NEW and in the kernel with its own mask iff ADD, and no epoll_ctl has failed |
| `Poller.AlwaysAgrees` | shero/net/EPollPoller.cc:43-101 | from an empty poller and channels that have just been made, map, statuses and kernel agree after every sequence of allowed operations |
| `Poller.KernelWatches` | shero/net/EPollPoller.cc:89-101 | the kernel watches an fd iff some channel for it has status ADD |
| `Poller.EPollPoller.UpdateChannel` | shero/net/EPollPoller.cc:43-70 | does to map, status and kernel what Updated says |
| `Poller.EPollPoller.RemoveChannel` | shero/net/EPollPoller.cc:72-87 | does what Removed says |
| `Poller.EPollPoller.Update` | shero/net/EPollPoller.cc:89-101 | one epoll_ctl, which fails exactly when it is illegal |
| `Poller.Channel.AddListenEvents` | shero/net/Channel.cc:26-36 | adds the bit, pushes the mask and keeps the agreement |
| `Poller.Channel.DelListenEvents` | shero/net/Channel.cc:38-48 | removes the bit, pushes the mask and keeps the agreement |
| `Poller.Channel.DelAllListenEvents` | shero/net/Channel.cc:50-53 | clears the mask, pushes it and keeps the agreement |
| `Poller.Channel.RemoveFromLoop` | shero/net/Channel.cc:89-91 | takes the channel out and keeps the agreement |
| `Reactor.StepKeepsInv` | shero/net/EventLoop.cc:82-166 | every step of every thread keeps the invariant |
| `Reactor.NoLostWakeup` | shero/net/EventLoop.cc:82-166 | in every interleaving, about to block with functors pending or after a quit, the eventfd is readable or a thread has still to write it |
| `Reactor.FunctorsConserved` | shero/net/EventLoop.cc:124-150 | executed, rest of the batch and queue are in this order all that was pushed |
| `Reactor.ThreadOrder` | shero/net/EventLoop.cc:124-150 | the functors of one thread run in the order of its calls, none skipped |
| `Reactor.RunsBatch` | shero/net/EventLoop.cc:143-149 | undisturbed, the batch runs to its end |
| `Reactor.RoundRunsAll` | shero/net/EventLoop.cc:88-150 | in every interleaving with other threads, what was queued at the poll has all run when the round ends, in push order |
| `Reactor.WakeupSuffices` | shero/net/EventLoop.cc:88-101 | with the eventfd readable there is such a round, and undisturbed it leaves nothing pending |
| `EventLoops.EventLoop.Wakeup` | shero/net/EventLoop.cc:152-158 | a step of the system; a full counter stays full |
| `EventLoops.EventLoop.QueueInLoop` | shero/net/EventLoop.cc:124-133 | appends the functor and adds one to the eventfd, up to its maximum, exactly from another thread or during the batch |
| `EventLoops.EventLoop.Quit` | shero/net/EventLoop.cc:109-114 | clears the flag, wakes the loop exactly from another thread, and leaves queue and batch alone |
| `EventLoops.EventLoop.RunInLoop` | shero/net/EventLoop.cc:116-122 | runs at once on the loop thread, otherwise queues and wakes |
| `EventLoops.EventLoop.DoPendingFunctors` | shero/net/EventLoop.cc:135-150 | runs all that was pending, in order; what those functors queue stays for the next round |
| `EventLoops.EventLoop.RunBatch` | shero/net/EventLoop.cc:143-147 | runs the batch once, in order, skipping null functors |
| `EventLoops.EventLoop.Arrive` | shero/net/EventLoop.cc:124-133 | what other threads queue during poll is appended in order, with one wakeup each |
| `EventLoops.EventLoop.RunRound` | shero/net/EventLoop.cc:89-100 | a round runs what was pending, what arrives during poll and what its handlers queue, in this order; the loop goes on after it exactly when neither another thread nor a handler nor a functor has quit; when the wakeup channel was reported the eventfd has been drained and holds one for each functor the batch has queued |
| `EventLoops.EventLoop.Loop` | shero/net/EventLoop.cc:82-102 | for every round it begins: all that is queued at that poll, by other threads during it and by its handlers is run, behind what had run; what has run, what is queued and whether it goes on are those of the rounds up to the first quit |
| `EventLoops.RunsUntilQuit` | shero/net/EventLoop.cc:82-114 | the next round is begun exactly while nobody has quit, from another thread, a handler or a functor; the round of the quit still runs all that is queued for it, and after it nothing runs |
| `Connection.ConservedUnlessLost` | shero/net/tcp/TcpConnection.cc:81-205 | a step keeps kernel bytes plus buffer equal to what was given exactly when it is not one of the two losing steps |
| `Connection.BytesAreLost` | shero/net/tcp/TcpConnection.cc:81-205 | from an established connection, any data sent to a full socket is lost when the write handler fails, and any data sent to a peer that is gone at once |
| `Connection.StepKeepsInv` | shero/net/tcp/TcpConnection.cc:81-205 | every step that neither loses nor closes keeps conservation, EPOLLOUT, half-close and state in order |
| `Connection.OutputConserved` | shero/net/tcp/TcpConnection.cc:81-205 | over every such run kernel bytes then output buffer are all that was given, and EPOLLOUT is on iff the buffer is not empty |
| `Connection.HalfClose` | shero/net/tcp/TcpConnection.cc:127-196 | SHUT_WR goes out only after everything given before it; a shutdown asked for is issued or waits on a non-empty buffer |
| `Connection.FinAfterAll` | shero/net/tcp/TcpConnection.cc:135-196 | the step that issues SHUT_WR finds everything given so far in the kernel |
| `Connection.DrainIssuesFin` | shero/net/tcp/TcpConnection.cc:180-196 | in whatever pieces the kernel takes the buffer, the write that drains it issues SHUT_WR, with all given data in the kernel |
| `TcpConnections.TcpConnection.ConnectEstablished` | shero/net/tcp/TcpConnection.cc:39-46 | connected, registered and listening for reads |
| `TcpConnections.TcpConnection.SendInLoop` | shero/net/tcp/TcpConnection.cc:81-123 | the code over buffer and channel does the Sent step, for every answer of write |
| `TcpConnections.TcpConnection.HandleWrite` | shero/net/tcp/TcpConnection.cc:180-205 | the code does the Written step, a failed write included, and nothing behind a close in the same round |
| `TcpConnections.TcpConnection.ShutdownInLoop` | shero/net/tcp/TcpConnection.cc:135-143 | SHUT_WR exactly when nothing waits to be written |
| `TcpConnections.TcpConnection.HandleClose` | shero/net/tcp/TcpConnection.cc:207-219 | disconnected and out of the kernel's set, still in the map |
| `TcpConnections.TcpConnection.KernelMask` | shero/net/tcp/TcpConnection.cc:96-122 | while open the kernel watches the socket for reads always and for writes exactly while output waits |
| `Pipeline.StepKeepsInv` | shero/net/tcp/TcpConnection.cc:59-123 | loop and connection stepping together keep both invariants and the link between them |
| `Pipeline.EndToEnd` | shero/net/tcp/TcpConnection.cc:59-123 | over every run the kernel bytes and the buffer are the sends that reached the loop, and the sends of each other thread reach it in call order |
| `Pipeline.NothingLost` | shero/net/tcp/TcpConnection.cc:65-78 | with foreign senders only, kernel, buffer, batch and queue hold exactly what was sent, in push order |
| `Pipeline.FunctorComesLast` | shero/net/tcp/TcpConnection.cc:127-133 | when the functor of shutdown() runs, everything its thread had sent before has reached the connection |
| `Pipeline.ShutdownBehindSends` | shero/net/tcp/TcpConnection.cc:127-196 | over every run: when SHUT_WR goes out, what the caller of shutdown() had sent before is in the kernel exactly when none of it is in batch or queue, and always when the functor issues it |
| `Pipeline.ShutdownOvertakes` | shero/net/tcp/TcpConnection.cc:127-196 | a run in which the write handler issues SHUT_WR before bytes sent earlier |
| `TimerQueue.CompareIsAnOrder` | shero/base/Timer.cc:26-37 | the comparator, null pointers included, is a strict order whose ties are the same event |
| `TimerQueue.InsertKeepsOrder` | shero/base/Timer.cc:104 | insertion keeps the set strictly sorted and adds exactly the event |
| `TimerQueue.EraseKeepsOrder` | shero/base/Timer.cc:123-130 | erasing keeps it sorted and takes exactly the event |
| `TimerQueue.SetTimeIsExact` | shero/base/Timer.cc:167-176 | seconds and nanoseconds make the timerfd expire exactly at the arrival, and a zero difference disarms it |
| `TimerCallbacks.SpecIs` | shero/base/Timer.cc:170-173 | seconds and nanoseconds add up to the difference, the nanoseconds below a second |
| `TimerQueue.ResetIsExact` | shero/base/Timer.cc:146-181 | re-arming drops exactly the overdue events, and deadline and set agree after it exactly when no event arrives in the millisecond of the reading |
| `TimerQueue.ResetIsSafe` | shero/base/Timer.cc:146-181 | nothing is dropped and the deadline is exact exactly when the clock is below the earliest arrival |
| `TimerQueue.AddAgrees` | shero/base/Timer.cc:96-110 | from any state, deadline and set agree after adding exactly when the re-arming hits no arrival, or none is made and they agreed |
| `TimerQueue.DelAgrees` | shero/base/Timer.cc:119-139 | deleting keeps the agreement exactly when it does not re-arm or hits no arrival; it re-arms when the earliest event goes and the next is strictly later |
| `TimerQueue.ResetIntervalAgrees` | shero/base/Timer.cc:51-63 | rescheduling keeps the agreement exactly when it does nothing, or its insertion re-arms and hits no arrival, or does not re-arm and the deletion left them in agreement |
| `TimerCallbacks.RescheduledArrival` | shero/base/Timer.cc:51-63 | the new arrival is one new interval after now, or after the start of the old interval, in integers while it fits and modulo 2^64 |
| `TimerCallbacks.RescheduledStands` | shero/base/Timer.cc:51-63 | where it still stands it is with that arrival, and every other event was there before |
| `TimerQueue.FiresExactlyTheArrived` | shero/base/Timer.cc:193-202 | the scan that stops at the first later event takes exactly the arrived ones, each once, sorted |
| `TimerCallbacks.RanInOrder` | shero/base/Timer.cc:213-217 | a firing runs one callback for each event that has arrived and has one, each at the place given by the number of such events before it in the set |
| `TimerCallbacks.EarlierRunsFirst` | shero/base/Timer.cc:213-217 | of two events that have arrived the callback of the earlier runs first |
| `TimerCallbacks.RecycledArrival` | shero/base/Timer.cc:65-67 | each recycled event comes again one interval after its own reading of the clock, modulo 2^64, the readings in the order of the set |
| `TimerCallbacks.LastReadingIs` | shero/base/Timer.cc:191-211 | the re-arming of a firing reads the clock after them |
| `TimerQueue.InsertAllKeepsOrder` | shero/base/Timer.cc:205-208 | putting the recycled events back keeps the set sorted and holds exactly both |
| `TimerQueue.FiringKeepsOrder` | shero/base/Timer.cc:191-211 | the set is strictly sorted when the lock is released after the scan, and after the firing |
| `TimerQueue.FiringIsExact` | shero/base/Timer.cc:183-218 | callbacks of exactly the arrived events in order; then exactly the other and the recycled events not overdue at the last reading; and when the deadline agrees |
| `TimerQueue.LostBetweenReadings` | shero/base/Timer.cc:158-161 | a waiting event is neither run nor kept exactly when it arrives between the first and the last reading |
| `TimerQueue.ALostEvent` | shero/base/Timer.cc:158-161 | such an event |
| `TimerQueue.ADisarmedTimer` | shero/base/Timer.cc:167-176 | an event arriving at the reading disarms the timerfd, and adding any later event does not arm it |
| `TimerQueue.ExpiryFindsAnEvent` | shero/base/Timer.cc:183-202 | in agreement, an expiry always has an event to run |
| `TimerQueue.StepAgrees` | shero/base/Timer.cc:51-218 | every operation keeps the order, and the agreement exactly when it is punctual |
| `TimerQueue.DeadlineAgrees` | shero/base/Timer.cc:51-218 | over every punctual run the timerfd is armed for exactly the earliest arrival |
| `TimerLedger.StepCounts` | shero/base/Timer.cc:51-218 | one operation: what was in the set or enters it is in the set, or is run, deleted or dropped |
| `TimerLedger.WhenRearmed` | shero/base/Timer.cc:96-211 | adding re-arms exactly when the event is earlier than all that wait, deleting exactly when the first of several goes and the next is strictly later, a firing always once |
| `TimerLedger.EventsConserved` | shero/base/Timer.cc:51-218 | over every run each event that has entered is waiting, or was run, deleted or dropped, as often as it entered |
| `TimerLedger.DroppedOnlyLate` | shero/base/Timer.cc:146-168 | over every run the events dropped are exactly those that some re-arming finds in the set and overdue at its reading of the clock; nothing is dropped exactly when no re-arming reads a clock above the earliest arrival it finds |
| `Timers.TimerEvent.constructor` | shero/base/Timer.cc:39-45 | the arrival is the present plus the interval, modulo 2^64 |
| `Timers.TimerEvent.Cancel` | shero/base/Timer.cc:47-49 | deletes the event from its timer |
| `Timers.TimerEvent.Reschedule` | shero/base/Timer.cc:51-63 | the queue goes through delete, rewrite and insert; nothing when the interval stays and the start too |
| `Timers.Timer.InsertEvent` | shero/base/Timer.cc:104 | the sorted insertion, over event objects |
| `Timers.Timer.EraseEvent` | shero/base/Timer.cc:123-130 | find and erase, telling whether and where |
| `Timers.Timer.AddTimer` | shero/base/Timer.cc:96-110 | inserts and re-arms as the queue model says |
| `Timers.Timer.Delete` | shero/base/Timer.cc:119-139 | deletes and re-arms as the queue model says, and the event is gone |
| `Timers.Timer.DropOverdue` | shero/base/Timer.cc:158-161 | the loop drops exactly the overdue prefix |
| `Timers.Timer.ResetArriveTime` | shero/base/Timer.cc:146-181 | drops and arms as the queue model says |
| `Timers.Timer.Scan` | shero/base/Timer.cc:193-201 | the loop visits exactly the due prefix although it rewrites the keys of events still in the set |
| `Timers.Timer.Collect` | shero/base/Timer.cc:191-203 | under the lock the due prefix goes and the rest stays as it was |
| `Timers.Timer.Readd` | shero/base/Timer.cc:205-208 | the recycled events go back in order, without re-arming |
| `Timers.Timer.RunCallbacks` | shero/base/Timer.cc:213-217 | the callbacks that are not null, in order |
| `Timers.Timer.OnTimer` | shero/base/Timer.cc:183-218 | a firing of the queue model, and exactly the callbacks of the arrived events, in the order of the set |
| `Connector.RetryBacksOff` | shero/net/tcp/TcpConnector.cc:71-78 | the capped doubling gives min(500*2^k, 30000) for the k-th retry |
| `Connector.BackoffValues` | shero/net/tcp/TcpConnector.cc:71-78 | 500, 1000, 2000, 4000, 8000, 16000 ms and then 30000 |
| `Connector.StartByErrno` | shero/net/tcp/TcpConnector.cc:97-123 | status, channel, closed sockets and retry after a start, for each errno of connect() |
| `Connector.StartKeepsInv` | shero/net/tcp/TcpConnector.cc:46-53 | so does starting, exactly when it begins no connect over a queued channel reset |
| `Connector.RestartKeepsInv` | shero/net/tcp/TcpConnector.cc:55-61 | and restarting, exactly when moreover no connect is under way |
| `Connector.ErredKeepsInv` | shero/net/tcp/TcpConnector.cc:163-178 | an error closes the socket once, takes the channel out and sets the retry |
| `Connector.ConnectedKeepsInv` | shero/net/tcp/TcpConnector.cc:151-159 | a success hands the socket over once and takes the channel out |
| `Connector.StepKeepsInv` | shero/net/tcp/TcpConnector.cc:46-178 | a step keeps ownership, back-off, the timer, and registration both now and once every queued reset has run, exactly when it is timely |
| `Connector.OwnershipAndBackoff` | shero/net/tcp/TcpConnector.cc:46-178 | over every timely run and for every fd, used again or not: opened as often as closed or handed over, and once more exactly while being connected; a channel is in the poller iff connecting; the k-th retry waits min(500*2^k, 30000) ms |
| `Connector.QueuedResetDropsTheNewChannel` | shero/net/tcp/TcpConnector.cc:84-95 | after a start that begins a connect, with any errno, registration survives every queued reset exactly when there is none; otherwise the channel is lost while the poller keeps it |
| `Connector.AChannelIsDropped` | shero/net/tcp/TcpConnector.cc:84-95 | a timely run from a new connector ends with a reset queued; the start that was queued before it and the reset leave it connecting with no channel while the poller watches the socket |
| `Connector.RetryHappensUntilASuccess` | shero/net/tcp/TcpConnector.cc:63-82 | over every timely run a retry that has been set is performed by some run of the loop exactly when no connection has been handed over |
| `Connector.NoRetryAfterASuccess` | shero/net/tcp/TcpConnector.cc:151-159 | a timely run from a new connector: a success, then a refused restart, which asks for a retry after 500 ms that no steps of the loop ever perform |
| `TcpConnectors.TcpConnector.Retry` | shero/net/tcp/TcpConnector.cc:63-82 | closes the socket and sets the timer and the next delay |
| `TcpConnectors.TcpConnector.BeginConnecting` | shero/net/tcp/TcpConnector.cc:125-136 | one new channel in the poller, listening for writes |
| `TcpConnectors.TcpConnector.Connect` | shero/net/tcp/TcpConnector.cc:97-123 | the three classes of errno: connect under way, retry, close |
| `TcpConnectors.TcpConnector.StartInLoop` | shero/net/tcp/TcpConnector.cc:46-53 | a step of the connector, timely or not, that keeps it valid when it is timely |
| `TcpConnectors.TcpConnector.Start` | shero/net/tcp/TcpConnector.cc:41-44 | raises the flag and starts |
| `TcpConnectors.TcpConnector.Restart` | shero/net/tcp/TcpConnector.cc:55-61 | resets delay and state and starts, in any state; valid after when timely |
| `TcpConnectors.TcpConnector.ResetChannel` | shero/net/tcp/TcpConnector.cc:84-86 | the queued functor drops the channel, whatever it is by then |
| `TcpConnectors.TcpConnector.RemoveAndResetChannel` | shero/net/tcp/TcpConnector.cc:88-95 | the channel leaves the poller at once and a reset is queued |
| `TcpConnectors.TcpConnector.HandleWrite` | shero/net/tcp/TcpConnector.cc:138-161 | success or failure of the connect as the step says |
| `TcpConnectors.TcpConnector.HandleError` | shero/net/tcp/TcpConnector.cc:163-178 | an error event as the step says |

## Left out

- WSStructure.DecodeMessage: asks for a buffer below 2^31 bytes, because the 32-bit signed `cur_len` and index overflow beyond it; that `data.resize` throws for an announced length the allocator refuses is not modelled.
- WSStructure.WSServer.WSCommunication: has the same bound on the buffer, and only records the calls of the dispatcher.
- HttpParsing.HttpParser.ParserHttpRequest: starts in ParserLine or ParserHeaders; in the other two states the loop of the source never ends.
- HttpRoundTrip.PrintThenParse: needs texts the format can carry (no CRLF or space where a line is split, trimmed values, names that are their own keys); other requests are not read back.
- Chunked.Reassembled: keeps the whole below 2^31 bytes, the range of the `int` length. With data that looks like a header line, or extensions in the header line, a body can also come out right by accident when a header line is missed.
- WebSocketCuts.ExactlyGoodCutsDeliver: is for messages of one frame; whether the bytes left of a fragmented message can happen to encode the whole message again depends on its data and masks.
- TcpConnections.TcpConnection.HandleWrite: asks that less than SIZE_MAX bytes are buffered.
- EventLoops.EventLoop.Loop: lets other threads queue functors, and one of them quit, while the loop is in poll; their steps at any other point are in the step system `Reactor`.
- TcpConnectors.TcpConnector.HandleWrite: asks that a connector that is connecting has its channel; the source dereferences a null pointer where the queued reset has dropped it.
- Connection.HalfClose: says nothing of sends that come after SHUT_WR was issued, which the source still tries to write.
- Timers.Timer.OnTimer: callbacks run after the queue operations and are returned in order; what they call is a later operation, and operations of several threads that interleave inside one call are not modelled.
- Timers.Timer.AddTimer: takes the event object to be the only one at its address; a null event is only in the comparator.
- Reads of the timerfd and the time between reading the clock and setting the timerfd: taken as no time.
- The write-complete, connection and close callbacks, `connectDestroyed`, `tie` and event dispatch by returned events.
- `forceClose`, whose guard assigns the state, and close, ping and pong payloads.
- Functors queued on the loop thread before `loop()`, for which the source makes no wakeup.
- The response-head machine of the HTTP client (so chunk data starting with an H is taken as an error at once), the header callbacks of chunk extensions, and the URI machine.
- `isspace` on bytes above 127 and locales.
- Memory exhaustion, logging, configuration, thread start-up, addresses, SHA-1, base64 and the websocket handshake.
- Servlet and dispatch tables, status texts, parameters, the choice of a loop in the thread pool: easy members.
