# A verified model of an HTTP and WebSocket server and client

This project models the parts of a C++ web server and its clients that carry its promises, and
proves what they do on all inputs:

- the routing trie, as heap nodes changed in place, against a plain list of registrations
  (`RouteSpec`, `Router`, `RouteLaws`, `RouteChanges`);
- SHA-1, base64 and hexadecimal numbers, as loops over 32-bit words, against the definitions of
  RFC 3174 and RFC 4648 (`Sha1`, `Base64`, `Hex`), with the accept keys and entity tags made of them,
  the laws of SHA-1's parts and the digests of known texts (`Sha1Laws`, `Sha1Vectors`, `SampleKey`);
- WebSocket frames: three encoders and one decoder (`WebSocketFrames`, `WebSocket`), and the
  opening handshake from the client's request to its answer (`Handshake`, `Upgrades`);
- HTTP text: the request parser against the client's printer, the response builder against the
  client's parser, the chunked decoder, and query strings (`RequestText`, `HttpRequest`,
  `RequestLaws`, `HeaderText`, `ResponseText`, `HttpResponse`, `StatusLaws`, `ResponseLaws`, `Chunked`,
  `UrlQuery`, `Decimal`, `SortedMap`);
- the poll loops of the plain and the TLS server under every behaviour of the kernel, and sending
  under every schedule of partial writes (`Descriptors`, `PollLoop`, `TlsTrace`, `TlsLoop`,
  `Orders`, `Sending`, `WsRoutes`);
- the worker and the manager of repeated tasks as the interleavings of callers and threads (`Worker`);
- the placeholders of log messages (`LogFormat`);
- the client's loop of reads under every schedule of counts (`Reading`), and whole exchanges across
  these parts, through the reads that take them in (`Exchange`).

Classes stand where the program changes objects in place, and each of their methods is proved
against a function on values; the laws are lemmas about those functions. `Text`, `Pairs`, `Bytes`
and `Wrappers` hold what the parts share. The whole project is checked by
`dafny verify dfyconfig.toml`.

## Where the code does less than it seems to promise

Each of these is a lemma with an exact condition, or a concrete input, beside the proof of what
does hold:

- A registration that is answered with -1 still renames parameters
  (`RouteChanges.RejectedChangesNothingExactly`), and a failed match still writes parameters
  (`RouteChanges.FailingMatchLeaves`, `RouteChanges.LeftAloneExactly`).
- A literal child that leads nowhere hides a parameter route that fits (`RouteLaws.MatchExactly`,
  `RouteLaws.GreedyIsExhaustive`, `RouteLaws.GreedyMisses`).
- After a Close frame the server's list keeps a number that is closed; when the kernel reuses it, a
  new connection is closed in the round that accepts it (`PollLoop.StrongExactly`,
  `PollLoop.AllAcceptedSurviveExactly`, `PollLoop.StaleEntryClosesNewConnection`). The TLS table
  is broken by the same frame (`TlsLoop.RoundKeepsExactly`).
- The server looks at each read alone, of at most 1024 bytes and over TLS 4095: a request line that
  does not fit reaches no route (`Exchange.RequestArrivesExactly`), and a message that leaves no
  room for its frame's header is never read as one (`Exchange.MessageArrivesExactly`). Text that does
  fit is lost in the same way if it arrives in more than one read (`Exchange.RequestReachesHandler`,
  `Exchange.DeliverMessage`).
- The client stops at the first read below 4096 bytes and does not compare what it has with
  Content-Length, so a content can be cut short without an error (`Reading.ReadAllExactly`,
  `ResponseLaws.CutBuilt`, `Exchange.RespondAndReceive`). Over TLS a response whose length is a
  multiple of 4096 is never received (`Reading.ReadableExactly`).
- A request other than GET and HEAD that no route takes gets no answer at all
  (`Exchange.RespondNotFound`).
- A reused number dispatches a WebSocket connection to another path's route
  (`WsRoutes.DispatchedToItsRoute`).
- A page that quotes an HTTP/1.1 status line is read with the quoted status, or not at all
  (`StatusLaws.StatusesReadExactly`, `ResponseLaws.BuiltRoundTripExactly`,
  `StatusLaws.QuotedStatusIsRead`, `ResponseLaws.QuotedWordFails`).
- A Content-Length that was added once is kept when the content changes
  (`ResponseLaws.LengthAfterBuilds`).
- Server frames are read back up to 65535 bytes and bare frames up to 125 bytes only
  (`WebSockets.ServerFrameRead`, `WebSockets.BareFrameRead`).
- `read` hands out no text for a binary message (`Exchange.DeliverMessage`).
- The log's replacement takes a placeholder inside or around an argument for one of its own
  (`LogFormat.SafeExactly`), and so can use arguments beyond the placeholders of the format
  (`LogFormat.SurplusDroppedExactly`).
- A chunk size whose sum with its position reaches 2^64 passes the bounds check: the decoder takes
  the rest of the body for data and goes on at the remainder of the sum, and can recurse for ever
  (`Chunked.StepExactly`, `Chunked.WrappedStep`, `Chunked.WrappedSizeLoops`, `Chunked.EndsExactly`,
  `Chunked.WrappedBodies`).
- An upgrade request without a Connection header makes the server look behind the end of its
  header map (`Handshake.ProcessHandshake`).
- The comment on `sha1` in src/utils.h speaks of a hexadecimal text; the code returns 20 raw bytes,
  and the model follows the code.

## Model

| member | source | states |
|---|---|---|
| `Routing.Router.RegisterHandler` | src/router.cc:11-41 | answers 0 exactly when no earlier registration has the method at the pattern's shape, else -1; the list of registrations grows by this one and the trie represents the longer list |
| `Routing.Router.MakePath` | src/router.cc:16-32 | the fold over the parts reaches the node of their shape; the trie then records this walk too, names included |
| `Routing.Router.Descend` | src/router.cc:17-32 | one step of the fold: the child for a part is made if missing and, for a parameter, renamed; all other nodes keep their content |
| `Routing.Router.TryEmplace` | src/router.cc:34-40 | the first handler of a method at a node stays |
| `Routing.Router.Match` | src/router.cc:43-86 | for any trie built by registrations, the parameters written and the handler found are those of the plain walk over the list of registrations, also when the match fails; the query is unchanged |
| `Routing.Router.FollowParts` | src/router.cc:54-69 | the fold ends at the place where the list walk ends, or at none, with the parameters bound on the way |
| `Routing.Router.Advance` | src/router.cc:58-69 | one step takes the literal child if some registration made it, else the parameter child, else fails |
| `Routing.Router.RewriteQuery` | src/router.cc:75-78 | writing each query item back under its own key changes nothing |
| `Routing.Router.OneParent` | src/router.h:34-41 | the nodes are a tree: the root has no parent, every other node exactly one, one level up |
| `Routing.Router.NodeOf` | src/router.h:34-41 | every recorded place has its own node |
| `RouteLaws.FirstHandlerIsFirst` | src/router.cc:34-38 | the handler at a place is that of the first registration for method and shape, and there is one only then |
| `RouteLaws.NameAtIsLast` | src/router.cc:22 | a parameter is named by the last registration that passes through its node |
| `RouteLaws.WalkReaches` | src/router.cc:56-69 | a registered pattern that fits the request is reached exactly when no literal child hides one of its parameters |
| `RouteLaws.WalkFits` | src/router.cc:56-69 | where the greedy walk ends, the pattern fits the request segment by segment |
| `RouteLaws.ReachableIsServed` | src/router.cc:56-83 | a registration is at the end of the walk exactly when its method and pattern fit and nothing hides it |
| `RouteLaws.MatchExactly` | src/router.cc:43-86 | a handler is found exactly when some registration of the method fits unhidden, and it is that of the first such registration |
| `RouteLaws.GreedyIsExhaustive` | src/router.cc:56-83 | if no node on the walk has both a child for the segment and a parameter child, greedy matching finds a handler exactly when trying every route would |
| `RouteLaws.GreedyMisses` | src/router.cc:62-68 | a concrete pair of routes for which greedy matching misses a route that fits |
| `RouteChanges.WalkStops` | src/router.cc:56-69 | every walk, failing or not, has a part that succeeds, a place behind it without a next one if it fails, and the parameters of that part |
| `RouteChanges.LongestWalk` | src/router.cc:56-69 | that part is the longest that succeeds |
| `RouteChanges.ParamAfterWalk` | src/router.cc:64-66 | after any match a name has the segment of the last position reached that binds it, and its old value without one |
| `RouteChanges.ParamChangesExactly` | src/router.cc:64-66 | a name changes exactly when that segment is not its old value |
| `RouteChanges.FailingMatchLeaves` | src/router.cc:59-68 | a failing match stops where there is no next place, keeps the parameters of the walk up to there, and changes exactly those names that this part binds to another value |
| `RouteChanges.LeftAloneExactly` | src/router.cc:64-66 | a match leaves the parameters alone exactly when every value it binds is there already |
| `RouteChanges.RejectedChangesNothingExactly` | src/router.cc:18-38 | a registration answered with -1 changes no later match, whatever else is registered after it, exactly if it gives every parameter on its way the name that it has |
| `RouteChanges.RejectedPathChangesNothingExactly` | src/router.cc:11-38 | the same over paths: for the pattern of any path, if a name changes there is a path whose match tells |
| `RouteLaws.RejectedRegistrationRenames` | src/router.cc:18-38 | an instance: a rejected pattern of one parameter renames the parameter of the route that it repeats |
| `RouteLaws.FailedMatchBinds` | src/router.cc:64-66 | an instance: a route and a request that does not match and gets a parameter |
| `RouteLaws.SplitPathConcat` | src/router.cc:88-102 | the segments of two paths joined by a slash are those of the first and then those of the second |
| `RouteLaws.SplitPathJoin` | src/router.cc:88-102 | non-empty segments without slashes come back from the path made of them |
| `RouteLaws.SplitPathParts` | src/router.cc:88-102 | every segment of any path is non-empty and has no slash |
| `Sha1.Hash` | src/utils.cc:164-247 | on every byte string the loops give the digest of sections 4 to 6.1 of RFC 3174, exactly 20 bytes |
| `Sha1.Pad` | src/utils.cc:176-187 | the padding loop gives the padded message of section 4 |
| `Sha1.HashBlocks` | src/utils.cc:190-235 | the loop over the blocks ends with the registers after all of them |
| `Sha1.Schedule` | src/utils.cc:191-202 | the array holds the words W(0) to W(79) of the block |
| `Sha1.LoadWords` | src/utils.cc:193-198 | the first sixteen words are the big-endian words of the block |
| `Sha1.Compress` | src/utils.cc:204-234 | the 80 rounds on five registers, added to the hash so far, are the recursive block function |
| `Sha1.PaddedLength` | src/utils.cc:176-187 | the padded length is a multiple of 64 with room for the end marker and the length, and less than one block more |
| `Sha1.ZeroCountIsLeast` | src/utils.cc:180-182 | the number of zero bytes is the least one at which the loop stops |
| `Sha1.PaddedEndsWithLength` | src/utils.cc:184-187 | the last eight bytes are the bit length, big-endian, for lengths below 2^61 |
| `Sha1.PaddingInjective` | src/utils.cc:176-187 | different messages have different paddings |
| `Sha1Laws.ChooseSelects` | src/utils.cc:208-209 | each bit of the first function is that of c or of d, as b says |
| `Sha1Laws.MajorityCounts` | src/utils.cc:214-215 | a bit is in the third function exactly if two of the three words have it |
| `Sha1Laws.ParityCounts` | src/utils.cc:211-219 | a bit is in the other two exactly if one or three of the words have it |
| `Sha1Laws.ConstantsAreRoots` | src/utils.cc:207-220 | the four constants are the integer parts of 2^30 times the square roots of 2, 3, 5 and 10 |
| `Sha1Laws.TurnsKeep` | src/utils.cc:200-228 | any number of rounds of one kind on any block is the same with a window of sixteen words, as section 6.2 of RFC 3174 computes it |
| `Sha1Vectors.AbcDigest` | src/utils.cc:164-247 | the digest of "abc" is the one in section 7.3 of RFC 3174 |
| `SampleKey.AcceptKeyOfSample` | src/server.cc:392-395 | the accept key of the key in section 1.3 of RFC 6455 is the one given there |
| `Base64.Encode` | src/utils.cc:249-276 | for every length the output is the three-to-four block encoding of section 4 of RFC 4648 with its padding |
| `Base64.EncodeUnpadded` | src/utils.cc:252-269 | the loop and the flush give the symbols of the blocks, though the 32-bit accumulator is never masked |
| `Base64.BitsSeeTwoBytes` | src/utils.cc:259-262 | the emitted bits depend on the last two bytes only, so the high bits lost in the shift never matter |
| `Base64.Drain` | src/utils.cc:261-264 | the inner loop emits one or two symbols and leaves fewer than six bits |
| `Base64.Flush` | src/utils.cc:267-269 | the left-over bits give the last symbol of a short block |
| `Base64.PadOut` | src/utils.cc:271-273 | the loop appends exactly the missing equals signs |
| `Base64.DecodeEncoded` | src/utils.cc:249-276 | a reference decoder gets every byte string back |
| `Base64.Alphabet` | src/utils.cc:250 | the alphabet of table 1 of RFC 4648, by its corners and its order |
| `Base64.EncodedLength` | src/utils.cc:249-276 | the length is 4 * ceil(n / 3) |
| `Hex.FromIntToHex` | src/utils.cc:154-162 | the loop prints the positional hexadecimal notation of every 64-bit number |
| `Hex.ParseHexSize` | src/utils.cc:301-318 | the loop reads what the digit-by-digit reading modulo 2^64 gives, and fails where that fails |
| `Hex.ReadHexIsValue` | src/utils.cc:301-318 | a text is read exactly when it has only hexadecimal digits, as its positional value modulo 2^64 |
| `Hex.HexRoundTrip` | src/utils.cc:154-162 | what is printed for a 64-bit number is read back as it |
| `Hex.NoLeadingZero` | src/utils.cc:154-162 | a printed number begins with 0 only if it is 0 |
| `Hex.CapitalsRead` | src/utils.cc:301-318 | every text is read as it is with its capitals made small |
| `Hex.DigitTable` | src/utils.cc:301-318 | which characters are digits, with their values |
| `Hex.DigitsPrinted` | src/utils.cc:154-162 | the printed digits are 0 to 9 and a to f |
| `Hex.ComputeEtag` | src/utils.cc:141-152 | the tag is made of both numbers, and empty for a negative time |
| `Hex.EtagInjective` | src/utils.cc:141-152 | two tags are equal exactly when times and sizes are, or both times are negative |
| `Hex.EtagSample` | src/utils.cc:141-152 | an entity tag letter by letter |
| `Handshake.ComputeAcceptKey` | src/server.cc:393-395 | the accept key is the base64 form of the SHA-1 digest of key and fixed text |
| `Handshake.AcceptKeyForm` | src/server.cc:393-395 | every accept key has 28 characters, exactly the last of them an equals sign, and decodes to the digest |
| `Handshake.ProcessHandshake` | src/server.cc:352-410 | refused, answered or undefined, exactly: undefined for Upgrade without Connection, answered for Upgrade: websocket with a Connection header and a 24-character key ending in two equals signs |
| `Handshake.ClientKeyAccepted` | src/websocketclient.h:174-185 | the key that a client makes of sixteen bytes is always accepted |
| `Upgrades.ClientUpgrade` | src/websocketclient.h:61-75 | the client's handshake request as it is streamed |
| `Upgrades.AnswerUpgrade` | src/server.cc:352-410 | a read that is parsed and answered: when it is an upgrade, and with which accept key |
| `Upgrades.ShakeHands` | src/websocketclient.h:61-91 | every handshake request of the client that is read whole is answered with the accept key of its own key, and the client takes the answer |
| `WebSockets.WebSocket.ReadFrame` | src/websocket.cc:7-72 | succeeds exactly on complete frames other than Close, with fin, opcode, mask, key, length and unmasked payload; throws exactly where the length test wraps; otherwise refuses, and only the header fields that have arrived change |
| `WebSockets.WebSocket.ReadHeader` | src/websocket.cc:14-52 | the fields before the payload and the offset behind them, in all three length forms |
| `WebSockets.WebSocket.ReadLength` | src/websocket.cc:29-43 | the 7-bit, 16-bit or 64-bit length, or failure when its bytes are missing |
| `WebSockets.WebSocket.Unmask` | src/websocket.cc:57-64 | each payload byte is combined with the key byte of its place modulo 4 |
| `WebSockets.WebSocket.Read` | src/websocket.h:228-251 | a complete frame gives the result of its opcode and hands out the text kept last; anything else fails or throws and leaves the message |
| `WebSockets.ResultsOfOpcodes` | src/websocket.h:239-250 | which results the opcodes of section 5.2 of RFC 6455 have, and failure for all others |
| `WebSockets.ReadPing` | src/websocketclient.h:129-160 | the client's ping is read as a ping |
| `WebSockets.PongRead` | src/websocket.h:246-247 | a pong with any payload, masked or not, is read as a pong |
| `WebSockets.RefusedKeepsPayload` | src/websocket.cc:10-55 | a refused frame leaves the payloads of earlier frames |
| `WebSocketFrames.FrameRoundTrip` | src/websocket.cc:7-64 | every frame in any form, masked or not, is read back with its length, key and payload, whatever bytes follow it |
| `WebSocketFrames.FrameIsDelimited` | src/websocket.cc:10-55 | no strict prefix of a frame is accepted |
| `WebSocketFrames.CompleteIsFrame` | src/websocket.cc:7-64 | whatever is accepted begins with the frame of the payload that is read |
| `WebSocketFrames.PayloadBytes` | src/websocket.cc:46-64 | each payload byte of a complete frame is the byte at its place combined with the one of the four bytes before the payload that is its place modulo 4, or the byte itself without a mask |
| `WebSocketFrames.HeaderOf256Bytes` | src/websocket.cc:29-34 | the header of 256 bytes in section 5.7 of RFC 6455 |
| `WebSocketFrames.HeaderOf64Kib` | src/websocket.cc:35-43 | the header of 64 KiB there |
| `WebSockets.LengthField` | src/websocketclient.h:103-116 | the length bytes of the client, in the shortest form for every length |
| `WebSockets.ClientMessage` | src/websocketclient.h:93-126 | the client's message is the final, unmasked text or binary frame of section 5.2 of RFC 6455 |
| `WebSockets.ClientPing` | src/websocketclient.h:129-160 | the client's ping is the final, unmasked ping frame |
| `WebSockets.ServerSend` | src/websocket.h:178-201 | the buffer that is sent: a frame without the eight length bytes above 65535 bytes |
| `WebSockets.ServerFrameRead` | src/websocket.h:186-198 | the server's frame is read back as its message exactly up to 65535 bytes |
| `WebSockets.WriteFrame` | src/websocket.cc:74-115 | the frame has the length code but no extended length, and the masked or plain payload |
| `WebSockets.BareFrameRead` | src/websocket.cc:81-89 | such a frame is read back as its message exactly up to 125 bytes, masked or not, for any key |
| `WebSockets.BareFrameBytes` | src/websocket.cc:74-115 | the frame byte by byte: opcode and flags, the key, and each byte of the message combined with the key byte of its place modulo 4 |
| `WebSockets.MaskedHello` | src/websocket.cc:74-115 | the masked message of section 5.7 of RFC 6455, written and read |
| `WebSockets.FramesAndRequests` | src/websocket.cc:117-134 | a frame is recognised with its opcode exactly if it is final and the opcode is at most ten; other frames and all texts in ASCII are taken for requests |
| `Chunked.ParseChunkedBody` | src/client.cc:138-187 | the decoder on every body, with its bounds check and positions in 64 bits: the text, the error of the first bad piece, or none where the recursion has no end |
| `Chunked.ReadSizeLine` | src/client.cc:149-176 | one call: the end or an error, or the data and the position of the next call, with both sums modulo 2^64 and no more data appended than there is |
| `Chunked.Parse` | src/client.cc:142-177 | the recursive lambda with the text that it appends to, up to any depth |
| `Chunked.ChunkedRoundTrip` | src/client.cc:138-187 | every list of non-empty chunks, with sizes in any hexadecimal spelling and any data, is decoded by grammar and program to the joined data; what follows the last chunk is ignored |
| `Chunked.CutBody` | src/client.cc:144-170 | for every cut of an encoding, by grammar and program: rejected inside a size line or data, the whole chunks so far at a chunk's end or inside the line end behind it |
| `Chunked.CutGivesWholeChunks` | src/client.cc:173-176 | a cut body never yields part of a chunk |
| `Chunked.CutDoesNotWrap` | src/client.cc:168 | an encoding that fits in memory is never cut where a sum wraps |
| `Chunked.PrintedRoundTrip` | src/client.cc:138-187 | every list of non-empty data with sizes in the program's own hexadecimal form is decoded to the joined data |
| `Chunked.StepExactly` | src/client.cc:149-176 | a call goes on behind a chunk of the grammar and at a sum that reaches 2^64, and nowhere else; otherwise it ends as the grammar does |
| `Chunked.DecodesCoding` | src/client.cc:138-187 | a body in which no sum reaches 2^64 is decoded to what the grammar gives, well or badly formed |
| `Chunked.EndsExactly` | src/client.cc:142-177 | the recursion ends exactly if it ends within as many calls as the body is long, and then with that result |
| `Chunked.WrappedStep` | src/client.cc:168-176 | at a sum that reaches 2^64 all that is left of the body is appended and the recursion goes on at the remainder, not behind the data |
| `Chunked.WrappedSizeLoops` | src/client.cc:160-176 | a size line sends the recursion back to itself exactly if its size lacks as much to 2^64 as the line and two line ends are long, and it is not at the start of the body |
| `Chunked.WrappedBodies` | src/client.cc:168-176 | a body with an impossible size that is decoded to text, and one on which the recursion does not end at any depth |
| `UrlQuery.UrlDecode` | src/utils.cc:83-99 | the loop gives the recursive decoding of escapes and plus signs, for malformed escapes too |
| `UrlQuery.DecodeEncoded` | src/utils.cc:83-99 | every encoding of section 2.1 of RFC 3986, in either case and with spaces as %20 or +, is decoded to the text itself |
| `UrlQuery.PercentEncodes` | src/utils.cc:83-99 | escaping all but the unreserved characters is such an encoding for every byte text |
| `UrlQuery.CapitalsDecoded` | src/utils.cc:83-99 | every text, well formed or not, is decoded as with its escapes in small letters |
| `UrlQuery.MalformedEscapes` | src/utils.cc:87-91 | what escapes without two digits are read as, and that a percent sign at the end stays |
| `UrlQuery.SegmentEnd` | src/request.cc:80-83 | the next ampersand or the end of the query |
| `UrlQuery.ReadItem` | src/request.cc:85-98 | the item between two positions is that of the segment alone, though the equals sign is looked for in the whole query |
| `UrlQuery.NextSegment` | src/request.cc:78-102 | the segments from a position on are this one and those behind its ampersand; an empty one at the end is dropped |
| `UrlQuery.QueryRoundTrip` | src/request.cc:73-103 | the items parsed from any encoded list of pairs are those pairs |
| `UrlQuery.NameAlone` | src/request.cc:85-98 | an encoded name without an equals sign has an empty value |
| `HttpRequest.Request.ParseQueryString` | src/request.cc:73-103 | the query map becomes the map before with the items of the segments stored in order |
| `HttpRequest.Request.NextItem` | src/request.cc:80-101 | the item at a position and the position behind it: storing it and then the others is storing all |
| `Pairs.StoreKeepsLast` | src/request.cc:99 | stored in order, each name keeps its last value |
| `HttpRequest.Request.constructor` | src/request.cc:7-21 | the fields of a request are those of the text's parse, whatever the text is |
| `HttpRequest.Request.ParseRequestLine` | src/request.cc:23-45 | the three parts of the line, the path before its query, and the query's map; nothing changes without two spaces |
| `HttpRequest.Request.StorePath` | src/request.cc:29-44 | the path, what stands before its question mark, and the query behind it |
| `RequestText.PathParts` | src/request.cc:29-44 | of every request: the path is the normalised path, and with a question mark that, the mark and the query string, whose items the query map has |
| `HttpRequest.Request.ParseHeaders` | src/request.cc:47-71 | stores the headers of the scanned lines in order and returns where the scan stops |
| `HttpRequest.Request.ReadHeader` | src/request.cc:56-67 | the header of a line is that of the line alone, though the colon is looked for in the whole text |
| `RequestText.HeadersEndAtBody` | src/request.cc:13-20 | whenever a blank line occurs, the header scan stops exactly behind the first one, where the body starts |
| `RequestText.ScanStopsAfterBlank` | src/request.cc:47-71 | so does a scan from any line start up to there |
| `RequestText.ScanWithoutBlank` | src/request.cc:47-71 | without a blank line the scan only stops where no line end is left |
| `RequestLaws.ClientRequest` | src/client.h:187-193 | the text that the client prints step by step |
| `RequestLaws.RequestLineRecovered` | src/request.cc:23-31 | whatever follows, method, path and version are recovered exactly when neither has a space and no line end stands in the line |
| `RequestLaws.PrintedRead` | src/request.cc:7-71 | a printed request with any list of headers and any body comes back whole, each header under its last value |
| `RequestLaws.ClientRequestRead` | src/client.h:187-191 | the client's own request is parsed to its method, path, version, Host and Connection, with an empty body |
| `HeaderText.PrintedHeadersRead` | src/request.cc:47-71 | printed headers are read in order and the scan stops behind the blank line |
| `HttpResponse.Response.constructor` | src/response.h:64-70 | the default headers in order and then Connection: keep-alive |
| `HttpResponse.Response.Build` | src/response.cc:48-91 | the text, the headers and the content after a build, and no text for no content |
| `HttpResponse.Response.AppendHeaders` | src/response.cc:78-85 | the loop prints one line for each header in the order of the names |
| `ResponseLaws.BuildAddsExactly` | src/response.cc:62-76 | a build keeps every header and adds a content type, a cache control for an event stream without one, and a length unless chunked, where they are missing |
| `SortedMap.SortedAscends` | src/response.cc:80-85 | the order of the printed headers: entries of the map, names strictly ascending |
| `SortedMap.SortedHasAll` | src/response.cc:80-85 | every header is printed |
| `ResponseLaws.BuildIsStable` | src/response.cc:62-90 | a second build of the same content changes no header and gives the same text |
| `ResponseLaws.LengthAfterBuilds` | src/response.cc:71-76 | an added Content-Length is the content's; it is kept by later builds, where it is right exactly when the length has not changed |
| `ResponseLaws.LengthRead` | src/response.cc:74 | an added Content-Length is read back as the length of the content |
| `HttpResponse.ParseStatus` | src/client.cc:189-241 | the status behind the first HTTP/1.1, else behind the first HTTP/1.0, and the exception of stoi as an error |
| `HttpResponse.ParseHeaderLines` | src/client.cc:97-114 | stores the trimmed headers of the lines up to the first empty one |
| `HttpResponse.ParseResponse` | src/client.cc:85-132 | the response or the error that the text gives |
| `StatusLaws.StatusOf` | src/client.cc:189-241 | for every status and every rest of the text: the printed status if no HTTP/1.1 stands in the rest, and otherwise what the rest has behind the first |
| `StatusLaws.StatusesReadExactly` | src/client.cc:189-241 | a rest leaves every status as printed, the sixteen listed ones as themselves and all others as 500, exactly if no HTTP/1.1 stands in it |
| `StatusLaws.CodesReadExactly` | src/client.cc:189-241 | behind an HTTP/1.1 the sixteen listed codes are read as themselves, and every other number as 200 |
| `StatusLaws.StatusesPrintedExactly` | src/response.cc:62-90 | the sixteen listed statuses are printed as themselves, and every other as 500 |
| `StatusLaws.NoStatusRead` | src/client.cc:189-203 | without a start of a status line, or without a space behind it, the status is 200 |
| `Decimal.StoiReadsFirst` | src/client.cc:199 | blanks and a sign may come before a number, and anything but a digit behind it |
| `StatusLaws.ContentStatusIsRead` | src/client.cc:190-199 | a content that begins with HTTP/1.1 decides the status, whatever the status line says |
| `StatusLaws.QuotedStatusIsRead` | src/client.cc:190-199 | a page that the server builds for status 200 and that is read as 404 |
| `StatusLaws.QuotedWordThrows` | src/client.cc:199 | a page that the server builds on which std::stoi throws |
| `ResponseLaws.BuiltRead` | src/client.cc:88-116 | for every built response with one-line headers the blank line is found, names and values come back trimmed, and the rest is the content |
| `ResponseLaws.BuiltParsed` | src/client.cc:85-132 | for every built response with trimmed one-line headers, the exact header map and content come back with the status that is read, or the exception of std::stoi; a body that the headers call chunked is decoded |
| `ResponseLaws.BuiltRoundTrip` | src/client.cc:85-132 | status, exact header map and content come back if no HTTP/1.1 stands behind the status line |
| `ResponseLaws.BuiltRoundTripExactly` | src/client.cc:85-132 | headers and content give back every status exactly under that condition |
| `ResponseLaws.ChunkedBuiltRead` | src/client.cc:116-132 | a built response with Transfer-Encoding: chunked and encoded chunks is parsed to their joined data |
| `ResponseLaws.PlainBuiltRead` | src/client.cc:116-132 | with any other value, or without that header, the content is the body as it stands |
| `ResponseLaws.ConnectionIsKept` | src/client.cc:85-114 | without a Connection header the parsed response has keep-alive |
| `ResponseLaws.QuotedWordFails` | src/client.cc:199 | the page with a word behind a quoted HTTP/1.1 cannot be read at all |
| `ResponseLaws.TrimPadded` | src/utils.cc:291-299 | blanks around a text do not change what is left after trimming |
| `ResponseLaws.TrimExactly` | src/utils.cc:291-299 | what is trimmed is spaces, tabs and line ends at both ends, and all of them |
| `PollLoop.Server.HandleListenSocket` | src/server.cc:151-168 | every accepted descriptor is opened and listed |
| `PollLoop.Server.HandleClientSocket` | src/server.cc:170-201 | which events close the client, which of them are recorded, and which data is handed on |
| `PollLoop.Server.PerformRequest` | src/server.cc:224-235 | with WebSocket routes a Close frame closes the descriptor without a record |
| `PollLoop.Server.HandleEvents` | src/server.cc:132-146 | one round: the list and the open descriptors afterwards, and the calls made: all accepts, one close for each client that has to go, and one request for each client with data |
| `PollLoop.Server.HandleRequests` | src/server.cc:104-148 | any run ends in the state of its rounds; without WebSocket routes accepts and closes alternate |
| `PollLoop.OpenAfterExactly` | src/server.cc:170-235 | event by event: a number is open after a round exactly if it was open or is accepted and, for a client, there was no event, a read to be tried again, or data that is not a handled Close frame |
| `PollLoop.ListedAfterExactly` | src/server.cc:132-146 | it is listed exactly if it was or is accepted and, for a client, there was no event, a read to be tried again, or data |
| `PollLoop.RequestsExactly` | src/server.cc:181-187 | each client's data is handed on once in a round, and nothing else is |
| `PollLoop.RunsGoOn` | src/server.cc:121-127 | an interrupted poll changes nothing, and a failing one ends the run |
| `PollLoop.StrongExactly` | src/server.cc:132-146 | the list stays exactly the open descriptors unless the round handles a Close frame, and then it does not |
| `PollLoop.StrongInRuns` | src/server.cc:104-148 | without WebSocket routes the list is exactly the open descriptors after every round of every run |
| `PollLoop.OpenIsListedInRuns` | src/server.cc:104-148 | with them too, no open descriptor is missing from the list after any run |
| `PollLoop.AcceptedSurvivesExactly` | src/server.cc:132-146 | a connection accepted in a round outlives it exactly if its number is not one of a polled client that has to go |
| `PollLoop.AllAcceptedSurviveExactly` | src/server.cc:132-146 | every accepted connection outlives its round, whatever the kernel does, exactly if no closed number is in the list |
| `PollLoop.AcceptedSurvive` | src/server.cc:108-146 | while the list is exact it is also listed at the end |
| `PollLoop.AcceptedSurviveInRuns` | src/server.cc:104-148 | so without WebSocket routes after any run, even when the kernel reuses numbers |
| `PollLoop.StaleEntryClosesNewConnection` | src/server.cc:228-231 | after a Close frame one does not: a run in which the kernel reuses the number |
| `Descriptors.AlternatesMatches` | src/server.cc:157-197 | in such a log each accept is matched by at most one close, and by one exactly if the number is not open |
| `Sending.SendAll` | src/server.cc:257-276 | the recursion under any schedule: how it ends and how much was accepted |
| `Sending.SendResponse` | src/server.cc:253-279 | the accepted bytes are a prefix of the body under every schedule, plain or TLS; it is sent exactly if the calls before the first hard error take all of it together, and given up exactly if they do not and there is one |
| `Sending.VerdictExactly` | src/sslserver.h:363-385 | how the sender ends and how much is accepted, by the counts of the schedule alone: it goes on after short writes and after failures that ask for another try |
| `Sending.Transport.Send` | src/sslserver.h:411-418 | one call takes at most what it is offered or fails, and over TLS it never takes zero bytes |
| `Sending.VerdictIsFinal` | src/sslserver.h:363-385 | a sender that has ended is not changed by what would come later |
| `TlsLoop.TlsServer.HandleListenSocket` | src/sslserver.h:126-144 | one accept: an entry whose handshake is to come, or a close at once |
| `TlsLoop.TlsServer.HandleClientSocket` | src/sslserver.h:150-181 | handshake first, requests after it, and who is to be closed |
| `TlsLoop.TlsServer.CloseClient` | src/sslserver.h:334-353 | an entry is closed by its own descriptor and removed; without one nothing happens |
| `TlsLoop.TlsServer.HandleEvents` | src/sslserver.h:207-225 | one round over the clients of its beginning: table and events |
| `TlsLoop.TlsServer.HandleRequests` | src/sslserver.h:186-227 | any run, round by round; failing polls are tried again |
| `TlsLoop.RoundKeeps` | src/sslserver.h:207-225 | without WebSocket routes a round keeps the table exact: its keys are the open connections, each entry has its key as descriptor and its phase |
| `TlsLoop.RunKeeps` | src/sslserver.h:186-227 | so it is exact after every round of every run |
| `TlsLoop.RunsFromStart` | src/sslserver.h:126-227 | from an empty table, after every round of every run without WebSocket routes: the table is exact, every dispatch was for a completed handshake, and every accept is matched by one close or by an entry |
| `TlsLoop.ReadKeepsExactly` | src/sslserver.h:173-180 | a handled Close frame is exactly what breaks the table in a read |
| `TlsLoop.RoundKeepsExactly` | src/sslserver.h:207-225 | with WebSocket routes or without, a round keeps the table exact exactly if no client's event in it is a Close frame |
| `TlsLoop.RoundOutcome` | src/sslserver.h:150-225 | a polled client stays exactly if it does not die; a new one is there with its handshake to come, whatever the order |
| `TlsLoop.RoundDispatches` | src/sslserver.h:126-181 | event by event: a client is dispatched to once in a round exactly if data is read from it and its handshake is or gets completed, established exactly if its handshake is completed, and accepted exactly if accept returns it |
| `TlsLoop.RoundCloses` | src/sslserver.h:150-225 | a client is closed exactly if its handshake or its read fails or it sends a handled Close frame, and a new connection exactly if there is no TLS object for it; all but the Close frame leave the table |
| `TlsLoop.RunDispatches` | src/sslserver.h:186-227 | over any run without WebSocket routes a client is dispatched to as often as there are rounds in which its data is read |
| `TlsLoop.FailedPollsAreSkipped` | src/sslserver.h:199-206 | a failing poll anywhere in a run changes nothing |
| `TlsTrace.DispatchedAfterHandshake` | src/sslserver.h:157-177 | every dispatched request belongs to a connection whose own handshake has completed since it was accepted |
| `TlsTrace.AcceptsMatchCloses` | src/sslserver.h:334-353 | each accept is matched by at most one close |
| `Worker.StepKeeps` | src/worker.h:24-79 | every step of callers and tasks keeps the invariant of mutex, map and threads |
| `Worker.OneUnfinished` | src/worker.h:60-68 | in every interleaving at most one task of an id is unfinished |
| `Worker.BodiesAreSerial` | src/worker.h:60-74 | a body begins only after every earlier body of its id has ended |
| `Worker.MapHoldsLast` | src/worker.h:76-78 | whenever the mutex is free the map holds exactly the last thread begun for each id |
| `Worker.NoDeadlock` | src/worker.h:56-79 | while a caller is inside, some caller can go on or the holder waits for a task that was asked to stop |
| `LogFormat.Format` | src/logger.h:255-261 | each argument in turn replaces the first placeholder of the text as it is by then |
| `LogFormat.FormatSubstitutes` | src/logger.h:247-264 | that is simultaneous substitution when all arguments but the last are non-empty, free of placeholders, and do not begin with } or end with { |
| `LogFormat.SafeExactly` | src/logger.h:256-261 | for every list of arguments this condition on all of them is exactly what it takes with any one more, over all formats |
| `LogFormat.SurplusIsDropped` | src/logger.h:256-261 | arguments beyond the placeholders have no effect on what the loop returns if those that are used are safe, the last one included |
| `LogFormat.SurplusDroppedExactly` | src/logger.h:256-261 | safety of all arguments is exactly what it takes for that, over all formats and all surplus |
| `LogFormat.SurplusIsUsed` | src/logger.h:256-261 | a format and an argument that gives its own placeholder to a surplus one |
| `LogFormat.SurplusPlaceholdersStay` | src/logger.h:256-261 | with too few safe arguments the loop returns a text without placeholders followed by the format behind the ones that were used, letter by letter |
| `WsRoutes.Routes.UpdateWsRoute` | src/server.h:197-208 | the first route of the path, and no other, gets the descriptor and the query |
| `WsRoutes.Routes.GetWsRouteBySocketId` | src/server.h:210-217 | the first route with the descriptor |
| `WsRoutes.DispatchedToItsRoute` | src/server.h:197-217 | a new connection is dispatched to its own route exactly when no earlier route still has its number |
| `WsRoutes.StaleNumberMisdirects` | src/server.h:197-217 | two routes for which it is not |
| `WsRoutes.UpdateKeepsOrderExactly` | src/server.h:64-67 | changing a number in place keeps the set sorted exactly when the next route is not one of the same path with a number that is not larger |
| `Reading.ReadResponse` | src/client.h:208-231 | under every schedule of reads: the bytes read are the first of what was sent, up to the first read below 4096 bytes, the end or an error, plain or TLS |
| `Reading.ReadAllExactly` | src/client.h:212-227 | the loop ends with all of the bytes exactly if no read that stops it comes before the end |
| `Reading.ReadableExactly` | src/client.h:422-447 | some schedule has the loop end with all of the bytes exactly if the connection is plain or their number is no multiple of 4096 |
| `RequestLaws.CutRequest` | src/server.cc:182-207 | of a printed request's first k characters the method, path and version are parsed exactly if they have the whole line with its end; with less nothing is parsed |
| `RequestLaws.LineFitsExactly` | src/server.cc:182-207 | reads of limited length have the request line exactly if it fits with its end |
| `ResponseLaws.CutBuilt` | src/client.cc:85-116 | a built response cut short has no blank line and is rejected, or is the response with a shorter content |
| `Exchange.FindHandler` | src/server.cc:204-207 | what a read has taken gets the handler and the parameters that the list of registrations gives its method and path |
| `Exchange.RequestReachesHandler` | src/server.cc:181-207 | whatever is registered, a read of the request that a client prints for some segments and encoded query pairs gets the handler that the segments have and the pairs as its query if it takes the whole line, and is an empty request otherwise |
| `Exchange.RequestArrivesExactly` | src/server.cc:182-186 | some read has the request exactly if its line with its end is at most 1024 characters, over TLS 4095 |
| `Exchange.EmptyReachesNothing` | src/server.cc:282-286 | the empty request reaches no route that was registered for a method |
| `Exchange.Respond` | src/server.cc:253-292 | the bytes accepted are a first part of the response's text, and all of it exactly if sending reports success; nothing is sent for no content |
| `Exchange.Receive` | src/client.h:208-231 | the client parses what its loop has read, if the loop finishes |
| `Exchange.RespondAndReceive` | src/client.cc:85-132 | under every schedule of writes and reads: no blank line is an error, otherwise the client has the response with as much content as was read; all of the text is read exactly if all was sent and no read stopped the loop before the end |
| `Exchange.RespondNotFound` | src/server.cc:284-348 | without a handler and a file GET and HEAD alone are answered; the client has the 404 and its text exactly if all was sent and read |
| `Exchange.DeliverMessage` | src/websocketclient.h:93-126 | what any one read of a client's message has for the server's reader: the message if it takes the whole frame, otherwise a failure or no frame; a binary message is handed out with no text |
| `Exchange.MessageArrivesExactly` | src/server.cc:182-186 | some read delivers the message exactly if it is at most 1020 bytes long, over TLS 4091 |

## Left out

- Sockets, `poll`, `accept`, `recv`, `send` and OpenSSL are foreign calls: their results are parameters
  of the poll loops and of the transport, and a listening socket's number never comes up as a client.
- Descriptors are non-negative, and `accept` returns a number that is not open; the effect of pollfd
  flags other than POLLIN, POLLERR, POLLHUP and POLLNVAL is that nothing happens.
- Handlers, pre- and post-routing hooks and worker tasks are assumed to close no descriptor and not to
  enqueue on their own id; a handler is known by a number.
- Chunked.Parse: stops at a depth, and ParseChunkedBody at the one within which every recursion with an
  end has ended; that the program's stack or memory is full before is not modelled.
- Strings and vectors are taken to be shorter than 2^64 - 2 where grammar and program agree, so the position
  behind a chunk does not wrap.
- Exchange: what later reads make of the rest of a request or a frame is what they make of any bytes; the
  client's own `send` is taken to send its whole request.
- Shifts and masks on lengths are written as division and remainder, and conversions between characters
  and bytes as remainders by 256; words of SHA-1 and base64 are 32-bit vectors.
- The lookup strings of base64 and hexadecimal digits are modelled as character ranges.
- Request headers are values, so the lifetime of the views into the raw text is not modelled.
- `readFile` is a parameter of `Build`; file serving, MIME types, modification times and `stat` are left out.
- The content type that a new response leaves without a value is a parameter of its constructor.
- `Response::stream` and `Request::isKeepAlive` are left out: they carry no property of interest.
- WebSocket connections after the handshake: `receiveMessage` and the close exchange are left out; the sockets'
  `connected_` test and the `send` calls are not part of the encoders.
- WsRoutes: inserting a route into the ordered set is the library's; the updates and searches are modelled
  on the set's elements in their order.
- PollLoop.Server.HandleEvents: visits the clients in any order, which covers the ascending one of the set.
- Worker: the worker is a state machine on values, one action for each step of a caller or a task, because its
  property is about interleavings; destroying a worker and the waiting inside a task are left out.
- TlsLoop: an accept of a number that is still open is treated as a failing accept, since the kernel
  hands out none.
- Sending: what happens after the end of a finite schedule is not claimed; sleeping between tries has no effect.
- `BaseClient::post` and `put`, the client factory, certificates, logger levels, time stamps and files,
  `getEnv`, `parseArguments`, `mapToJson` and `toString` are left out: they carry no property of interest.
