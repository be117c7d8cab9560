# PHPWebSockets in Dafny

A model of the protocol engine of PHPWebSockets, a WebSocket library (RFC 6455)
for PHP, with proofs about it. The model covers:

- the frame codec `Framer`: header parsing (section 5.2 of RFC 6455),
  payload extraction and unmasking (section 5.3), and frame serialisation in
  the 7, 16 and 64-bit length forms;
- the static helpers of `PHPWebSockets`: close-code validation (section 7.4),
  opcode classification, the status-text table, the table-driven UTF-8
  validator, the HTTP header parser, and the dispatch skeleton of
  `MultiUpdate`;
- the per-connection state machine (`AConnection`, `Server\Connection` and
  `Client`). It is one class, `Connections.Connection`, with a `role` field
  that says which side it is. It covers:
  - the receive loop (fragmentation, control frames, the close handshake
    and automatic pongs);
  - the two outbound queues and the in-flight buffer;
  - both sides of the opening handshake;
  - accept and deny;
  - the checks made before each stream selection;
  - close reporting.
- the server's connection table (`Server`);
- the update events (`Update\Read`, `Update\Error`).

Modules, one per file:

| file | module | models |
|---|---|---|
| bytes.dfy | `Wrappers`, `Bytes` | Option/Result, byte strings, big-endian numbers, XOR, PHP `substr`, decimal rendering |
| protocol.dfy | `Protocol` | constants, close codes, opcodes, `GetStringForStatusCode` |
| utf8.dfy | `Utf8` | `ValidateUTF8` and an independent definition of well-formed UTF-8 |
| strings.dfy | `PhpStrings` | `strpos`, `stripos`, `explode`, `implode`, `trim`, `strtolower`, `intval` on bytes |
| httpheaders.dfy | `Http` | `ParseHTTPHeaders` |
| framer.dfy | `Framer` | `GetFrameHeaders`, `GetFramePayload`, `Frame`, `ApplyMask` |
| framerules.dfy | `FrameRules` | the data-frame and close-frame rules of `_handlePacket` as functions |
| updates.dfy | `UpdateRead`, `UpdateError`, `Updates` | event codes, `StringForCode`, `__toString`, the `Read` constructor |
| handshake.dfy | `Handshake` | `_doHandshake`'s checks, the accept token, the texts of requests and responses, cutting a head off the read buffer |
| connection.dfy | `Connections` | the connection class, the server class, `writeMultiFramed` |
| dispatch.dfy | `Dispatch` | `MultiUpdate`'s gathering and dispatch loops |

Modelling choices:

- The PHP semantics followed are those of PHP 8.0 and 8.1. In particular
  `str_split("")` gives one empty piece, so `writeMultiFramed` with empty
  data queues one empty frame.
- A TypeError thrown while parsing a head is an error value: the handshake
  methods and `HandleRead` return it as `thrown`, with the state the source
  leaves behind when the exception leaves `handleRead`.
- Strings are byte sequences.
  - PHP's NULL read buffer is the empty sequence. Every use of the buffer
    concatenates it, so the two behave alike.
- Integers are unbounded.
  - The 64-bit length of a frame header is read as an unsigned number.
  - The signed reading of the source is kept in
    `Framer.GetFrameHeadersAsWritten` (see Findings).
- The clock is an integer number of milliseconds, `now`, given to each
  operation that reads it.
  - `time()` is `WholeSeconds(now)`.
  - The ten-second close deadline is `DISCONNECT_TIMEOUT` = 10000.
- Randomness becomes parameters: the masking key (`key`) and the client's
  handshake key (`handshakeKey`).
- `sha1` and `base64_encode` are fields of the server that hold functions
  (`Server.sha1`, `Server.base64`). The model states what is done with their
  results, not how they are computed.
- The source refers to three event codes that its update classes never
  declare. Reading an undeclared class constant makes PHP throw `Error`.
  `UpdateRead.Constant` and `UpdateError.Constant` model the lookup.
  - `Update\Read::C_NEW_CONNECTION` is reached on every valid server
    handshake (Findings row 8).
  - `Update\Error::C_READ_HANDSHAKETOLARGE` is reached by an oversize
    client head (Findings row 9).
  - `Update\Error::C_READ_RSVBIT_SET` sits behind the RSV check, which
    already throws as written (Findings row 6), so it is never reached.
  The class runs the corrected branches, which report the declared code of
  the same meaning (`C_NEWCONNECTION`, `C_READ_HANDSHAKE_TO_LARGE`,
  `C_READ_RSV_BIT_SET`).
- Where the source is wrong (see "## Findings"), the class and the frame
  rules run the corrected behaviour, and the behaviour as written is kept
  beside it with a lemma that shows the difference. "## Left out" names
  each member that runs a corrected rule.

## Model

| member | source | states |
|---|---|---|
| Protocol.IsValidCloseCode | src/PHPWebSockets.php:277-298 | a valid code lies in 1000..4999; a received code is never 1005, 1006 or 1015 |
| Protocol.CloseCodeClassification | src/PHPWebSockets.php:277-298 | received: valid exactly for 1000-1003, 1007-1011 and 3000..4999; not received: additionally 1005, 1006 and 1015; 1004 and 1012-1014 are never valid |
| Protocol.IsControlOpcode | src/PHPWebSockets.php:326-328 | holds exactly when 8 <= opcode <= 15 |
| Protocol.IsPriorityOpcode | src/PHPWebSockets.php:307-316 | holds exactly for control opcodes other than close |
| Protocol.OpcodeQueues | src/PHPWebSockets.php:307-328 | ping and pong go to the priority queue; close, continuation, text and binary do not, so a close never overtakes queued data |
| Protocol.GetStringForStatusCode | src/PHPWebSockets.php:436-438 | a text is returned exactly for the codes of the status table |
| Protocol.HandshakeStatusTexts | src/PHPWebSockets.php:65-131 | `GetStringForStatusCode` gives 101, 400 and 405 the texts the handshake answers with |
| Protocol.RefusalStatusTexts | src/PHPWebSockets.php:65-131 | `GetStringForStatusCode` gives 426, 431 and 504 the texts of the refusals |
| Protocol.UnknownStatusCodes | src/PHPWebSockets.php:65-131 | `GetStringForStatusCode` gives no text for codes outside the table (0, 299, 509) |
| Utf8.ValidateUtf8 | src/PHPWebSockets.php:359-390 | the loop leaves the state the DFA run reaches from the given state; it returns false exactly when the input is non-empty and the run ends in REJECT |
| Utf8.RunConcat | src/PHPWebSockets.php:380-387 | validating a then b equals validating a ++ b: the validator is incremental |
| Utf8.RejectAbsorbs | src/PHPWebSockets.php:371-375 | once in REJECT, every further byte keeps REJECT |
| Utf8.AcceptsExactlyWellFormed | src/PHPWebSockets.php:359-390 | a run from ACCEPT ends in ACCEPT exactly when the bytes are well-formed UTF-8, per an independent definition by lead byte, second-byte range and continuation bytes |
| Utf8.FirstCharacter | src/PHPWebSockets.php:366-375 | from ACCEPT, a multi-byte lead is accepted exactly when the character it starts is well formed and the rest is accepted |
| Utf8.Pending | src/PHPWebSockets.php:371-375 | from a state that awaits k more bytes, ACCEPT is reached exactly when those bytes are valid and the rest is accepted |
| Utf8.FragmentedValidation | src/PHPWebSockets.php:380-387 | validating two fragments in turn ends in ACCEPT exactly when their concatenation is well formed |
| Utf8.Examples | src/PHPWebSockets.php:362-371 | 0xC0 rejects at once; a lone 0xE2 leaves a state that is neither ACCEPT nor REJECT; E2 82 AC is accepted |
| Http.ParseHTTPHeaders | src/PHPWebSockets.php:399-427 | the loop stops with a TypeError at the first line that throws; otherwise it returns the fold of the line rule over the lines of the explode at LF |
| Http.ParseAll | src/PHPWebSockets.php:399-427 | a successful parse is the fold of the line rule; a failed one is a TypeError |
| Http.ParseWith | src/PHPWebSockets.php:403-424 | a fold that can throw: success is the plain fold, failure is a TypeError |
| Http.ParseAllOk | src/PHPWebSockets.php:403-414 | the parse succeeds exactly when no line throws |
| Http.RequestWithoutVersionThrows | src/PHPWebSockets.php:411-414 | a head whose first line is `GET /chat`, with no ` HTTP` after it, throws a TypeError whatever follows |
| Http.ParsedKeys | src/PHPWebSockets.php:403-424 | a key is in the result exactly when some line sets it |
| Http.LastWriterWins | src/PHPWebSockets.php:403-409 | a key's value is the one set by the last line that sets it |
| Http.HeaderLine | src/PHPWebSockets.php:406-409 | a line with a colon maps exactly its lower-cased, trimmed name to its trimmed value |
| Http.RequestLine | src/PHPWebSockets.php:411-414 | `GET target HTTP/1.1` sets exactly `get` to the target |
| Http.RequestLineParses | src/PHPWebSockets.php:411-414 | `GET target HTTP/1.1` does not throw |
| Http.RequestLineWithColon | src/PHPWebSockets.php:405-409 | a `GET` line whose target holds a colon is read as a header field named by the text before the colon, so it never sets `get` |
| Http.StatusLine | src/PHPWebSockets.php:416-420 | `HTTP/1.1 code text` sets exactly `status-code` to the integer code and `status-text` to the text |
| Http.StatusLineParses | src/PHPWebSockets.php:411-420 | `HTTP/1.1 code text` does not throw when the text holds no `get ` |
| Framer.GetFrameHeaders | src/PHPWebSockets/Framer.php:62-125 | a parsed header is well formed and has a non-negative length (the unsigned reading of Findings row 2) |
| Framer.HeaderNullCases | src/PHPWebSockets/Framer.php:64-118 | no header exactly when: fewer than 2 bytes; 8 with length 126; 14 with length 127; or 6 with a short length and the mask bit |
| Framer.HeaderBitFields | src/PHPWebSockets/Framer.php:37-43 | fin, the three RSV flags, opcode, mask flag and 7-bit length come from fixed bits of the first two bytes, big-endian |
| Framer.HeaderLayout | src/PHPWebSockets/Framer.php:80-122 | payload offset is 2, +2 or +8 for the long forms, +4 when masked; the key is the 4 bytes before the payload; the length is the 7, 16 or 64-bit field |
| Framer.GetFramePayload | src/PHPWebSockets/Framer.php:135-178 | protocol error exactly for a bad control frame or unknown opcode once the header is complete; a payload only for a known opcode with offset+length bytes present, and of exactly that length |
| Framer.PayloadNeverPartial | src/PHPWebSockets/Framer.php:142-171 | a returned payload is the whole declared payload, unmasked with the frame's key |
| Framer.PayloadIncompleteCases | src/PHPWebSockets/Framer.php:137-164 | NULL exactly when the header is incomplete or the buffer is shorter than offset+length |
| Framer.ApplyMask | src/PHPWebSockets/Framer.php:250-252 | preserves length |
| Framer.ApplyMaskInvolution | src/PHPWebSockets/Framer.php:250-252 | masking twice with the same key gives the payload back |
| Framer.Frame | src/PHPWebSockets/Framer.php:196-240 | RangeException for an opcode outside 0..15; LogicException for a non-final control frame; otherwise length is 2 + extended length + 4 if masked + data |
| Framer.FrameLayout | src/PHPWebSockets/Framer.php:205-238 | the frame is the header word, the 0, 2 or 8-byte length, the key when masked, then the (masked) data |
| Framer.LengthFormThresholds | src/PHPWebSockets/Framer.php:232-238 | 125 is inline; 126 and 65535 take 2 extra bytes; 65536 takes 8 |
| Framer.FirstByteFields | src/PHPWebSockets/Framer.php:205-218 | FIN is set exactly when final; each RSV bit exactly when requested |
| Framer.FrameHeaderRoundTrip | src/PHPWebSockets/Framer.php:62-125 | parsing a built frame gives back fin, RSV flags, opcode, mask, length, key and offset |
| Framer.FramePayloadRoundTrip | src/PHPWebSockets/Framer.php:135-240 | for continuation, text and binary, extracting the payload of a built frame gives back the data, masked or not |
| Framer.FrameUnknownOpcodeRejected | src/PHPWebSockets/Framer.php:172-175 | a frame built with an unknown opcode is read back as a protocol error |
| Framer.FrameHiExample | src/PHPWebSockets/Framer.php:205-233 | the unmasked final text frame of "hi" is 0x81 0x02 0x68 0x69 |
| Framer.SignedLengthGivesPartialPayload | src/PHPWebSockets/Framer.php:102 | as written, a 64-bit length with the top bit set reads as -1 and a partial payload is returned; the model reads it as unsigned and waits |
| Framer.GetFrameHeadersAsWritten | src/PHPWebSockets/Framer.php:62-125 | as written, a header is found in exactly the same cases, and agrees wherever its length is non-negative |
| FrameRules.DataFrame | src/PHPWebSockets/AConnection.php:368-486 | a refused frame leaves the message state unchanged, including the validator state (the corrected rule of Findings row 3) |
| FrameRules.FragmentationErrors | src/PHPWebSockets/AConnection.php:368-417 | a continuation without a message, or a new message while one is open, is refused with 1002 (or 1007 for bad text); a frame after the peer's close is dropped |
| FrameRules.DataFrameConsistent | src/PHPWebSockets/AConnection.php:368-486 | the message state's invariant (opcode, accumulator and validator state agree) is preserved |
| FrameRules.DeliveredText | src/PHPWebSockets/AConnection.php:446-486 | a delivered message is the accumulator plus this payload, is text or binary, and is well-formed UTF-8 when text |
| FrameRules.FinalTextFrame | src/PHPWebSockets/AConnection.php:393-403 | a final text frame is delivered exactly when the whole message is well formed, otherwise refused with 1007 |
| FrameRules.SingleFrameMessage | src/PHPWebSockets/AConnection.php:381-486 | a single final frame is delivered as is (binary, or valid text); invalid text is refused with 1007 |
| FrameRules.FirstFragment | src/PHPWebSockets/AConnection.php:407-444 | a first non-final fragment opens a message holding its payload, unless its text is already invalid (1007) |
| FrameRules.Continuations | src/PHPWebSockets/AConnection.php:368-486 | continuations ending in fin deliver the accumulator plus all payloads in arrival order, or refuse invalid text with 1007 |
| FrameRules.FragmentedMessage | src/PHPWebSockets/AConnection.php:368-486 | a fragmented message is delivered as the concatenation of its fragments, or refused with 1007 when its text is invalid |
| FrameRules.StaleValidatorAsWritten | src/PHPWebSockets/AConnection.php:393-403 | as written, a refused text frame handled again is accepted and invalid UTF-8 is delivered |
| FrameRules.StaleValidatorCorrected | src/PHPWebSockets/AConnection.php:393-403 | with the state kept on refusal, handling the refused frame again refuses it again |
| FrameRules.ClosePayload | src/PHPWebSockets/AConnection.php:781-794 | the close payload is the 2-byte code followed by the reason |
| FrameRules.CloseReplyDefaults | src/PHPWebSockets/AConnection.php:493-511 | at most one payload byte echoes 1000 with no reason; an invalid code or non-UTF-8 reason echoes 1002 |
| FrameRules.CloseReplyIsSendable | src/PHPWebSockets/AConnection.php:493-511 | the echoed code is always valid and the echoed reason always well-formed UTF-8 |
| FrameRules.CloseRoundTrip | src/PHPWebSockets/AConnection.php:493-511 | a close with a valid code and UTF-8 reason is echoed with the same code and reason |
| FrameRules.CloseReplyBounded | src/PHPWebSockets/AConnection.php:493-511 | the echoed reason is at most 0x1_0020 bytes longer than the close payload it answers (the added text holds the received code in decimal) |
| FrameRules.CloseReply | src/PHPWebSockets/AConnection.php:489-511 | no contract of its own: the echo is the peer's code and reason, 1000 without a code, 1002 for a refused code or a non-UTF-8 reason; CloseReplyIsSendable, CloseReplyDefaults, CloseRoundTrip and CloseReplyBounded state its properties |
| FrameRules.RefusalIsSendable | src/PHPWebSockets/AConnection.php:368-427 | every refusal's code and reason are a valid close, with a reason of at most 125 bytes |
| UpdateRead.StringForCodeCases | src/PHPWebSockets/Update/Read.php:102-118 | a text exists exactly for codes 0-3 and 5-10; any other code gives `Unknown read code N` |
| UpdateRead.PongIsUnknown | src/PHPWebSockets/Update/Read.php:102-118 | C_PONG (4) has no entry and falls back to the unknown text |
| UpdateRead.DeprecatedAliases | src/PHPWebSockets/Update/Read.php:53-58 | C_NEW_TCP_CONNECTION_AVAILABLE = 10 and C_NEW_TCP_CONNECTION = 9, equal to their replacements |
| UpdateRead.StringForCode | src/PHPWebSockets/Update/Read.php:102-118 | no contract of its own: the table text, or `Unknown read code N`; StringForCodeCases and PongIsUnknown state which codes get which |
| UpdateRead.Constant | src/PHPWebSockets/Update/Read.php:38-58 | a class constant lookup succeeds exactly for the names Read declares; any other name throws `Error` |
| UpdateRead.NewConnectionUndefined | src/PHPWebSockets/Server/Connection.php:191 | `C_NEW_CONNECTION` is undeclared and throws; `C_NEWCONNECTION` is 1 |
| UpdateError.CodesDistinct | src/PHPWebSockets/Update/Error.php:37-55 | the error codes are 0..18, pairwise distinct |
| UpdateError.StringForCodeCases | src/PHPWebSockets/Update/Error.php:64-88 | a text exists exactly for the defined codes other than 14; otherwise `Unknown error code N` |
| UpdateError.InvalidTargetStreamIsUnknown | src/PHPWebSockets/Update/Error.php:64-88 | C_WRITE_INVALID_TARGET_STREAM (14) falls back to the unknown text |
| UpdateError.StringForCode | src/PHPWebSockets/Update/Error.php:64-88 | no contract of its own: the table text, or `Unknown error code N`; StringForCodeCases and InvalidTargetStreamIsUnknown state which codes get which |
| UpdateError.Constant | src/PHPWebSockets/Update/Error.php:37-55 | a class constant lookup succeeds exactly for the names Error declares; any other name throws `Error` |
| UpdateError.MisspelledCodesUndefined | src/PHPWebSockets/Client.php:269 | `C_READ_HANDSHAKETOLARGE` and `C_READ_RSVBIT_SET` are undeclared and throw; the names with the underscores are 6 and 11 |
| Updates.NewRead | src/PHPWebSockets/Update/Read.php:81-93 | InvalidArgumentException exactly for a non-NULL non-resource stream; otherwise the fields are stored unchanged |
| Updates.ToStringRoundTrip | src/PHPWebSockets/Update/Read.php:147-152 | the code can be read back from the `(C: code)` of the rendering |
| Updates.ToString | src/PHPWebSockets/Update/Read.php:147-152 | no contract of its own: `Read) ` or `Error) ` (src/PHPWebSockets/Update/Error.php:90-95), the code's text and `(C: code)`; ToStringRoundTrip states that the code can be read back |
| Handshake.ResponseCode | src/PHPWebSockets/Server/Connection.php:241-254 | the response code is one of 101, 400, 405, 426 |
| Handshake.ResponseCodeChecks | src/PHPWebSockets/Server/Connection.php:241-254 | 405 exactly without GET; 400 exactly with GET but a missing Host, Upgrade, Connection or key; 426 exactly for an upgrade with a version other than 13; 101 otherwise |
| Handshake.RawToken | src/PHPWebSockets/Server/Connection.php:266-270 | the loop computes the 20 bytes decoded from the hex digest |
| Handshake.UnhexHexEncode | src/PHPWebSockets/Server/Connection.php:266-270 | decoding the hex form of a 20-byte digest gives the digest back |
| Handshake.CutHandshake | src/PHPWebSockets/Server/Connection.php:153-187 | as written: no terminator in the chunk, buffer plus chunk stay buffered; otherwise a head is cut at the chunk's offset |
| Handshake.CutWholeHead | src/PHPWebSockets/Server/Connection.php:176-187 | with nothing buffered, the cut as written and the intended cut both cut a head followed by the terminator exactly there, leaving the rest |
| Handshake.BufferedHeadIsCutShort | src/PHPWebSockets/Client.php:256-288 | as written, with bytes already buffered, the head handed on is cut short (Findings row 7) |
| Handshake.HeadCut | src/PHPWebSockets/Server/Connection.php:153-187 | the intended cut: it waits exactly while the buffered bytes and the chunk hold no terminator; otherwise they are the head, the terminator and the rest, with no terminator starting inside the head |
| Handshake.HeadCutWhole | src/PHPWebSockets/Server/Connection.php:153-187 | however a head of plain lines is split between the buffer and the chunk, the intended cut hands on the whole head and leaves exactly the bytes after the blank line (Findings row 7) |
| Handshake.CutsAgreeUnbuffered | src/PHPWebSockets/Server/Connection.php:153-187 | with nothing buffered, the cut as written and the intended cut give the same result |
| Handshake.ServerAcceptsClientRequest | src/PHPWebSockets/Client.php:173-183 | the server cuts the client's own request, parses it without a throw, and reads code 101, its path and its key |
| Handshake.ServerRefusesColonPath | src/PHPWebSockets/Server/Connection.php:239-243 | a client whose path holds a colon sends a request without `get`, which the server answers with 405 |
| Handshake.ClientRequest | src/PHPWebSockets/Client.php:173-183 | no contract of its own: the seven request lines joined by CRLF and a blank line; ServerAcceptsClientRequest and RequestParses state how the server reads it |
| Handshake.RequestParses | src/PHPWebSockets/Client.php:173-183 | the client's request parses without a throw |
| Handshake.HeadParses | src/PHPWebSockets.php:403-414 | a head whose first line does not throw and whose later lines are header fields parses without a throw |
| Handshake.ClientReadsAcceptResponse | src/PHPWebSockets/Server/Connection.php:312-328 | the client cuts accept's response and parses status 101, plus the subprotocol when one is given |
| Handshake.AcceptResponseParses | src/PHPWebSockets/Server/Connection.php:312-328 | accept's response parses without a throw, with or without a subprotocol |
| Handshake.AcceptResponse | src/PHPWebSockets/Server/Connection.php:312-328 | no contract of its own: status 101, Server, Upgrade, Connection, Sec-WebSocket-Accept and the optional subprotocol line, joined by CRLF and a blank line; ClientReadsAcceptResponse and AcceptResponseParses state how the client reads it |
| Handshake.ProtocolLineIgnored | src/PHPWebSockets/Server/Connection.php:318-321 | as written, the subprotocol line sets no header at all |
| Handshake.ProtocolLineRead | src/PHPWebSockets/Server/Connection.php:318-321 | the corrected line sets exactly `sec-websocket-protocol` to the subprotocol |
| Handshake.ClientReadsDenyResponse | src/PHPWebSockets/Server/Connection.php:336-345 | the client cuts deny's response, parses it without a throw and reads the denied code |
| Handshake.DenyResponse | src/PHPWebSockets/Server/Connection.php:336-345 | no contract of its own: the status line with the code's reason phrase and the Server line, then a blank line; ClientReadsDenyResponse states how the client reads it |
| Handshake.ClientReadsErrorPage | src/PHPWebSockets/Server.php:288-297 | the client cuts the error page before its HTML, parses it without a throw and reads the page's code |
| Handshake.ErrorPage | src/PHPWebSockets/Server.php:288-297 | no contract of its own: the head of a response with the code's text, or `Unknown error code` when the text is missing or false, then the HTML page naming code, text and identifier; ClientReadsErrorPage states how the client reads it |
| Handshake.StatusHeadParses | src/PHPWebSockets/Server/Connection.php:336-345 | a status line and a Server line parse without a throw |
| Connections.EndOfStreamEvent | src/PHPWebSockets/Server/Connection.php:132-146 | SOCK_DISCONNECT exactly when both close flags are set (and a server side has its handshake); otherwise DISCONNECT_DURING_HANDSHAKE without a server handshake, else UNEXPECTED_DISCONNECT |
| Connections.CheckRequest | src/PHPWebSockets/Server/Connection.php:237-273 | the parse of the head, a TypeError when a line throws; after a parse, the code is the checks' code; a token exists exactly when the parse succeeds with a code below 300, and is sha1 of key ++ GUID |
| Connections.AcceptToken | src/PHPWebSockets/Server/Connection.php:266-270 | the token is the raw sha1 of key ++ GUID |
| Connections.StrSplit | src/PHPWebSockets/AConnection.php:690 | pieces concatenate to the data; all but the last have exactly the piece size; none is empty for non-empty data |
| Connections.MultiFramesParse | src/PHPWebSockets/AConnection.php:690-696 | each queued frame parses to its listed header and carries its piece |
| Connections.RsvCheckAsWrittenThrows | src/PHPWebSockets/AConnection.php:812-814 | as written, the RSV check throws on the parsed header of every frame built with clear RSV bits, a header the intended check lets through (Findings row 6) |
| Connections.RsvCheckCorrected | src/PHPWebSockets/AConnection.php:812-814 | the intended check passes on a built frame exactly when none of the three RSV bits was asked for |
| Connections.WriteMultiFramedDelivers | src/PHPWebSockets/AConnection.php:681-698 | with continuation opcodes, the frames are received as the whole data (binary or valid text) |
| Connections.WriteMultiFramedAsWrittenRefused | src/PHPWebSockets/AConnection.php:690-696 | as written, data longer than one piece is refused by the receiver |
| Connections.ZeroByteLeftInFlight | src/PHPWebSockets/AConnection.php:234-236 | as written, the buffer counts as empty while "0" is still in flight |
| Connections.WriteBufferEmptyMeansNothingToSend | src/PHPWebSockets/AConnection.php:234-236 | the corrected test holds exactly when nothing is left to send |
| Connections.TakeHead | src/PHPWebSockets/AConnection.php:597-608 | taking the next frame from the head of either queue keeps the order of what is sent |
| Connections.WrittenPrefix | src/PHPWebSockets/AConnection.php:617-630 | keeping the unwritten suffix in flight keeps the order of what is sent |
| Connections.Connection.Accepted | src/PHPWebSockets/Server/Connection.php:87-110 | a new server-side connection is open, not handshaken, not accepted, with empty queues |
| Connections.Connection.Client | src/PHPWebSockets/Client.php:96-102 | a new client is closed, masks by default and has empty queues |
| Connections.Connection.IsOpen | src/PHPWebSockets/AConnection.php:913-915 | no contract of its own: open exactly when not closed and the stream is held; the receive and handshake methods state how it changes |
| Connections.Connection.IsDisconnecting | src/PHPWebSockets/AConnection.php:801-803 | no contract of its own: a close was sent or received; HandleFrame and ReceiveFrames keep it once set |
| Connections.Connection.IsWriteBufferEmpty | src/PHPWebSockets/AConnection.php:234-236 | when it holds, nothing is left to send and the test as written holds too |
| Connections.Connection.UserAgent | src/PHPWebSockets/Client.php:340-342 | no contract of its own: the agent set, else `PHPWebSockets/` and the version; Open queues the request with it |
| Connections.Connection.SetMasksPayload | src/PHPWebSockets/Client.php:353-364 | a client masks exactly as set; a server never masks |
| Connections.Connection.WriteRaw | src/PHPWebSockets/AConnection.php:728-745 | appends to exactly one queue, chosen by priority |
| Connections.Connection.Write | src/PHPWebSockets/AConnection.php:747-754 | Frame's exceptions pass through; otherwise the frame goes to the priority queue exactly for ping and pong |
| Connections.Connection.SendDisconnect | src/PHPWebSockets/AConnection.php:781-799 | the close frame is queued last on the normal queue and weSentDisconnect is set; weInitiateDisconnect and the deadline are set only if the peer has not closed |
| Connections.Connection.Close | src/PHPWebSockets/Server/Connection.php:440-469 | the connection is closed; a first close reports, except for a never-accepted server side, which leaves the server table at once |
| Connections.Connection.HandleWrite | src/PHPWebSockets/AConnection.php:593-634 | resumes the in-flight bytes, else takes the head of the priority queue, else the normal queue; sends at most the rate; keeps the rest in flight; closes when drained after closeAfterWrite |
| Connections.Connection.ResetFrameData | src/PHPWebSockets/AConnection.php:578-586 | no message is in progress and the validator is back in ACCEPT |
| Connections.Connection.HandleFrame | src/PHPWebSockets/AConnection.php:366-555 | a ping is reported with its payload, a pong likewise; close and data frames follow the frame rules; at most one close, always sendable, is queued |
| Connections.Connection.HandleCloseFrame | src/PHPWebSockets/AConnection.php:489-538 | sets remoteSentDisconnect; when we initiated, closes and reports SOCK_DISCONNECT; otherwise, unless we already sent close, reports READ_DISCONNECT and echoes the close |
| Connections.Connection.TakeHeader | src/PHPWebSockets/AConnection.php:331-346 | RSV bits set: closes with an RSV error; an incomplete frame records the bytes still missing |
| Connections.Connection.TakePayload | src/PHPWebSockets/AConnection.php:341-363 | an incomplete frame breaks with no event; a protocol error is refused with close 1002 and returns; a whole frame goes to the frame handler and the loop moves past exactly its size unless the handler stops |
| Connections.Connection.ReceiveFrames | src/PHPWebSockets/AConnection.php:318-563 | the buffer is cut into whole handled frames and the rest stays buffered; every event names this connection |
| Connections.Connection.HandlePacket | src/PHPWebSockets/AConnection.php:299-573 | appends the data, consumes whole frames only, and queues one pong per ping in order unless disconnecting |
| Connections.Connection.ReadSize | src/PHPWebSockets/Client.php:227-228 | the read size is the remaining-bytes hint capped by the read rate, or the read rate |
| Connections.Connection.EndOfStream | src/PHPWebSockets/Client.php:235-249 | marks closed, emits the end-of-stream event and closes |
| Connections.Connection.ServerWait | src/PHPWebSockets/Server/Connection.php:153-174 | the bytes are buffered; past the maximum head length the 431 error page is queued, closeAfterWrite is set and a HANDSHAKE_TO_LARGE error is reported; otherwise nothing is reported and the status is unchanged |
| Connections.Connection.ServerHandshake | src/PHPWebSockets/Server/Connection.php:150-207 | without a terminator: buffers, and over the limit queues a 431 page; with one: a head that throws empties the buffer, reports nothing and passes the TypeError on; 101 reports NEWCONNECTION and handles the rest as frames; otherwise queues the error page, closes after writing and drops the rest |
| Connections.Connection.ServerHead | src/PHPWebSockets/Server/Connection.php:176-207 | a cut head that throws passes the TypeError on with the buffer emptied and nothing reported; otherwise the parsed head's code decides, as in ServerHandshake |
| Connections.Connection.HeadThrew | src/PHPWebSockets/Server/Connection.php:179 | the buffer is emptied, nothing is reported and nothing else changes |
| Connections.Connection.ServerCut | src/PHPWebSockets/Server/Connection.php:189-200 | code 101 completes the handshake as CompleteHandshake does; any other code queues the error page, closes after writing and reports a handshake failure |
| Connections.Connection.CompleteHandshake | src/PHPWebSockets/Server/Connection.php:189-207 | the corrected branch: headers and token recorded, NEWCONNECTION reported first, then the bytes after the head handled as frames |
| Connections.Connection.CompleteHandshakeAsWritten | src/PHPWebSockets/Server/Connection.php:189-191 | as written: headers and token recorded, then `Error` is thrown with nothing reported and the bytes after the head unread |
| Connections.Connection.RefuseHandshake | src/PHPWebSockets/Server/Connection.php:192-198 | the error page for the code is queued, closeAfterWrite is set, HANDSHAKE_FAILURE is emitted and no handshake is recorded |
| Connections.Connection.ClientHandshake | src/PHPWebSockets/Client.php:253-311 | without a terminator: buffers, and over the limit reports and closes; with one: a head that throws empties the buffer, reports nothing and passes the TypeError on; status 101 accepts and handles the rest as frames; any other status closes and reports CONNECTION_DENIED |
| Connections.Connection.ClientHead | src/PHPWebSockets/Client.php:277-311 | a cut head that throws passes the TypeError on with the buffer emptied and nothing reported; otherwise the parsed status decides, as in ClientHandshake |
| Connections.Connection.ClientWait | src/PHPWebSockets/Client.php:256-275 | the corrected branch: the bytes are buffered; past the maximum head length a HANDSHAKE_TO_LARGE error is reported and the connection closes |
| Connections.Connection.ClientWaitAsWritten | src/PHPWebSockets/Client.php:264-272 | as written: the bytes are buffered; past the maximum head length `Error` is thrown, nothing is reported and the connection stays open |
| Connections.Connection.HandleRead | src/PHPWebSockets/Server/Connection.php:120-211 | a failed read reports C_READ; an empty read ends the stream; otherwise the handshake branch of the role, whose TypeError it passes on, or the frame loop, which throws nothing |
| Connections.Connection.Accept | src/PHPWebSockets/Server/Connection.php:312-328 | LogicException once accepted; TypeError, with nothing queued and the connection left unaccepted, before a handshake has made a token; otherwise queues the 101 response with the accept value of the token and the subprotocol line, and accepts |
| Connections.Connection.Deny | src/PHPWebSockets/Server/Connection.php:336-345 | throws once accepted; otherwise queues the status response and sets closeAfterWrite |
| Connections.Connection.CheckDisconnectTimeout | src/PHPWebSockets/AConnection.php:643-649 | past the close deadline: reports DISCONNECT_TIMEOUT and closes; otherwise nothing |
| Connections.Connection.ReportClose | src/PHPWebSockets/AConnection.php:651-661 | a pending close report is emitted once as SOCK_DISCONNECT and the connection leaves the server table |
| Connections.Connection.BeforeStreamSelect | src/PHPWebSockets/Server/Connection.php:216-227 | the timeout event, then the close report, then, for a handshaken server side not accepted within the accept timeout, ACCEPT_TIMEOUT_PASSED and a 504 denial |
| Connections.Connection.Open | src/PHPWebSockets/Client.php:167-185 | records address and path, and queues the request: GET line, Host, User-Agent, Upgrade, Connection, key, version 13, blank line |
| Connections.Connection.ConnectToResource | src/PHPWebSockets/Client.php:115-132 | InvalidArgumentException for a non-resource; LogicException when open; otherwise opens and queues the request |
| Connections.Connection.Connect | src/PHPWebSockets/Client.php:145-162 | LogicException when open; false when the stream does not open; otherwise opens and queues the request |
| Connections.Connection.WriteMultiFramed | src/PHPWebSockets/AConnection.php:681-698 | InvalidArgumentException for opcodes other than text and binary; LogicException for a piece size below 1; otherwise one frame per piece, continuation opcodes after the first, only the last final |
| Connections.Connection.WritePieces | src/PHPWebSockets/AConnection.php:690-696 | queues exactly the frames of the pieces in order on the normal queue, continuation opcodes after the first, only the last final; nothing else changes |
| Connections.Server.constructor | src/PHPWebSockets/Server.php:140-196 | an empty table, index 0, auto-accept on |
| Connections.Server.SetServerIdentifier | src/PHPWebSockets/Server.php:333-335 | the identifier is stored; nothing else changes |
| Connections.Server.Identifier | src/PHPWebSockets/Server.php:324-326 | no contract of its own: the identifier set, else `PHPWebSockets/` and the version; SetServerIdentifier states that a set one is returned |
| Connections.Server.ErrorPageForCode | src/PHPWebSockets/Server.php:288-297 | no contract of its own: Handshake.ErrorPage with the server's identifier; ServerWait queues it for an oversize head (431) and RefuseHandshake for a refused request |
| Connections.Server.SetAutoAccept | src/PHPWebSockets/Server.php:489-491 | the flag is stored; nothing else changes |
| Connections.Server.GetConnections | src/PHPWebSockets/Server.php:364-377 | the table in index order, preceded by the accepting connection exactly when asked for and open |
| Connections.Server.AcceptNewConnection | src/PHPWebSockets/Server.php:257-278 | LogicException without an accepting connection; RuntimeException when the accept fails; otherwise the connection is stored at the current index, the index grows by one and NEW_TCP_CONNECTION is emitted |
| Connections.Server.GotNewConnection | src/PHPWebSockets/Server.php:239-247 | without auto-accept only NEW_TCP_CONNECTION_AVAILABLE is emitted and the table is unchanged; otherwise acceptNewConnection |
| Connections.Server.RemoveConnection | src/PHPWebSockets/Server.php:432-446 | LogicException for another server's connection; otherwise closes it when asked and open, and removes only its own index |
| Connections.Server.Close | src/PHPWebSockets/Server.php:529-545 | every connection is closed; those left in the table are exactly those with a close still to report; the accepting connection is dropped |
| Connections.Server.DisconnectAll | src/PHPWebSockets/Server.php:387-393 | sendDisconnect on every table connection; the accepting connection is not touched |
| Dispatch.Gather | src/PHPWebSockets.php:183-202 | every stream is watched for reading and exceptions, and for writing exactly when its buffer is not empty |
| Dispatch.PendingMembers | src/PHPWebSockets.php:195-197 | a stream is watched for writing exactly when a container with that stream has something to write |
| Dispatch.MultiUpdate | src/PHPWebSockets.php:183-263 | pre-select events first; nothing more without streams; one SELECT error on failure; otherwise read, write and exceptional handlers, the last two only for streams still open |
| Dispatch.HandleAll | src/PHPWebSockets.php:215-261 | each loop hands every ready, known and still-open stream to its handler, in order |
| Dispatch.PassOrdered | src/PHPWebSockets.php:204-263 | a pass is ordered: pre-select events, then read, write and exceptional handlers, with no select error |
| Dispatch.FailedPass | src/PHPWebSockets.php:206-208 | a failed wait yields exactly one select error, after the pre-select events, and no handler |
| Dispatch.WritesArePending | src/PHPWebSockets.php:227-241 | a write handler runs only for a stream reported writable, still open and with something to write |

## Left out

- OS I/O. `stream_select`, `fread`, `fwrite`, `fclose`, `stream_socket_*`, TLS and unix-socket files are not modelled.
  - Read chunks are inputs: `None` is a failed read and the empty chunk is end of stream.
  - The number of bytes written is an input.
  - Whether a stream opened is an input.
- The readiness wait. `Dispatch.MultiUpdate` takes what the wait reports as input. It returns the sequence of handler steps rather than running the handlers.
  - Which streams are still open after the read and write handlers is an input.
  - `afterStreamSelect` is empty in every container and is left out.
- The float timeout splitting of `MultiUpdate` is not modelled: it is floating point.
- `writeUntilEmpty`, `waitUntilDisconnect` and `update` are not modelled: they loop on the wall clock and on I/O.
- Connections.Connection.SendDisconnect: the timeout is in integer milliseconds rather than float seconds.
- Connections.Connection.Write: every frame of one call is masked with the key given, where the source draws a fresh random key per frame.
- Connections.Connection.WriteMultiFramed: same key for every piece, as above.
- Connections.Connection.WriteMultiFramed: follows `str_split` of PHP 8.0 and 8.1, where empty data is one empty piece. From PHP 8.2 `str_split("")` is an empty array, and empty data queues no frame.
- Connections.StrSplit: the PHP 8.0 and 8.1 `str_split`, as above.
- Connections.Connection.Open: the handshake key is a parameter rather than the base64 of 16 random bytes.
- `sha1` and `base64_encode` are function fields, not implementations. `preg_match('//u')` is the UTF-8 DFA of the validator.
- Caller-supplied sinks for new messages (`setNewMessageStreamCallback`) and the fwrite retry loop into them are not modelled.
  - The callback's answer is the input `accepts`.
  - Messages always go to the in-memory accumulator.
- `UpdatesWrapper`, the logging (`TLogAware`, `BasicLogger`, `Log`) and `Autoload` are not modelled: they carry no protocol logic.
- `Version` reads a file; the version is a constant of the server and client.
- `processDidFork` is not modelled.
- Forwarded-IP parsing (`_parseHeaders`) depends on `getTrustForwardedHeaders`, which is not part of this model.
- `Server\AcceptingConnection` is not part of this model. The accepting connection is an optional number with an open flag.
- `createServerClientPair` and `detach` are not modelled.
- Handshake.ClientReadsAcceptResponse: proved for server identifiers, accept values and subprotocols without CR or LF, and subprotocols without surrounding blanks. Other values break the head into different lines.
- Handshake.ClientReadsDenyResponse: proved for codes whose reason phrase has no line break, colon or "get ".
- Handshake.ClientReadsErrorPage: proved for codes whose error text has no line break, colon or "get ".
- Handshake.ServerAcceptsClientRequest: proved only for a path without a colon and without surrounding blanks, a key without surrounding blanks, and no CR or LF in the path, host, user agent or key. A path with a colon is answered with 405 (Handshake.ServerRefusesColonPath); surrounding blanks are trimmed from the path and key the server reads; CR or LF splits the request into other lines.
- Framer.GetFrameHeaders: reads the 64-bit length unsigned, the corrected rule of Findings row 2 (as written: Framer.GetFrameHeadersAsWritten).
- FrameRules.DataFrame: keeps the validator state on refusal, the corrected rule of Findings row 3 (as written: FrameRules.StaleValidatorAsWritten).
- Connections.Connection.IsWriteBufferEmpty: tests the in-flight frame against NULL, the corrected rule of Findings row 1 (as written: Connections.WriteBufferEmptyAsWritten).
- Connections.Connection.HandleWrite: closes after writing only when nothing is left to send, the corrected rule of Findings row 1 (as written: Connections.ZeroByteLeftInFlight).
- Connections.Connection.HandleFrame: runs FrameRules.DataFrame, the corrected rule of Findings row 3 (as written: FrameRules.StaleValidatorAsWritten).
- Connections.Connection.TakeHeader: tests the three RSV flags, the corrected rule of Findings row 6 (as written: Connections.RsvCheckAsWrittenThrows).
- Connections.Connection.TakePayload: runs the corrected rules of Findings rows 2 and 3 (as written: Framer.SignedLengthGivesPartialPayload, FrameRules.StaleValidatorAsWritten).
- Connections.Connection.ReceiveFrames: runs the corrected rules of Findings rows 2, 3 and 6 (as written: Framer.SignedLengthGivesPartialPayload, FrameRules.StaleValidatorAsWritten, Connections.RsvCheckAsWrittenThrows).
- Connections.Connection.HandlePacket: runs the corrected rules of Findings rows 2, 3 and 6, as ReceiveFrames does.
- Connections.Connection.ServerHandshake: cuts the head with Handshake.HeadCut, the corrected rule of Findings row 7 (as written: Handshake.BufferedHeadIsCutShort).
- Connections.Connection.ServerHandshake: a valid request is reported with C_NEWCONNECTION and the bytes after it are handled, the corrected rule of Findings row 8 (as written: Connections.Connection.CompleteHandshakeAsWritten, where PHP throws Error).
- Connections.Connection.ServerHead: a head that parses to code 101 is reported with C_NEWCONNECTION and the bytes after it are handled, the corrected rule of Findings row 8 (as written: Connections.Connection.CompleteHandshakeAsWritten, where PHP throws Error).
- Connections.Connection.ServerCut: code 101 runs CompleteHandshake, the corrected rule of Findings row 8 (as written: Connections.Connection.CompleteHandshakeAsWritten).
- Connections.Connection.CompleteHandshake: reports C_NEWCONNECTION, the corrected rule of Findings row 8 (as written: Connections.Connection.CompleteHandshakeAsWritten).
- Connections.Connection.ClientHandshake: cuts the head with Handshake.HeadCut, the corrected rule of Findings row 7 (as written: Handshake.BufferedHeadIsCutShort).
- Connections.Connection.ClientHandshake: an oversize head is reported with C_READ_HANDSHAKE_TO_LARGE and closes, the corrected rule of Findings row 9 (as written: Connections.Connection.ClientWaitAsWritten, where PHP throws Error).
- Connections.Connection.ClientWait: reports C_READ_HANDSHAKE_TO_LARGE and closes, the corrected rule of Findings row 9 (as written: Connections.Connection.ClientWaitAsWritten).
- Connections.Connection.HandleRead: runs the corrected rules of Findings rows 2, 3, 6, 7, 8 and 9 through the handshake branches and HandlePacket; as written, a valid server handshake and an oversize client head throw Error (Findings rows 8 and 9).
- Connections.Connection.Accept: queues the subprotocol line with its colon, the corrected rule of Findings row 4 (as written: Handshake.ProtocolLineIgnored).
- Connections.Connection.WriteMultiFramed: gives the pieces after the first the continuation opcode, the corrected rule of Findings row 5 (as written: Connections.WriteMultiFramedAsWrittenRefused).
- Connections.Connection.WritePieces: the same corrected opcode rule of Findings row 5.

## Findings

| source | as written | input that shows it | evidently intended | confidence | as-written member | corrected member |
|---|---|---|---|---|---|---|
| src/PHPWebSockets/AConnection.php:234-236 | `isWriteBufferEmpty` uses `empty()` on the in-flight string, and `empty("0")` is true | a frame whose last byte is `0` (0x30) is written up to that byte; both queues are empty and "0" is in flight | the buffer is empty exactly when nothing is left to send | not executed | Connections.ZeroByteLeftInFlight | Connections.WriteBufferEmptyMeansNothingToSend |
| src/PHPWebSockets/Framer.php:102 | `unpack('J')` yields a signed 64-bit integer, so a length with the top bit set is negative | 0x82 0x7F, eight 0xFF bytes, then 20 bytes: the length is -1 and `GetFramePayload` returns 19 bytes | the 64-bit length is unsigned and a payload is never partial | not executed | Framer.SignedLengthGivesPartialPayload | Framer.PayloadNeverPartial |
| src/PHPWebSockets/AConnection.php:393-403 | `ValidateUTF8` advances `_utfValidationState` through its reference argument before the frame is refused, and the refused frame stays in the read buffer | a text fragment E2 (not final), then a final continuation 82, then any further read: the continuation is refused, then accepted on the next pass, and E2 82 is delivered | a refused frame leaves the validator state as it was, so it is refused again | not executed | FrameRules.StaleValidatorAsWritten | FrameRules.StaleValidatorCorrected |
| src/PHPWebSockets/Server/Connection.php:318-321 | the subprotocol line is written as `Sec-WebSocket-Protocol <p>` without a colon | `accept("chat")`: the client's header parser ignores the line | `Sec-WebSocket-Protocol: <p>`, as in section 4.2.2 of RFC 6455 | not executed | Handshake.ProtocolLineIgnored | Handshake.ClientReadsAcceptResponse |
| src/PHPWebSockets/AConnection.php:690-696 | every piece is written with the message's opcode | `writeMultiFramed("abc", OPCODE_FRAME_BINARY, 2)`: the second frame is a new binary message while one is open, and the receiver closes with 1002 | every piece after the first carries the continuation opcode, as in section 5.4 of RFC 6455 | not executed | Connections.WriteMultiFramedAsWrittenRefused | Connections.WriteMultiFramedDelivers |
| src/PHPWebSockets/AConnection.php:812-814 | `_checkRSVBits` reads `$headers[Framer::IND_RSV]`, and Framer defines only `IND_RSV1` to `IND_RSV3`, so PHP throws `Error` | any complete frame, such as the final text frame 0x81 0x02 0x68 0x69: the receive loop throws before the frame is handled | the check passes exactly when the three RSV flags are clear, as in section 5.2 of RFC 6455 | not executed | Connections.RsvCheckAsWrittenThrows | Connections.RsvCheckCorrected |
| src/PHPWebSockets/Server/Connection.php:153-187 | `strpos` looks for the terminator in the new chunk only, and the offset found there is applied to the buffered bytes followed by the chunk (the client's branch, src/PHPWebSockets/Client.php:256-288, does the same) | a request whose first line arrives in one read and whose other lines and blank line arrive in the next: the head handed on is short by the length of the first read | the terminator is looked for in all the bytes received so far and the head is cut at it | not executed | Handshake.BufferedHeadIsCutShort | Handshake.HeadCutWhole |
| src/PHPWebSockets/Server/Connection.php:191 | a valid handshake is reported with `Update\Read::C_NEW_CONNECTION`, which Read does not declare, so PHP throws `Error` | any valid request, such as the one the client sends: `_doHandshake` has recorded the headers, hasHandshake and the token, then the throw leaves handleRead with nothing reported and the bytes after the head unhandled | the new connection is reported with `C_NEWCONNECTION` and the bytes after the head are handled as frames | not executed | Connections.Connection.CompleteHandshakeAsWritten | Connections.Connection.CompleteHandshake |
| src/PHPWebSockets/Client.php:269 | an oversize head is reported with `Update\Error::C_READ_HANDSHAKETOLARGE`, which Error does not declare, so PHP throws `Error` | a server head longer than the maximum head length and without its blank line: the throw comes before the report and before `close()`, so the connection stays open | the error `C_READ_HANDSHAKE_TO_LARGE` is reported and the connection is closed | not executed | Connections.Connection.ClientWaitAsWritten | Connections.Connection.ClientWait |
