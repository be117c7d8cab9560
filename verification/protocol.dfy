// Protocol constants of RFC 6455 and the small classifiers built on them:
// opcodes, close codes, and the HTTP status texts used in handshake replies.

module Protocol {
  import opened Wrappers
  import opened Bytes

  /** The GUID appended to the client key (section 1.3 of RFC 6455). */
  const WEBSOCKET_GUID: string := "258EAFA5-E914-47DA-95CA-C5AB0DC85B11"

  const OPCODE_CONTINUE: int := 0
  const OPCODE_FRAME_TEXT: int := 1
  const OPCODE_FRAME_BINARY: int := 2
  const OPCODE_CLOSE_CONNECTION: int := 8
  const OPCODE_PING: int := 9
  const OPCODE_PONG: int := 10

  const CLOSECODE_NORMAL: int := 1000
  const CLOSECODE_ENDPOINT_CLOSING: int := 1001
  const CLOSECODE_PROTOCOL_ERROR: int := 1002
  const CLOSECODE_UNSUPPORTED_PAYLOAD: int := 1003
  const CLOSECODE_NO_STATUS: int := 1005
  const CLOSECODE_ABNORMAL_DISCONNECT: int := 1006
  const CLOSECODE_INVALID_PAYLOAD: int := 1007
  const CLOSECODE_POLICY_VIOLATION: int := 1008
  const CLOSECODE_PAYLOAD_TO_LARGE: int := 1009
  const CLOSECODE_EXTENSION_NEGOTIATION_FAILURE: int := 1010
  const CLOSECODE_UNEXPECTED_CONDITION: int := 1011
  const CLOSECODE_SERVICE_RESTARTING: int := 1012
  const CLOSECODE_TRY_AGAIN_LATER: int := 1013
  const CLOSECODE_BAD_GATEWAY: int := 1014
  const CLOSECODE_TLS_HANDSHAKE_FAILURE: int := 1015

  /** States of the UTF-8 automaton that have a name. */
  const UTF8_ACCEPT: int := 0
  const UTF8_REJECT: int := 1

  /** Whether a close code may appear in a close frame; `received` says the
      code came from the peer, in which case the three codes that section 7.4.1
      of RFC 6455 reserves for local use (1005, 1006, 1015) are refused. */
  function IsValidCloseCode(code: int, received: bool): (r: bool)
    ensures r ==> 1000 <= code <= 4999
    ensures r && received ==> code != CLOSECODE_NO_STATUS && code != CLOSECODE_ABNORMAL_DISCONNECT && code != CLOSECODE_TLS_HANDSHAKE_FAILURE
  {
    if code in {CLOSECODE_NORMAL, CLOSECODE_ENDPOINT_CLOSING, CLOSECODE_PROTOCOL_ERROR, CLOSECODE_UNSUPPORTED_PAYLOAD,
                CLOSECODE_INVALID_PAYLOAD, CLOSECODE_POLICY_VIOLATION, CLOSECODE_PAYLOAD_TO_LARGE,
                CLOSECODE_EXTENSION_NEGOTIATION_FAILURE, CLOSECODE_UNEXPECTED_CONDITION} then true
    else if code in {CLOSECODE_NO_STATUS, CLOSECODE_ABNORMAL_DISCONNECT, CLOSECODE_TLS_HANDSHAKE_FAILURE} then !received
    else 3000 <= code <= 4999
  }

  /** The codes of the 1000-2999 block a peer may send, read off section 7.4.1
      of RFC 6455 independently of the switch above. */
  predicate RfcSendableProtocolCode(code: int)
  {
    (1000 <= code <= 1003) || (1007 <= code <= 1011)
  }

  /** A received code is accepted exactly when it is one of the RFC's sendable
      protocol codes or lies in the registered/private range 3000-4999; a
      locally reported code additionally admits 1005, 1006 and 1015. Reserved
      1004 and the unassigned 1012-1014 are refused either way. */
  lemma CloseCodeClassification(code: int)
    ensures IsValidCloseCode(code, true) <==> RfcSendableProtocolCode(code) || 3000 <= code <= 4999
    ensures IsValidCloseCode(code, false) <==> IsValidCloseCode(code, true) || code in {1005, 1006, 1015}
    ensures code == 1004 || 1012 <= code <= 1014 ==> !IsValidCloseCode(code, false)
  {
  }

  /** Control opcodes are 0x8-0xF (section 5.5 of RFC 6455). */
  function IsControlOpcode(opcode: int): (r: bool)
    ensures r <==> 8 <= opcode <= 15
  {
    opcode >= 8 && opcode <= 15
  }

  /** Frames that jump the normal send queue: control frames other than close,
      so that a close never overtakes data queued before it. */
  function IsPriorityOpcode(opcode: int): (r: bool)
    ensures r ==> IsControlOpcode(opcode)
    ensures r <==> IsControlOpcode(opcode) && opcode != OPCODE_CLOSE_CONNECTION
  {
    opcode != OPCODE_CLOSE_CONNECTION && IsControlOpcode(opcode)
  }

  lemma OpcodeQueues()
    ensures IsPriorityOpcode(OPCODE_PING) && IsPriorityOpcode(OPCODE_PONG)
    ensures !IsPriorityOpcode(OPCODE_CLOSE_CONNECTION)
    ensures !IsPriorityOpcode(OPCODE_CONTINUE) && !IsPriorityOpcode(OPCODE_FRAME_TEXT) && !IsPriorityOpcode(OPCODE_FRAME_BINARY)
  {
  }

  /** The HTTP status table: the reason phrase for each known code. */
  function StatusText(code: int): Option<string>
  {
    match code
    case 100 => Some("Continue")
    case 101 => Some("Switching Protocols")
    case 102 => Some("Processing")
    case 200 => Some("OK")
    case 201 => Some("Created")
    case 202 => Some("Accepted")
    case 203 => Some("Non-Authoritative Information")
    case 204 => Some("No Content")
    case 205 => Some("Reset Content")
    case 206 => Some("Partial Content")
    case 207 => Some("Multi-Status")
    case 208 => Some("Already Reported")
    case 226 => Some("IM Used")
    case 300 => Some("Multiple Choices")
    case 301 => Some("Moved Permanently")
    case 302 => Some("Found")
    case 303 => Some("See Other")
    case 304 => Some("Not Modified")
    case 305 => Some("Use Proxy")
    case 306 => Some("Switch Proxy")
    case 307 => Some("Temporary Redirect")
    case 308 => Some("Permanent Redirect")
    case 400 => Some("Bad Request")
    case 401 => Some("Unauthorized")
    case 402 => Some("Payment Required")
    case 403 => Some("Forbidden")
    case 404 => Some("Not Found")
    case 405 => Some("Method Not Allowed")
    case 406 => Some("Not Acceptable")
    case 407 => Some("Proxy Authentication Required")
    case 408 => Some("Request Timeout")
    case 409 => Some("Conflict")
    case 410 => Some("Gone")
    case 411 => Some("Length Required")
    case 412 => Some("Precondition Failed")
    case 413 => Some("Payload Too Large")
    case 414 => Some("URI Too Long")
    case 415 => Some("Unsupported Media Type")
    case 416 => Some("Range Not Satisfiable")
    case 417 => Some("Expectation Failed")
    case 418 => Some("I'm a teapot")
    case 421 => Some("Misdirected Request")
    case 422 => Some("Unprocessable Entity")
    case 423 => Some("Locked")
    case 424 => Some("Failed Dependency")
    case 426 => Some("Upgrade Required")
    case 428 => Some("Precondition Required")
    case 429 => Some("Too Many Requests")
    case 431 => Some("Request Header Fields Too Large")
    case 451 => Some("Unavailable For Legal Reasons")
    case 500 => Some("Internal Server Error")
    case 501 => Some("Not Implemented")
    case 502 => Some("Bad Gateway")
    case 503 => Some("Service Unavailable")
    case 504 => Some("Gateway Timeout")
    case 505 => Some("HTTP Version Not Supported")
    case 506 => Some("Variant Also Negotiates")
    case 507 => Some("Insufficient Storage")
    case 508 => Some("Loop Detected")
    case 510 => Some("Not Extended")
    case 511 => Some("Network Authentication Required")
    case _ => None
  }

  /** The reason phrase for an HTTP status code, or None for a code the table
      does not know. */
  function GetStringForStatusCode(code: int): (r: Option<Bytes>)
    ensures r.Some? <==> StatusText(code).Some?
  {
    match StatusText(code)
    case Some(text) => Some(Str(text))
    case None => None
  }

  /** The texts of the statuses the opening handshake itself answers with. */
  lemma HandshakeStatusTexts()
    ensures GetStringForStatusCode(101) == Some(Str("Switching Protocols"))
    ensures GetStringForStatusCode(400) == Some(Str("Bad Request"))
    ensures GetStringForStatusCode(405) == Some(Str("Method Not Allowed"))
  {
    assert StatusText(101) == Some("Switching Protocols");
    assert StatusText(400) == Some("Bad Request");
    assert StatusText(405) == Some("Method Not Allowed");
  }

  /** The texts of the statuses a server refuses a connection with. */
  lemma RefusalStatusTexts()
    ensures GetStringForStatusCode(426) == Some(Str("Upgrade Required"))
    ensures GetStringForStatusCode(431) == Some(Str("Request Header Fields Too Large"))
    ensures GetStringForStatusCode(504) == Some(Str("Gateway Timeout"))
  {
    assert StatusText(426) == Some("Upgrade Required");
    assert StatusText(431) == Some("Request Header Fields Too Large");
    assert StatusText(504) == Some("Gateway Timeout");
  }

  /** Codes outside the table have no text. */
  lemma UnknownStatusCodes()
    ensures GetStringForStatusCode(0) == None && GetStringForStatusCode(299) == None
    ensures GetStringForStatusCode(509) == None
  {
  }
}
