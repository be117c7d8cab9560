// The events the library hands to its caller: read events (a message, a
// ping, a disconnect, a new connection) and error events, each with a code
// from a closed enumeration and a description looked up from that code.

module UpdateRead {
  import opened Wrappers
  import opened Bytes

  const C_UNKNOWN: int := 0
  const C_NEWCONNECTION: int := 1
  const C_READ: int := 2
  const C_PING: int := 3
  const C_PONG: int := 4
  const C_SOCK_DISCONNECT: int := 5
  const C_CONNECTION_DENIED: int := 6
  const C_CONNECTION_ACCEPTED: int := 7
  const C_READ_DISCONNECT: int := 8
  const C_NEW_SOCKET_CONNECTED: int := 9
  const C_NEW_SOCKET_CONNECTION_AVAILABLE: int := 10

  /** Deprecated aliases, kept equal to their replacements. */
  const C_NEW_TCP_CONNECTION_AVAILABLE: int := C_NEW_SOCKET_CONNECTION_AVAILABLE
  const C_NEW_TCP_CONNECTION: int := C_NEW_SOCKET_CONNECTED

  /** The description table; C_PONG has no entry. */
  function Description(code: int): Option<string>
  {
    match code
    case 0 => Some("Unknown error")
    case 1 => Some("New connection")
    case 2 => Some("Read")
    case 3 => Some("Ping")
    case 5 => Some("Socket disconnected")
    case 6 => Some("Connection denied")
    case 7 => Some("Connection accepted")
    case 8 => Some("Disconnect")
    case 9 => Some("New connection accepted")
    case 10 => Some("New connection available")
    case _ => None
  }

  /** StringForCode: the table text, or `Unknown read code N`. */
  function StringForCode(code: int): Bytes
  {
    match Description(code)
    case Some(text) => Str(text)
    case None => Str("Unknown read code ") + Decimal(code)
  }

  /** Every code outside the table, C_PONG among them, gets the fallback text
      naming the code; every code in the table gets its entry. */
  lemma StringForCodeCases(code: int)
    ensures (code in {0, 1, 2, 3, 5, 6, 7, 8, 9, 10}) <==> Description(code).Some?
    ensures code !in {0, 1, 2, 3, 5, 6, 7, 8, 9, 10} ==> StringForCode(code) == Str("Unknown read code ") + Decimal(code)
  {
  }

  /** The pong code falls back to the unknown-code text. */
  lemma PongIsUnknown()
    ensures StringForCode(C_PONG) == Str("Unknown read code 4")
  {
    assert Decimal(4) == [52];
  }

  /** The constants Read declares, by name. */
  const NAMES: map<string, int> := map[
    "C_UNKNOWN" := C_UNKNOWN, "C_NEWCONNECTION" := C_NEWCONNECTION, "C_READ" := C_READ,
    "C_PING" := C_PING, "C_PONG" := C_PONG, "C_SOCK_DISCONNECT" := C_SOCK_DISCONNECT,
    "C_CONNECTION_DENIED" := C_CONNECTION_DENIED, "C_CONNECTION_ACCEPTED" := C_CONNECTION_ACCEPTED,
    "C_READ_DISCONNECT" := C_READ_DISCONNECT, "C_NEW_SOCKET_CONNECTED" := C_NEW_SOCKET_CONNECTED,
    "C_NEW_SOCKET_CONNECTION_AVAILABLE" := C_NEW_SOCKET_CONNECTION_AVAILABLE,
    "C_NEW_TCP_CONNECTION_AVAILABLE" := C_NEW_TCP_CONNECTION_AVAILABLE,
    "C_NEW_TCP_CONNECTION" := C_NEW_TCP_CONNECTION]

  /** `Update\Read::<name>`: the value of a declared constant; for any other
      name PHP throws an Error for the undefined constant. */
  function Constant(name: string): (r: Result<int>)
    ensures r.Ok? <==> name in NAMES
    ensures r.Fail? ==> r.error == UndefinedConstant
  {
    if name in NAMES then Ok(NAMES[name]) else Fail(UndefinedConstant)
  }

  /** The name the server's handshake branch reports a new connection with
      is not declared; the declared one is C_NEWCONNECTION. */
  lemma NewConnectionUndefined()
    ensures Constant("C_NEW_CONNECTION") == Fail(UndefinedConstant)
    ensures Constant("C_NEWCONNECTION") == Ok(C_NEWCONNECTION)
  {
  }

  /** The deprecated names denote the same events as their replacements. */
  lemma DeprecatedAliases()
    ensures C_NEW_TCP_CONNECTION_AVAILABLE == C_NEW_SOCKET_CONNECTION_AVAILABLE == 10
    ensures C_NEW_TCP_CONNECTION == C_NEW_SOCKET_CONNECTED == 9
    ensures StringForCode(C_NEW_TCP_CONNECTION) == Str("New connection accepted")
  {
  }
}

module UpdateError {
  import opened Wrappers
  import opened Bytes

  const C_UNKNOWN: int := 0
  const C_SELECT: int := 1
  const C_READ: int := 2
  const C_READ_EMPTY: int := 3
  const C_READ_UNHANDLED: int := 4
  const C_READ_HANDSHAKE_FAILURE: int := 5
  const C_READ_HANDSHAKE_TO_LARGE: int := 6
  const C_READ_INVALID_PAYLOAD: int := 7
  const C_READ_INVALID_HEADERS: int := 8
  const C_READ_UNEXPECTED_DISCONNECT: int := 9
  const C_READ_PROTOCOL_ERROR: int := 10
  const C_READ_RSV_BIT_SET: int := 11
  const C_WRITE: int := 12
  const C_ACCEPT_TIMEOUT_PASSED: int := 13
  const C_WRITE_INVALID_TARGET_STREAM: int := 14
  const C_READ_DISCONNECT_DURING_HANDSHAKE: int := 15
  const C_DISCONNECT_TIMEOUT: int := 16
  const C_READ_NO_STREAM_FOR_NEW_MESSAGE: int := 17
  const C_ASYNC_CONNECT_FAILED: int := 18

  /** All error codes, in declaration order. */
  const CODES: seq<int> := [
    C_UNKNOWN, C_SELECT, C_READ, C_READ_EMPTY, C_READ_UNHANDLED,
    C_READ_HANDSHAKE_FAILURE, C_READ_HANDSHAKE_TO_LARGE, C_READ_INVALID_PAYLOAD,
    C_READ_INVALID_HEADERS, C_READ_UNEXPECTED_DISCONNECT, C_READ_PROTOCOL_ERROR,
    C_READ_RSV_BIT_SET, C_WRITE, C_ACCEPT_TIMEOUT_PASSED, C_WRITE_INVALID_TARGET_STREAM,
    C_READ_DISCONNECT_DURING_HANDSHAKE, C_DISCONNECT_TIMEOUT,
    C_READ_NO_STREAM_FOR_NEW_MESSAGE, C_ASYNC_CONNECT_FAILED]

  /** The codes are pairwise distinct: they are exactly 0..18 in order. */
  lemma CodesDistinct()
    ensures CODES == seq(19, i => i)
    ensures forall i, j :: 0 <= i < j < |CODES| ==> CODES[i] != CODES[j]
  {
  }

  /** The constants Error declares, by name. */
  const NAMES: map<string, int> := map[
    "C_UNKNOWN" := C_UNKNOWN, "C_SELECT" := C_SELECT, "C_READ" := C_READ,
    "C_READ_EMPTY" := C_READ_EMPTY, "C_READ_UNHANDLED" := C_READ_UNHANDLED,
    "C_READ_HANDSHAKE_FAILURE" := C_READ_HANDSHAKE_FAILURE,
    "C_READ_HANDSHAKE_TO_LARGE" := C_READ_HANDSHAKE_TO_LARGE,
    "C_READ_INVALID_PAYLOAD" := C_READ_INVALID_PAYLOAD, "C_READ_INVALID_HEADERS" := C_READ_INVALID_HEADERS,
    "C_READ_UNEXPECTED_DISCONNECT" := C_READ_UNEXPECTED_DISCONNECT,
    "C_READ_PROTOCOL_ERROR" := C_READ_PROTOCOL_ERROR, "C_READ_RSV_BIT_SET" := C_READ_RSV_BIT_SET,
    "C_WRITE" := C_WRITE, "C_ACCEPT_TIMEOUT_PASSED" := C_ACCEPT_TIMEOUT_PASSED,
    "C_WRITE_INVALID_TARGET_STREAM" := C_WRITE_INVALID_TARGET_STREAM,
    "C_READ_DISCONNECT_DURING_HANDSHAKE" := C_READ_DISCONNECT_DURING_HANDSHAKE,
    "C_DISCONNECT_TIMEOUT" := C_DISCONNECT_TIMEOUT,
    "C_READ_NO_STREAM_FOR_NEW_MESSAGE" := C_READ_NO_STREAM_FOR_NEW_MESSAGE,
    "C_ASYNC_CONNECT_FAILED" := C_ASYNC_CONNECT_FAILED]

  /** `Update\Error::<name>`: the value of a declared constant; for any other
      name PHP throws an Error for the undefined constant. */
  function Constant(name: string): (r: Result<int>)
    ensures r.Ok? <==> name in NAMES
    ensures r.Fail? ==> r.error == UndefinedConstant
  {
    if name in NAMES then Ok(NAMES[name]) else Fail(UndefinedConstant)
  }

  /** The names the client's handshake branch and the receive loop report
      an oversize head and a set RSV bit with are not declared; the declared
      ones have underscores between the words. */
  lemma MisspelledCodesUndefined()
    ensures Constant("C_READ_HANDSHAKETOLARGE") == Fail(UndefinedConstant)
    ensures Constant("C_READ_RSVBIT_SET") == Fail(UndefinedConstant)
    ensures Constant("C_READ_HANDSHAKE_TO_LARGE") == Ok(C_READ_HANDSHAKE_TO_LARGE)
    ensures Constant("C_READ_RSV_BIT_SET") == Ok(C_READ_RSV_BIT_SET)
  {
  }

  /** The description table; C_WRITE_INVALID_TARGET_STREAM has no entry. */
  function Description(code: int): Option<string>
  {
    match code
    case 0 => Some("Unknown error")
    case 1 => Some("Select error")
    case 2 => Some("Read error")
    case 3 => Some("Empty read")
    case 4 => Some("Unhandled read")
    case 5 => Some("Handshake failure")
    case 6 => Some("Handshake to large")
    case 7 => Some("Invalid payload")
    case 8 => Some("Invalid headers")
    case 9 => Some("Unexpected disconnect")
    case 10 => Some("Protocol error")
    case 11 => Some("RSV bit set while not being expected")
    case 12 => Some("Write failure")
    case 13 => Some("Accept timeout passed")
    case 15 => Some("Disconnect during handshake")
    case 16 => Some("The remote failed to respond in time to our disconnect")
    case 17 => Some("No stream was returned by the newMessageStreamCallback")
    case 18 => Some("Async connect failed")
    case _ => None
  }

  /** StringForCode: the table text, or `Unknown error code N`. */
  function StringForCode(code: int): Bytes
  {
    match Description(code)
    case Some(text) => Str(text)
    case None => Str("Unknown error code ") + Decimal(code)
  }

  /** Every declared code but 14 has a table entry; 14 and every undeclared
      code get the fallback text naming the code. */
  lemma StringForCodeCases(code: int)
    ensures Description(code).Some? <==> code in CODES && code != C_WRITE_INVALID_TARGET_STREAM
    ensures Description(code).None? ==> StringForCode(code) == Str("Unknown error code ") + Decimal(code)
  {
    CodesDistinct();
  }

  /** The invalid-target-stream code falls back to the unknown-code text. */
  lemma InvalidTargetStreamIsUnknown()
    ensures StringForCode(C_WRITE_INVALID_TARGET_STREAM) == Str("Unknown error code 14")
  {
    assert Decimal(14) == Decimal(1) + [52];
  }
}

module Updates {
  import opened Wrappers
  import opened Bytes
  import opened PhpStrings
  import UpdateRead
  import UpdateError

  /** An event. `source` identifies the connection it concerns (absent for a
      select failure); a read event may carry the frame opcode, the message
      and a stream handle. */
  datatype Update =
    | Read(code: int, source: Option<nat>, opcode: Option<int>, message: Option<Bytes>, stream: Option<nat>)
    | Error(code: int, source: Option<nat>)

  /** What a caller may pass as the stream of a read event. */
  datatype StreamArgument = NullStream | ResourceStream(handle: nat) | NotAResource

  /** The read event constructor: anything but NULL or a resource is refused;
      otherwise every argument is stored unchanged. */
  function NewRead(code: int, source: Option<nat>, opcode: Option<int>, message: Option<Bytes>, stream: StreamArgument): (r: Result<Update>)
    ensures r.Fail? <==> stream.NotAResource?
    ensures r.Fail? ==> r.error == InvalidArgumentException
    ensures r.Ok? ==> r.value == Read(code, source, opcode, message,
                                      if stream.ResourceStream? then Some(stream.handle) else None)
  {
    match stream
    case NotAResource => Fail(InvalidArgumentException)
    case NullStream => Ok(Read(code, source, opcode, message, None))
    case ResourceStream(h) => Ok(Read(code, source, opcode, message, Some(h)))
  }

  /** An event without opcode, message or stream. */
  function ReadEvent(code: int, source: nat): Update
  {
    Read(code, Some(source), None, None, None)
  }

  /** __toString: `Read) <text> (C: <code>)` or `Error) <text> (C: <code>)`. */
  function ToString(u: Update): Bytes
  {
    var (kind, text) := if u.Read? then (Str("Read) "), UpdateRead.StringForCode(u.code))
                        else (Str("Error) "), UpdateError.StringForCode(u.code));
    kind + text + Str(" (C: ") + Decimal(u.code) + Str(")")
  }

  /** Reading a rendering back: the integer between its last space and the
      closing parenthesis. */
  function CodeOfRendering(r: Bytes): int
  {
    if r == [] then 0
    else
      var body := r[..|r| - 1];
      match LastIndexOf(body, SPACE)
      case None => 0
      case Some(i) => IntVal(body[i + 1..])
  }

  /** The rendering names the code: it can be read back from the text, so two
      events with different codes never render alike. */
  lemma ToStringRoundTrip(u: Update)
    requires PHP_INT_MIN <= u.code <= PHP_INT_MAX
    ensures CodeOfRendering(ToString(u)) == u.code
  {
    var r := ToString(u);
    var d := Decimal(u.code);
    var head := r[..|r| - 1 - |d| - 1];
    assert Str(" (C: ") == [32, 40, 67, 58, 32];
    assert Str(")") == [41];
    assert r[..|r| - 1] == head + [SPACE] + d;
    DecimalNoSpace(u.code);
    LastIndexOfBeforeSuffix(head, SPACE, d);
    assert (head + [SPACE] + d)[|head| + 1..] == d;
    IntValDecimalSigned(u.code);
  }
}
