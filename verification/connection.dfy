// One WebSocket connection and the server's connection table.
//
// The library's abstract connection and its two concrete roles (the
// server-side connection and the client) share almost all of their state and
// behaviour; here they are one class with a `role`. Streams, the clock, the
// random masking key and the bytes each write reaches are parameters.

module Connections {
  import opened Wrappers
  import opened Bytes
  import opened Protocol
  import opened Framer
  import opened Utf8
  import opened FrameRules
  import opened Updates
  import opened Http
  import opened Handshake
  import opened PhpStrings
  import R = UpdateRead
  import E = UpdateError

  datatype Role = ServerSide | ClientSide

  /** The settings a connection is created with: the handshake size limit,
      the bytes written and read per pass, the accept deadline (server side,
      milliseconds), the callback deciding whether a new message is taken,
      and the user agent a client announces. */
  datatype Settings = Settings(
    maxHandshakeLength: int, writeRate: int, readRate: int, acceptTimeout: int,
    newMessageCallback: Option<Header -> bool>, userAgent: Option<Bytes>)

  /** The source's defaults: 8192 bytes, 16384 bytes per pass each way, five
      seconds, no callback, the default user agent. */
  const DEFAULT_SETTINGS := Settings(8192, 16384, 16384, 5000, None, None)

  /** sendDisconnect's default time for the peer to answer a close, in the
      model's clock unit (milliseconds): 10 seconds. */
  const DISCONNECT_TIMEOUT: int := 10000

  /** A frame as Frame serialises it, or no bytes when Frame refuses (the
      callers below only use it for frames Frame accepts). */
  function Framed(data: Bytes, mask: bool, key: MaskKey, opcode: int): Bytes
  {
    if |data| <= MAX_PHP_INT then
      match Frame(data, mask, key, opcode, true, false, false, false)
      case Ok(f) => f
      case Fail(_) => []
    else []
  }

  /** The close frame sendDisconnect queues. */
  function CloseFrame(code: int, reason: Bytes, mask: bool, key: MaskKey): Bytes
  {
    Framed(ClosePayload(code, reason), mask, key, OPCODE_CLOSE_CONNECTION)
  }

  /** The close frames for a list of (code, reason) pairs. */
  function CloseFrames(closes: seq<CloseEcho>, mask: bool, key: MaskKey): (r: seq<Bytes>)
    ensures |r| == |closes|
    ensures forall i :: 0 <= i < |closes| ==> r[i] == CloseFrame(closes[i].code, closes[i].reason, mask, key)
  {
    seq(|closes|, i requires 0 <= i < |closes| => CloseFrame(closes[i].code, closes[i].reason, mask, key))
  }

  lemma CloseFramesOfOne(closes: seq<CloseEcho>, mask: bool, key: MaskKey)
    requires |closes| <= 1
    ensures CloseFrames(closes, mask, key)
            == if closes == [] then [] else [CloseFrame(closes[0].code, closes[0].reason, mask, key)]
  {
  }

  /** The pong frames answering a list of ping payloads. */
  function PongFrames(pings: seq<Bytes>, mask: bool, key: MaskKey): (r: seq<Bytes>)
    ensures |r| == |pings|
    ensures forall i :: 0 <= i < |pings| ==> r[i] == Framed(pings[i], mask, key, OPCODE_PONG)
  {
    seq(|pings|, i requires 0 <= i < |pings| => Framed(pings[i], mask, key, OPCODE_PONG))
  }

  /** The payloads of the ping events in a list of events, in order. */
  function PingPayloads(us: seq<Update>): seq<Bytes>
  {
    if us == [] then []
    else
      var u := us[0];
      (if u.Read? && u.code == R.C_PING && u.message.Some? then [u.message.value] else []) + PingPayloads(us[1..])
  }

  lemma {:induction false} PingPayloadsAppend(a: seq<Update>, b: seq<Update>)
    ensures PingPayloads(a + b) == PingPayloads(a) + PingPayloads(b)
    decreases |a|
  {
    if a == [] {
      assert a + b == b;
    } else {
      assert (a + b)[1..] == a[1..] + b;
      PingPayloadsAppend(a[1..], b);
    }
  }

  lemma PingPayloadsOfOne(us: seq<Update>)
    requires |us| <= 1
    ensures PingPayloads(us) == (if |us| == 1 && us[0].Read? && us[0].code == R.C_PING && us[0].message.Some?
                                 then [us[0].message.value] else [])
  {
    if |us| == 1 {
      assert us[1..] == [];
    }
  }

  /** An event that hands over a text message carries well-formed UTF-8. */
  predicate TextIsUtf8(u: Update)
  {
    (u.Read? && u.code == R.C_READ && u.opcode == Some(OPCODE_FRAME_TEXT) && u.message.Some?)
      ==> WellFormedUtf8(u.message.value)
  }

  /** Every event concerns connection `id`, and every text message it hands
      over is well-formed UTF-8. */
  predicate Reported(us: seq<Update>, id: nat)
  {
    forall i :: 0 <= i < |us| ==> TextIsUtf8(us[i]) && us[i].source == Some(id)
  }

  lemma ReportedAppend(a: seq<Update>, b: seq<Update>, id: nat)
    requires Reported(a, id) && Reported(b, id)
    ensures Reported(a + b, id)
  {
  }

  /** Every close a connection queued may be sent (valid code, UTF-8 reason). */
  predicate AllSendable(cs: seq<CloseEcho>)
  {
    forall i :: 0 <= i < |cs| ==> Sendable(cs[i])
  }

  /** Ping payloads fit a control frame. */
  predicate ShortPayloads(ps: seq<Bytes>)
  {
    forall i :: 0 <= i < |ps| ==> |ps[i]| <= 125
  }

  lemma ShortPayloadsAppend(a: seq<Bytes>, b: seq<Bytes>)
    requires ShortPayloads(a) && ShortPayloads(b)
    ensures ShortPayloads(a + b)
  {
  }

  /** A frame whose header parses at `pos`, whose reserved bits are clear
      and whose payload the framer takes is a frame the loop consumes. */
  lemma FramedAtIntro(buf: Bytes, pos: nat, h: Header, frame: Bytes)
    requires pos <= |buf| && GetFrameHeaders(buf[pos..]) == Some(h) && RsvClear(h)
    requires pos + h.length + h.payloadOffset <= |buf|
    requires frame == buf[pos..pos + h.length + h.payloadOffset]
    requires GetFramePayload(frame, Some(h)).Payload?
    ensures FramedAt(buf, pos, h.length + h.payloadOffset)
  {
  }

  /** A segmentation extends by any frame taken at its last cut. */
  lemma SegmentedSnoc(buf: Bytes, cuts: seq<nat>, pos: nat, size: nat)
    requires Segmented(buf, cuts) && cuts[|cuts| - 1] == pos
    requires 0 < size && FramedAt(buf, pos, size)
    ensures Segmented(buf, cuts + [pos + size])
  {
    var longer := cuts + [pos + size];
    assert longer[..|longer| - 1] == cuts;
    assert FrameAfterPrefix(buf, longer);
  }

  /** The frame at `pos` of `org`, cut out by the length its header `h`
      gives, and its payload as the framer reads it with `h` already known.
      A frame taken extends the segmentation. */
  method CutFrame(org: Bytes, pos: nat, h: Header, ghost cuts: seq<nat>) returns (payload: PayloadResult)
    requires pos < |org| && GetFrameHeaders(org[pos..]) == Some(h) && RsvClear(h)
    requires h.length + h.payloadOffset <= |org|
    requires Segmented(org, cuts) && cuts[|cuts| - 1] == pos
    ensures payload == GetFramePayload(org[pos..if pos + h.length + h.payloadOffset <= |org| then pos + h.length + h.payloadOffset else |org|], Some(h))
    ensures payload.Payload? ==> && Segmented(org, cuts + [pos + (h.length + h.payloadOffset)])
                                 && 0 < h.length + h.payloadOffset <= |org| - pos
                                 && KnownOpcode(h.opcode) && (IsControlOpcode(h.opcode) ==> |payload.data| <= 125)
  {
    var frameSize := h.length + h.payloadOffset;
    var frame := org[pos..if pos + frameSize <= |org| then pos + frameSize else |org|];
    payload := GetFramePayload(frame, Some(h));
    if payload.Payload? {
      assert frame == org[pos..pos + frameSize];
      FramedAtIntro(org, pos, h, frame);
      SegmentedSnoc(org, cuts, pos, frameSize);
    }
  }

  /** The message being received keeps its opcode, accumulator and UTF-8
      state in step with each other. */
  type PartialMessage = m: Message | Consistent(m) witness NoMessage

  /** How one pass of the receive loop ends: with the frame consumed and
      the loop going on, with `break`, or with `return`. */
  datatype LoopStep = Advance(size: nat) | Break | Return

  /** _checkRSVBits as intended: no reserved bit is set (no extension is
      negotiated). */
  predicate RsvClear(h: Header)
  {
    !h.rsv1 && !h.rsv2 && !h.rsv3
  }

  /** _checkRSVBits as written: it reads the RSV entry of the header array
      through Framer::IND_RSV, a constant Framer does not define, so PHP
      throws before any flag is looked at. */
  function CheckRsvBitsAsWritten(h: Header): Result<bool>
  {
    Fail(UndefinedConstant)
  }

  /** As written, no frame is ever handled: even a frame built by Frame
      with every reserved bit clear has a complete header, and the check of
      its reserved bits throws, while the intended check lets it through. */
  lemma RsvCheckAsWrittenThrows(data: Bytes, mask: bool, key: MaskKey, opcode: int, isFinal: bool)
    requires |data| <= MAX_PHP_INT
    requires Frame(data, mask, key, opcode, isFinal, false, false, false).Ok?
    ensures var hs := GetFrameHeaders(Frame(data, mask, key, opcode, isFinal, false, false, false).value);
      && hs.Some? && CheckRsvBitsAsWritten(hs.value) == Fail(UndefinedConstant) && RsvClear(hs.value)
  {
    FrameHeaderRoundTrip(data, mask, key, opcode, isFinal, false, false, false);
  }

  /** The intended check on a frame Frame builds passes exactly when none
      of the three reserved bits was asked for. */
  lemma RsvCheckCorrected(data: Bytes, mask: bool, key: MaskKey, opcode: int, isFinal: bool, rsv1: bool, rsv2: bool, rsv3: bool)
    requires |data| <= MAX_PHP_INT
    requires Frame(data, mask, key, opcode, isFinal, rsv1, rsv2, rsv3).Ok?
    ensures var hs := GetFrameHeaders(Frame(data, mask, key, opcode, isFinal, rsv1, rsv2, rsv3).value);
      hs.Some? && (RsvClear(hs.value) <==> !rsv1 && !rsv2 && !rsv3)
  {
    FrameHeaderRoundTrip(data, mask, key, opcode, isFinal, rsv1, rsv2, rsv3);
  }

  /** The reason the receive loop closes with when a reserved bit is set. */
  const RSV_REASON: Bytes := Str("Invalid RSV value")

  lemma RsvReasonIsUtf8()
    ensures WellFormedUtf8(RSV_REASON) && |RSV_REASON| == 17
  {
    AsciiTextIsUtf8("Invalid RSV value");
  }

  /** The frame loop consumed, at `pos` of `buf`, a frame of `size` bytes: its
      header was parsed from the bytes that remain, its reserved bits are
      clear, and its whole payload was there. */
  predicate FramedAt(buf: Bytes, pos: nat, size: nat)
  {
    pos <= |buf| && GetFrameHeaders(buf[pos..]).Some?
    && var h := GetFrameHeaders(buf[pos..]).value;
    && RsvClear(h)
    && size == h.payloadOffset + h.length && pos + size <= |buf|
    && GetFramePayload(buf[pos..pos + size], Some(h)).Payload?
  }

  /** `buf` was consumed frame after frame: the first cut is at 0, and each
      later cut is reached by a frame taken at the cut before it. */
  predicate Segmented(buf: Bytes, cuts: seq<nat>)
    decreases |cuts|, 2
  {
    |cuts| > 0 && cuts[|cuts| - 1] <= |buf|
    && if |cuts| == 1 then cuts[0] == 0 else LastFrame(buf, cuts)
  }

  /** The last step of a segmentation: the cut before the last one is
      smaller, and the bytes between them are one frame. */
  predicate LastFrame(buf: Bytes, cuts: seq<nat>)
    requires |cuts| >= 2
    decreases |cuts|, 1
  {
    cuts[|cuts| - 2] < cuts[|cuts| - 1] && FrameAfterPrefix(buf, cuts)
  }

  /** The frame between the last two cuts, after a segmented prefix. */
  predicate FrameAfterPrefix(buf: Bytes, cuts: seq<nat>)
    requires |cuts| >= 2
    decreases |cuts|, 0
  {
    var prev := cuts[|cuts| - 2];
    Segmented(buf, cuts[..|cuts| - 1]) && prev <= cuts[|cuts| - 1] && FramedAt(buf, prev, cuts[|cuts| - 1] - prev)
  }

  /** The bytes a connection still has to send, in the order it will send
      them: the frame being written, then the priority queue, then the normal
      queue. */
  function SendOrder(inFlight: Option<Bytes>, priority: seq<Bytes>, normal: seq<Bytes>): Bytes
  {
    (if inFlight.Some? then inFlight.value else []) + Flatten(priority) + Flatten(normal)
  }

  /** PHP's empty() on a string: true for NULL, "" and "0". */
  predicate PhpEmpty(s: Option<Bytes>)
  {
    s.None? || s.value == [] || s.value == [48]
  }

  /** isWriteBufferEmpty as written: empty() of the two queues and of the
      frame being written. */
  predicate WriteBufferEmptyAsWritten(priority: seq<Bytes>, normal: seq<Bytes>, inFlight: Option<Bytes>)
  {
    priority == [] && normal == [] && PhpEmpty(inFlight)
  }

  /** isWriteBufferEmpty with the frame being written tested against NULL,
      the value handleWrite leaves once a frame is fully written. */
  predicate WriteBufferEmpty(priority: seq<Bytes>, normal: seq<Bytes>, inFlight: Option<Bytes>)
  {
    priority == [] && normal == [] && inFlight.None?
  }

  /** A frame written up to its last byte, a "0", is still in flight, but the
      source's test calls the buffer empty: with closeAfterWrite set the
      connection is closed before that byte is sent, and the stream is left
      out of the select write set, so the byte waits for a later write. */
  lemma ZeroByteLeftInFlight()
    ensures WriteBufferEmptyAsWritten([], [], Some([48]))
    ensures SendOrder(Some([48]), [], []) == [48]
  {
  }

  /** The corrected test holds exactly when nothing is left to send, given
      that no queued frame is empty (every frame has a 2-byte header). */
  lemma WriteBufferEmptyMeansNothingToSend(priority: seq<Bytes>, normal: seq<Bytes>, inFlight: Option<Bytes>)
    requires forall i :: 0 <= i < |priority| ==> priority[i] != []
    requires forall i :: 0 <= i < |normal| ==> normal[i] != []
    requires inFlight.Some? ==> inFlight.value != []
    ensures WriteBufferEmpty(priority, normal, inFlight) <==> SendOrder(inFlight, priority, normal) == []
  {
    if priority != [] {
      assert Flatten(priority) == priority[0] + Flatten(priority[1..]);
    }
    if normal != [] {
      assert Flatten(normal) == normal[0] + Flatten(normal[1..]);
    }
  }

  // writeMultiFramed's pieces and frames.

  /** str_split of PHP 8.0 and 8.1: consecutive pieces of `size` bytes, the
      last one possibly shorter; the empty string gives one empty piece
      (from PHP 8.2 it gives none). */
  function StrSplit(data: Bytes, size: nat): (pieces: seq<Bytes>)
    requires size >= 1
    ensures |pieces| >= 1 && Flatten(pieces) == data
    ensures forall i :: 0 <= i < |pieces| ==> |pieces[i]| <= size && |pieces[i]| <= |data|
    ensures forall i :: 0 <= i < |pieces| - 1 ==> |pieces[i]| == size
    ensures data != [] ==> forall i :: 0 <= i < |pieces| ==> pieces[i] != []
    ensures |pieces| >= 2 <==> |data| > size
    decreases |data|
  {
    if |data| <= size then
      assert Flatten([data]) == data + Flatten([]);
      [data]
    else
      var rest := StrSplit(data[size..], size);
      assert Flatten([data[..size]] + rest) == data[..size] + Flatten(rest) by {
        assert ([data[..size]] + rest)[1..] == rest;
      }
      [data[..size]] + rest
  }

  /** The opcode of piece `i` as writeMultiFramed writes it: the message's
      own opcode on every piece. */
  function FragmentOpcodeAsWritten(op: int, i: nat): int
  {
    op
  }

  /** The opcode of piece `i` of a fragmented message (section 5.4 of RFC
      6455): the message's opcode on the first piece, continuation after. */
  function FragmentOpcode(op: int, i: nat): int
  {
    if i == 0 then op else OPCODE_CONTINUE
  }

  /** Piece `i`'s opcode, as written or corrected. */
  function PieceOpcode(op: int, i: nat, corrected: bool): int
  {
    if corrected then FragmentOpcode(op, i) else FragmentOpcodeAsWritten(op, i)
  }

  /** The frames writeMultiFramed queues for the pieces: final only on the
      last piece. */
  function MultiFramesWith(pieces: seq<Bytes>, op: int, mask: bool, key: MaskKey, corrected: bool): (r: seq<Bytes>)
    requires op in {OPCODE_FRAME_TEXT, OPCODE_FRAME_BINARY}
    requires forall i :: 0 <= i < |pieces| ==> |pieces[i]| <= MAX_PHP_INT
    ensures |r| == |pieces|
  {
    seq(|pieces|, i requires 0 <= i < |pieces| =>
      Frame(pieces[i], mask, key, PieceOpcode(op, i, corrected), i == |pieces| - 1, false, false, false).value)
  }

  /** The headers of those frames, as GetFrameHeaders reads them back. */
  function MultiHeadersWith(pieces: seq<Bytes>, op: int, mask: bool, key: MaskKey, corrected: bool): (r: seq<Header>)
    ensures |r| == |pieces|
  {
    seq(|pieces|, i requires 0 <= i < |pieces| =>
      Header(i == |pieces| - 1, false, false, false, PieceOpcode(op, i, corrected), mask, |pieces[i]|,
             if mask then Some(key) else None, 2 + ExtendedLengthSize(|pieces[i]|) + (if mask then 4 else 0)))
  }

  // What a read of zero bytes reports.

  /** The event of a read that found the stream at its end: a server-side
      connection without a handshake lost its peer during the handshake; a
      connection whose close handshake went both ways ended normally;
      anything else ended unexpectedly. */
  function EndOfStreamEvent(role: Role, hasHandshake: bool, remoteSent: bool, weSent: bool, id: nat): (u: Update)
    ensures u.Read? <==> (role == ClientSide || hasHandshake) && remoteSent && weSent
    ensures u.Read? ==> u == ReadEvent(R.C_SOCK_DISCONNECT, id)
    ensures u.Error? ==> u.source == Some(id)
    ensures u.Error? ==> (u.code == E.C_READ_DISCONNECT_DURING_HANDSHAKE <==> !(role == ClientSide || hasHandshake))
    ensures u.Error? ==> (u.code == E.C_READ_UNEXPECTED_DISCONNECT <==> role == ClientSide || hasHandshake)
  {
    if role == ClientSide || hasHandshake then
      if remoteSent && weSent then ReadEvent(R.C_SOCK_DISCONNECT, id)
      else Error(E.C_READ_UNEXPECTED_DISCONNECT, Some(id))
    else Error(E.C_READ_DISCONNECT_DURING_HANDSHAKE, Some(id))
  }

  /** The raw accept token of a request: sha1() of the key and the GUID, as
      hexadecimal digits read back two at a time into the 20 digest bytes. */
  method AcceptToken(h: Headers, sha1: Bytes -> Digest) returns (token: Bytes)
    ensures token == sha1(RequestKey(h) + Str(WEBSOCKET_GUID))
  {
    var digest := sha1(RequestKey(h) + Str(WEBSOCKET_GUID));
    token := RawToken(HexEncode(digest));
    UnhexHexEncode(digest);
  }

  /** The checks of _doHandshake on a request head: the parse of its
      headers, which throws when a line of the head does; for a parsed head,
      its response code and, for a valid request, its accept token. After a
      throw the code keeps the 0 the caller set. */
  method CheckRequest(raw: Bytes, sha1: Bytes -> Digest) returns (parsed: Result<Headers>, code: int, token: Option<Bytes>)
    ensures parsed == ParseAll(Explode(raw, LF))
    ensures parsed.Ok? ==> code == ResponseCode(parsed.value)
    ensures parsed.Fail? ==> code == 0
    ensures token.Some? <==> parsed.Ok? && code < 300
    ensures token.Some? ==> token.value == sha1(RequestKey(parsed.value) + Str(WEBSOCKET_GUID))
  {
    parsed := ParseHTTPHeaders(raw);
    code, token := 0, None;
    if parsed.Ok? {
      code := ResponseCode(parsed.value);
      if code < 300 {
        var t := AcceptToken(parsed.value, sha1);
        token := Some(t);
      }
    }
  }

  /** time(): the clock (in milliseconds) truncated to the whole second. */
  function WholeSeconds(now: int): (t: int)
    ensures t <= now < t + 1000 && t % 1000 == 0
  {
    now / 1000 * 1000
  }

  /** The client's test of a handshake response: `status-code` is the
      integer 101. */
  predicate Switched(h: Headers)
  {
    Str("status-code") in h && h[Str("status-code")] == Number(101)
  }

  class Connection {
    /** Which of the two concrete connection classes this is. */
    const role: Role
    /** The object's identity, used as the source of the events it emits. */
    const id: nat
    /** The server-side connection's index in its server's table. */
    const index: nat

    // The abstract connection's state.
    var readBuffer: Bytes
    var currentFrameRemainingBytes: Option<int>
    var cleanDisconnectTimeout: Option<int>
    var weInitiateDisconnect: bool
    var remoteSentDisconnect: bool
    var weSentDisconnect: bool
    var message: PartialMessage
    var priorityFramesBuffer: seq<Bytes>
    var framesBuffer: seq<Bytes>
    var writeBuffer: Option<Bytes>
    var shouldReportClose: bool
    var closeAfterWrite: bool
    var openedTimestamp: Option<int>
    var hasHandshake: bool
    var isClosed: bool
    /** Whether the stream is an open resource. */
    var hasStream: bool
    /** The parsed handshake head (the request on the server side, the
        response on the client side). */
    var headers: Option<Headers>

    // The server-side connection's state.
    /** The server the connection belongs to (a client has none). */
    const server: Server?
    var accepted: bool
    var rawToken: Option<Bytes>

    // The client's state.
    var handshakeAccepted: bool
    var shouldMask: bool
    var address: Option<Bytes>
    var path: Option<Bytes>
    /** The library version the default user agent names. */
    const version: Bytes

    // Settings the source changes only through setters, fixed here at
    // construction.
    const maxHandshakeLength: int
    const writeRate: int
    const readRate: int
    /** The server-side connection's accept deadline, in milliseconds. */
    const acceptTimeout: int
    const newMessageCallback: Option<Header -> bool>
    const userAgent: Option<Bytes>

    /** The invariant every method keeps. */
    predicate Valid()
      reads this
    {
      (shouldReportClose ==> isClosed)
      && (shouldReportClose ==> role == ClientSide || accepted)
      && (weInitiateDisconnect ==> weSentDisconnect)
      && (role == ClientSide ==> server == null && !accepted)
      && (role == ServerSide ==> server != null)
    }

    /** A server-side connection, as the server creates it for an accepted
        socket at time `now`. */
    constructor Accepted(server: Server, index: nat, id: nat, now: int, settings: Settings)
      ensures Valid() && this.server == server && this.index == index && this.id == id
      ensures role == ServerSide && IsOpen() && !hasHandshake && !accepted
      ensures framesBuffer == [] && priorityFramesBuffer == [] && writeBuffer.None?
      ensures openedTimestamp == Some(now)
    {
      role := ServerSide;
      this.id := id;
      this.index := index;
      this.server := server;
      version := [];
      maxHandshakeLength := settings.maxHandshakeLength;
      writeRate := settings.writeRate;
      readRate := settings.readRate;
      acceptTimeout := settings.acceptTimeout;
      newMessageCallback := settings.newMessageCallback;
      userAgent := settings.userAgent;
      readBuffer := [];
      currentFrameRemainingBytes := None;
      cleanDisconnectTimeout := None;
      weInitiateDisconnect := false;
      remoteSentDisconnect := false;
      weSentDisconnect := false;
      message := NoMessage;
      priorityFramesBuffer := [];
      framesBuffer := [];
      writeBuffer := None;
      shouldReportClose := false;
      closeAfterWrite := false;
      openedTimestamp := Some(now);
      hasHandshake := false;
      isClosed := false;
      hasStream := true;
      headers := None;
      accepted := false;
      rawToken := None;
      handshakeAccepted := false;
      shouldMask := false;
      address := None;
      path := None;
    }

    /** A client, not yet connected. */
    constructor Client(id: nat, version: Bytes, settings: Settings)
      ensures Valid() && this.id == id && this.version == version
      ensures role == ClientSide && !IsOpen() && shouldMask
      ensures framesBuffer == [] && priorityFramesBuffer == [] && writeBuffer.None?
    {
      role := ClientSide;
      this.id := id;
      index := 0;
      server := null;
      this.version := version;
      maxHandshakeLength := settings.maxHandshakeLength;
      writeRate := settings.writeRate;
      readRate := settings.readRate;
      acceptTimeout := settings.acceptTimeout;
      newMessageCallback := settings.newMessageCallback;
      userAgent := settings.userAgent;
      readBuffer := [];
      currentFrameRemainingBytes := None;
      cleanDisconnectTimeout := None;
      weInitiateDisconnect := false;
      remoteSentDisconnect := false;
      weSentDisconnect := false;
      message := NoMessage;
      priorityFramesBuffer := [];
      framesBuffer := [];
      writeBuffer := None;
      shouldReportClose := false;
      closeAfterWrite := false;
      openedTimestamp := None;
      hasHandshake := false;
      isClosed := false;
      hasStream := false;
      headers := None;
      accepted := false;
      rawToken := None;
      handshakeAccepted := false;
      shouldMask := true;
      address := None;
      path := None;
    }

    // Groups of fields a method leaves alone, each compared as one value.

    /** The receiving side, apart from the message being assembled. */
    function InputFields(): (Bytes, Option<int>, bool, bool, Option<Headers>, Option<Bytes>)
      reads this
    {
      (readBuffer, currentFrameRemainingBytes, hasHandshake, handshakeAccepted, headers, rawToken)
    }

    twostate predicate SameInput()
      reads this
    {
      InputFields() == old(InputFields())
    }

    twostate predicate SameReading()
      reads this
    {
      SameInput() && message == old(message)
    }

    /** Open or closed, reported or not, accepted or not. */
    function StatusFields(): (bool, bool, bool, Option<int>, Server?, bool)
      reads this
    {
      (isClosed, hasStream, shouldReportClose, openedTimestamp, server, accepted)
    }

    twostate predicate SameStatus()
      reads this
    {
      StatusFields() == old(StatusFields())
    }

    /** The closing handshake's flags. */
    function CloseFlags(): (bool, Option<int>, bool, bool, bool)
      reads this
    {
      (closeAfterWrite, cleanDisconnectTimeout, weInitiateDisconnect, weSentDisconnect, remoteSentDisconnect)
    }

    twostate predicate SameCloseFlags()
      reads this
    {
      CloseFlags() == old(CloseFlags())
    }

    twostate predicate SameLifecycle()
      reads this
    {
      SameStatus() && SameCloseFlags()
    }

    function ConfigFields(): (bool, Option<Bytes>, Option<Bytes>)
      reads this
    {
      (shouldMask, address, path)
    }

    twostate predicate SameConfig()
      reads this
    {
      ConfigFields() == old(ConfigFields())
    }

    function Queues(): (seq<Bytes>, seq<Bytes>, Option<Bytes>)
      reads this
    {
      (priorityFramesBuffer, framesBuffer, writeBuffer)
    }

    twostate predicate SameQueues()
      reads this
    {
      Queues() == old(Queues())
    }

    twostate predicate SameWriting()
      reads this
    {
      SameConfig() && SameQueues()
    }

    /** What _handlePacket did with `data` appended to the read buffer
        `before`: the buffer is cut into handled frames at `cuts` and the
        rest stays buffered; each event names this connection; the pongs
        for the pings reported are queued unless the connection is now
        disconnecting. */
    twostate predicate Handled(before: Bytes, data: Bytes, updates: seq<Update>, cuts: seq<nat>, key: MaskKey)
      reads this
    {
      && Segmented(before + data, cuts)
      && readBuffer == (before + data)[cuts[|cuts| - 1]..]
      && Reported(updates, id)
      && priorityFramesBuffer == old(priorityFramesBuffer)
        + (if IsDisconnecting() then [] else PongFrames(PingPayloads(updates), ShouldMask(), key))
      && writeBuffer == old(writeBuffer)
      && (old(IsDisconnecting()) ==> IsDisconnecting())
    }

    /** What the receive loop leaves alone: the outbound queues, masking
        and the handshake's outcome; and once disconnecting, it stays so. */
    twostate predicate KeptByReceive()
      reads this
    {
      && priorityFramesBuffer == old(priorityFramesBuffer) && writeBuffer == old(writeBuffer)
      && ShouldMask() == old(ShouldMask())
      && (old(IsDisconnecting()) ==> IsDisconnecting())
      && SameHandshake()
    }

    /** The opening handshake's outcome. */
    twostate predicate SameHandshake()
      reads this
    {
      && hasHandshake == old(hasHandshake) && handshakeAccepted == old(handshakeAccepted)
      && headers == old(headers) && rawToken == old(rawToken) && accepted == old(accepted)
    }

    /** What sendDisconnect did: the close frame is queued last on the normal
        queue and this side has sent close; unless the peer closed first,
        this side now initiates the close, with a deadline `timeout` after
        `now`. */
    twostate predicate SentClose(code: int, reason: Bytes, timeout: int, now: int, key: MaskKey)
      reads this
    {
      && weSentDisconnect
      && (!old(remoteSentDisconnect) ==> weInitiateDisconnect && cleanDisconnectTimeout == Some(now + timeout))
      && (old(remoteSentDisconnect) ==> weInitiateDisconnect == old(weInitiateDisconnect)
                                        && cleanDisconnectTimeout == old(cleanDisconnectTimeout))
      && framesBuffer == old(framesBuffer) + [CloseFrame(code, reason, ShouldMask(), key)]
      && priorityFramesBuffer == old(priorityFramesBuffer) && writeBuffer == old(writeBuffer)
    }

    /** isOpen: not closed and the stream still a resource. */
    predicate IsOpen()
      reads this
    {
      !isClosed && hasStream
    }

    /** _shouldMask: a server never masks (section 5.1 of RFC 6455); a client
        masks unless told otherwise. */
    predicate ShouldMask()
      reads this
    {
      role == ClientSide && shouldMask
    }

    /** setMasksPayload. */
    method SetMasksPayload(mask: bool)
      modifies this
      ensures role == ClientSide ==> ShouldMask() == mask
      ensures role == ServerSide ==> !ShouldMask()
      ensures shouldMask == mask && Valid() == old(Valid())
      ensures SameReading() && SameLifecycle() && SameQueues()
      ensures address == old(address) && path == old(path)
    {
      shouldMask := mask;
    }

    /** isDisconnecting: a close was sent or received. */
    predicate IsDisconnecting()
      reads this
    {
      weSentDisconnect || remoteSentDisconnect
    }

    /** isWriteBufferEmpty (corrected, see WriteBufferEmptyAsWritten): when
        it holds nothing is left to send, and the test as written holds too. */
    predicate IsWriteBufferEmpty()
      reads this
      ensures IsWriteBufferEmpty() ==> Pending() == []
      ensures IsWriteBufferEmpty() ==> WriteBufferEmptyAsWritten(priorityFramesBuffer, framesBuffer, writeBuffer)
    {
      WriteBufferEmpty(priorityFramesBuffer, framesBuffer, writeBuffer)
    }

    /** The bytes still to be sent, in sending order. */
    function Pending(): Bytes
      reads this
    {
      SendOrder(writeBuffer, priorityFramesBuffer, framesBuffer)
    }

    /** writeRaw: append the bytes to exactly one queue. */
    method WriteRaw(data: Bytes, priority: bool)
      modifies this
      ensures priority ==> priorityFramesBuffer == old(priorityFramesBuffer) + [data] && framesBuffer == old(framesBuffer)
      ensures !priority ==> framesBuffer == old(framesBuffer) + [data] && priorityFramesBuffer == old(priorityFramesBuffer)
      ensures writeBuffer == old(writeBuffer)
      ensures SameReading() && SameLifecycle() && SameConfig()
    {
      if priority {
        priorityFramesBuffer := priorityFramesBuffer + [data];
      } else {
        framesBuffer := framesBuffer + [data];
      }
    }

    /** write: frame the data and queue it; ping and pong frames go to the
        priority queue, everything else (data and close) to the normal queue
        behind what is already there. Frame's exceptions propagate with
        nothing queued. */
    method Write(data: Bytes, opcode: int, isFinal: bool, key: MaskKey) returns (thrown: Option<Exception>)
      requires |data| <= MAX_PHP_INT
      modifies this
      ensures var f := Frame(data, ShouldMask(), key, opcode, isFinal, false, false, false);
        && (f.Fail? ==> thrown == Some(f.error) && priorityFramesBuffer == old(priorityFramesBuffer) && framesBuffer == old(framesBuffer))
        && (f.Ok? ==> thrown.None?)
        && (f.Ok? && IsPriorityOpcode(opcode) ==> priorityFramesBuffer == old(priorityFramesBuffer) + [f.value] && framesBuffer == old(framesBuffer))
        && (f.Ok? && !IsPriorityOpcode(opcode) ==> framesBuffer == old(framesBuffer) + [f.value] && priorityFramesBuffer == old(priorityFramesBuffer))
      ensures writeBuffer == old(writeBuffer)
      ensures SameReading() && SameLifecycle() && SameConfig()
    {
      var f := Frame(data, ShouldMask(), key, opcode, isFinal, false, false, false);
      match f
      case Fail(e) =>
        thrown := Some(e);
      case Ok(bytes) =>
        WriteRaw(bytes, IsPriorityOpcode(opcode));
        thrown := None;
    }

    /** sendDisconnect: queue a close frame on the normal queue; if the peer
        has not closed first, this side initiates the close and starts the
        deadline for the peer's answer. */
    method SendDisconnect(code: int, reason: Bytes, timeout: int, now: int, key: MaskKey)
      requires |reason| <= MAX_PHP_INT - 2
      modifies this
      ensures SentClose(code, reason, timeout, now, key)
      ensures SameReading() && SameStatus() && SameConfig()
      ensures closeAfterWrite == old(closeAfterWrite) && remoteSentDisconnect == old(remoteSentDisconnect)
    {
      if !remoteSentDisconnect {
        weInitiateDisconnect := true;
        cleanDisconnectTimeout := Some(now + timeout);
      }
      weSentDisconnect := true;
      var payload := ClosePayload(code, reason);
      var _ := Write(payload, OPCODE_CLOSE_CONNECTION, true, key);
    }

    /** The frame handleWrite works on next: the one in flight, else the
        head of the priority queue, else the head of the normal queue. */
    function NextWrite(): Option<Bytes>
      reads this
    {
      if writeBuffer.Some? then writeBuffer
      else if priorityFramesBuffer != [] then Some(priorityFramesBuffer[0])
      else if framesBuffer != [] then Some(framesBuffer[0])
      else None
    }

    /** The effect of close() on the lifecycle: closed, the stream released,
        the close to be reported if this call closed it (never for a
        server-side connection that was not accepted), and a server-side
        connection that will not report is dropped from its server's table
        at once. */
    twostate predicate Closed()
      reads this, server
    {
      && isClosed && !hasStream
      && shouldReportClose == ((old(shouldReportClose) || !old(isClosed)) && (role == ClientSide || accepted))
      && accepted == old(accepted)
      && (server != null && !shouldReportClose ==> server.connections == old(server.connections) - {index})
      && (server != null && shouldReportClose ==> server.connections == old(server.connections))
      && (server != null ==> server.SameSetup())
    }

    /** close (the abstract connection's, extended on the server side). */
    method Close()
      requires Valid()
      requires server != null ==> server.Valid()
      modifies this, server
      ensures Valid() && Closed()
      ensures server != null ==> server.Valid()
      ensures SameReading() && SameWriting() && SameCloseFlags()
      ensures openedTimestamp == old(openedTimestamp)
    {
      if !isClosed {
        shouldReportClose := true;
      }
      isClosed := true;
      hasStream := false;
      if role == ServerSide {
        if shouldReportClose && !accepted {
          shouldReportClose := false;
        }
        if server != null && !shouldReportClose {
          server.Unlist(this);
        }
      }
    }

    /** The first half of handleWrite: with nothing in flight, the head of
        the priority queue, else of the normal queue, is moved into flight. */
    method ShiftNext()
      modifies this
      ensures writeBuffer == old(NextWrite()) && Pending() == old(Pending())
      ensures old(writeBuffer).Some? ==> priorityFramesBuffer == old(priorityFramesBuffer) && framesBuffer == old(framesBuffer)
      ensures (old(writeBuffer).None? && old(priorityFramesBuffer) != []) ==>
        priorityFramesBuffer == old(priorityFramesBuffer)[1..] && framesBuffer == old(framesBuffer)
      ensures (old(writeBuffer).None? && old(priorityFramesBuffer) == []) ==>
        priorityFramesBuffer == [] && framesBuffer == (if old(framesBuffer) == [] then [] else old(framesBuffer)[1..])
      ensures SameReading() && SameLifecycle() && SameConfig()
    {
      if writeBuffer.Some? {
      } else if priorityFramesBuffer != [] {
        TakeHead(priorityFramesBuffer, framesBuffer, true);
        writeBuffer := Some(priorityFramesBuffer[0]);
        priorityFramesBuffer := priorityFramesBuffer[1..];
      } else if framesBuffer != [] {
        TakeHead(priorityFramesBuffer, framesBuffer, false);
        writeBuffer := Some(framesBuffer[0]);
        framesBuffer := framesBuffer[1..];
      }
    }

    /** The second half of handleWrite: the bytes written leave the frame
        in flight, which is dropped once it is fully written. */
    method WriteInFlight(written: Option<nat>) returns (updates: seq<Update>)
      requires written.Some? && writeBuffer.Some? ==> written.value <= |writeBuffer.value|
      modifies this
      ensures var sent := if written.Some? && old(writeBuffer).Some? then written.value else 0;
        Pending() == old(Pending())[sent..]
      ensures old(writeBuffer).None? ==> updates == [] && writeBuffer.None?
      ensures old(writeBuffer).Some? ==>
        var frame := old(writeBuffer).value;
        && updates == (if written.None? then [Error(E.C_WRITE, Some(id))] else [])
        && writeBuffer == (if written == Some(|frame|) then None else Some(frame[if written.Some? then written.value else 0..]))
      ensures priorityFramesBuffer == old(priorityFramesBuffer) && framesBuffer == old(framesBuffer)
      ensures SameReading() && SameLifecycle() && SameConfig()
    {
      updates := [];
      if writeBuffer.Some? {
        var frame := writeBuffer.value;
        match written
        case None =>
          updates := [Error(E.C_WRITE, Some(id))];
        case Some(n) =>
          WrittenPrefix(frame, n, priorityFramesBuffer, framesBuffer);
          if n == |frame| {
            writeBuffer := None;
          } else {
            writeBuffer := Some(frame[n..]);
          }
      }
    }

    /** The end of handleWrite: with closeAfterWrite set and nothing left to
        send, close. */
    method CloseIfDrained()
      requires Valid()
      requires server != null ==> server.Valid()
      modifies this, server
      ensures Valid()
      ensures server != null ==> server.Valid()
      ensures closeAfterWrite && IsWriteBufferEmpty() ==> Closed()
      ensures !(closeAfterWrite && IsWriteBufferEmpty()) ==> SameLifecycle()
      ensures !(closeAfterWrite && IsWriteBufferEmpty()) && server != null ==> server.connections == old(server.connections)
      ensures SameReading() && SameWriting() && closeAfterWrite == old(closeAfterWrite)
    {
      if closeAfterWrite && IsWriteBufferEmpty() {
        Close();
      }
    }

    /** handleWrite. `written` is what the stream write returned: the number
        of bytes taken, at most the write rate and the frame's length, or
        None when it failed. The frame in flight is resumed first, else the
        head of the priority queue is taken, else the head of the normal
        queue; what was not written stays in flight; a failed write is
        reported; with closeAfterWrite set the connection is closed once
        nothing is left. */
    method HandleWrite(written: Option<nat>) returns (updates: seq<Update>)
      requires Valid()
      requires server != null ==> server.Valid()
      requires written.Some? && NextWrite().Some? ==> written.value <= writeRate && written.value <= |NextWrite().value|
      modifies this, server
      ensures Valid()
      ensures server != null ==> server.Valid()
      ensures var sent := if written.Some? && old(NextWrite()).Some? then written.value else 0;
        Pending() == old(Pending())[sent..]
      ensures old(NextWrite()).None? ==> updates == [] && writeBuffer.None?
      ensures old(NextWrite()).Some? ==>
        var frame := old(NextWrite()).value;
        && updates == (if written.None? then [Error(E.C_WRITE, Some(id))] else [])
        && writeBuffer == (if written == Some(|frame|) then None else Some(frame[if written.Some? then written.value else 0..]))
      ensures old(writeBuffer).Some? ==> priorityFramesBuffer == old(priorityFramesBuffer) && framesBuffer == old(framesBuffer)
      ensures (old(writeBuffer).None? && old(priorityFramesBuffer) != []) ==>
        priorityFramesBuffer == old(priorityFramesBuffer)[1..] && framesBuffer == old(framesBuffer)
      ensures (old(writeBuffer).None? && old(priorityFramesBuffer) == [] && old(framesBuffer) != []) ==>
        priorityFramesBuffer == [] && framesBuffer == old(framesBuffer)[1..]
      ensures closeAfterWrite && IsWriteBufferEmpty() ==> Closed()
      ensures !(closeAfterWrite && IsWriteBufferEmpty()) ==> SameLifecycle()
      ensures !(closeAfterWrite && IsWriteBufferEmpty()) && server != null ==> server.connections == old(server.connections)
      ensures SameReading() && SameConfig() && closeAfterWrite == old(closeAfterWrite)
    {
      ShiftNext();
      updates := WriteInFlight(written);
      CloseIfDrained();
    }


    /** _resetFrameData: no message in progress, the validator back at
        ACCEPT. */
    method ResetFrameData()
      modifies this
      ensures message == NoMessage && Consistent(message)
      ensures old(Valid()) ==> Valid()
      ensures SameInput() && SameLifecycle() && SameWriting()
    {
      message := NoMessage;
    }

    /** What _getStreamForNewMessage answers for a new message: buffer it
        in memory when no callback is set, else what the callback says. */
    predicate Accepts(h: Header)
      reads this
    {
      newMessageCallback.None? || newMessageCallback.value(h)
    }

    /** Carry out what the receive loop decided for a data frame. */
    method ApplyDataOutcome(r: DataOutcome, now: int, key: MaskKey) returns (updates: seq<Update>, stop: bool)
      requires Valid()
      requires r.Refused? ==> |r.reason| <= 125
      requires r.Pending? ==> Consistent(r.next)
      modifies this
      ensures Valid()
      ensures stop == (r.Refused? || r.Dropped?)
      ensures r.Refused? ==> updates == [Error(r.error, Some(id))] && message == old(message) && closeAfterWrite
                             && SentClose(r.code, r.reason, DISCONNECT_TIMEOUT, now, key)
      ensures r.Dropped? ==> updates == [] && message == NoMessage
      ensures r.Pending? ==> updates == [] && message == r.next
      ensures r.Delivered? ==> updates == [Read(R.C_READ, Some(id), r.opcode, Some(r.message), None)] && message == NoMessage
      ensures !r.Refused? ==> SameCloseFlags() && SameQueues()
      ensures SameInput() && SameStatus() && SameConfig() && remoteSentDisconnect == old(remoteSentDisconnect)
    {
      updates, stop := [], false;
      match r
      case Refused(code, reason, error, left) =>
        SendDisconnect(code, reason, DISCONNECT_TIMEOUT, now, key);
        closeAfterWrite := true;
        updates, stop := [Error(error, Some(id))], true;
      case Dropped =>
        ResetFrameData();
        stop := true;
      case Pending(next) =>
        message := next;
      case Delivered(opcode, body) =>
        ResetFrameData();
        updates := [Read(R.C_READ, Some(id), opcode, Some(body), None)];
    }

    /** The continuation, text and binary branch of the receive loop, as the
        rule DataFrame decides it: a refusal queues its close, sets
        closeAfterWrite, emits its error and ends the pass; a frame after the
        peer's close resets the message and ends the pass; a final frame
        hands the whole message over after the message state is reset. */
    method HandleDataFrame(h: Header, payload: Bytes, now: int, key: MaskKey) returns (updates: seq<Update>, stop: bool, ghost closes: seq<CloseEcho>)
      requires Valid()
      requires h.opcode in {OPCODE_CONTINUE, OPCODE_FRAME_TEXT, OPCODE_FRAME_BINARY}
      modifies this
      ensures Valid()
      ensures |closes| <= 1 && AllSendable(closes)
      ensures stop ==> IsDisconnecting()
      ensures var r := DataFrame(old(message), h, payload, old(remoteSentDisconnect), old(Accepts(h)));
        && stop == (r.Refused? || r.Dropped?)
        && closes == (if r.Refused? then [CloseEcho(r.code, r.reason)] else [])
        && (r.Refused? ==> updates == [Error(r.error, Some(id))] && message == old(message) && closeAfterWrite
                           && SentClose(r.code, r.reason, DISCONNECT_TIMEOUT, now, key)
                           && Sendable(CloseEcho(r.code, r.reason)))
        && (r.Dropped? ==> updates == [] && message == NoMessage && remoteSentDisconnect)
        && (r.Pending? ==> updates == [] && message == r.next)
        && (r.Delivered? ==> updates == [Read(R.C_READ, Some(id), r.opcode, Some(r.message), None)] && message == NoMessage)
        && (!r.Refused? ==> SameCloseFlags() && SameQueues())
      ensures Reported(updates, id)
      ensures SameInput() && SameStatus() && SameConfig() && remoteSentDisconnect == old(remoteSentDisconnect)
    {
      var r := DataFrame(message, h, payload, remoteSentDisconnect, Accepts(h));
      DataFrameConsistent(message, h, payload, remoteSentDisconnect, Accepts(h));
      DeliveredText(message, h, payload, remoteSentDisconnect, Accepts(h));
      RefusalIsSendable(message, h, payload, remoteSentDisconnect, Accepts(h));
      updates, stop := ApplyDataOutcome(r, now, key);
      closes := if r.Refused? then [CloseEcho(r.code, r.reason)] else [];
    }

    /** Answer the peer's close: report it with its payload and queue the
        echo CloseReply computes; the connection closes once that is
        written. The peer's close is already recorded, so this side does not
        become the initiator. */
    method EchoClose(payload: Bytes, now: int, key: MaskKey) returns (updates: seq<Update>)
      requires Valid() && remoteSentDisconnect
      requires |payload| <= 125
      modifies this
      ensures Valid()
      ensures var echo := CloseReply(payload);
        && updates == [Read(R.C_READ_DISCONNECT, Some(id), Some(OPCODE_CLOSE_CONNECTION), Some(payload), None)]
        && framesBuffer == old(framesBuffer) + [CloseFrame(echo.code, echo.reason, ShouldMask(), key)]
        && Sendable(echo)
      ensures closeAfterWrite && weSentDisconnect && remoteSentDisconnect
      ensures weInitiateDisconnect == old(weInitiateDisconnect) && cleanDisconnectTimeout == old(cleanDisconnectTimeout)
      ensures priorityFramesBuffer == old(priorityFramesBuffer) && writeBuffer == old(writeBuffer)
      ensures SameReading() && SameStatus() && SameConfig()
    {
      var echo := CloseReply(payload);
      updates := [Read(R.C_READ_DISCONNECT, Some(id), Some(OPCODE_CLOSE_CONNECTION), Some(payload), None)];
      CloseReplyIsSendable(payload);
      CloseReplyBounded(payload);
      SendDisconnect(echo.code, echo.reason, DISCONNECT_TIMEOUT, now, key);
      closeAfterWrite := true;
    }

    /** The close branch of the receive loop. The peer has now sent close.
        If this side initiated the close, the connection is closed and
        SOCK_DISCONNECT is emitted (close() then sets no report of its own,
        as the connection is already marked closed); otherwise, unless this
        side already sent close, READ_DISCONNECT is emitted with the frame's
        payload and the close is echoed as CloseReply says, and the
        connection closes once that is written. */
    method HandleCloseFrame(payload: Bytes, now: int, key: MaskKey) returns (updates: seq<Update>)
      requires Valid()
      requires server != null ==> server.Valid()
      requires |payload| <= 125
      modifies this, server
      ensures Valid()
      ensures accepted == old(accepted)
      ensures server != null ==> server.Valid()
      ensures remoteSentDisconnect && weSentDisconnect == (old(weSentDisconnect) || !old(weInitiateDisconnect))
      ensures old(weInitiateDisconnect) ==>
        && updates == [ReadEvent(R.C_SOCK_DISCONNECT, id)]
        && isClosed && !hasStream
        && shouldReportClose == (old(shouldReportClose) && (role == ClientSide || accepted))
        && (server != null && !shouldReportClose ==> server.connections == old(server.connections) - {index})
        && (server != null && shouldReportClose ==> server.connections == old(server.connections))
        && SameQueues()
      ensures var echo := CloseReply(payload);
        (!old(weInitiateDisconnect) && !old(weSentDisconnect)) ==>
        && updates == [Read(R.C_READ_DISCONNECT, Some(id), Some(OPCODE_CLOSE_CONNECTION), Some(payload), None)]
        && framesBuffer == old(framesBuffer) + [CloseFrame(echo.code, echo.reason, ShouldMask(), key)]
        && Sendable(echo) && closeAfterWrite
        && priorityFramesBuffer == old(priorityFramesBuffer) && writeBuffer == old(writeBuffer)
      ensures !old(weInitiateDisconnect) && old(weSentDisconnect) ==> updates == [] && SameQueues()
      ensures !old(weInitiateDisconnect) ==> SameStatus() && (server != null ==> server.connections == old(server.connections))
      ensures weInitiateDisconnect == old(weInitiateDisconnect) && cleanDisconnectTimeout == old(cleanDisconnectTimeout)
      ensures old(weInitiateDisconnect) || old(weSentDisconnect) ==> closeAfterWrite == old(closeAfterWrite)
      ensures SameReading() && SameConfig()
    {
      remoteSentDisconnect := true;
      updates := [];
      if weInitiateDisconnect {
        isClosed := true;
        Close();
        updates := [ReadEvent(R.C_SOCK_DISCONNECT, id)];
      } else if !weSentDisconnect {
        updates := EchoClose(payload, now, key);
      }
    }

    /** One complete frame the receive loop accepted, by opcode: data frames
        as HandleDataFrame, close as HandleCloseFrame, a ping is reported
        and its payload kept for the pong, a pong is reported. `stop` says
        the loop returns. At most one close frame is queued, and it is
        sendable; nothing goes to the priority queue here. */
    method HandleFrame(h: Header, payload: Bytes, now: int, key: MaskKey) returns (updates: seq<Update>, stop: bool, ghost closes: seq<CloseEcho>)
      requires Valid()
      requires server != null ==> server.Valid()
      requires KnownOpcode(h.opcode)
      requires IsControlOpcode(h.opcode) ==> |payload| <= 125
      modifies this, server
      ensures Valid()
      ensures server != null ==> server.Valid()
      ensures Reported(updates, id)
      ensures PingPayloads(updates) == (if h.opcode == OPCODE_PING then [payload] else [])
      ensures h.opcode == OPCODE_PING ==> updates == [Read(R.C_PING, Some(id), Some(OPCODE_PING), Some(payload), None)]
      ensures h.opcode == OPCODE_PONG ==> updates == [Read(R.C_PONG, Some(id), Some(OPCODE_PONG), Some(payload), None)]
      ensures IsControlOpcode(h.opcode) ==> !stop
      ensures h.opcode in {OPCODE_PING, OPCODE_PONG} ==> SameReading() && SameLifecycle() && SameWriting()
      ensures |closes| <= 1 && AllSendable(closes)
      ensures framesBuffer == old(framesBuffer) + CloseFrames(closes, ShouldMask(), key)
      ensures priorityFramesBuffer == old(priorityFramesBuffer) && writeBuffer == old(writeBuffer)
      ensures old(IsDisconnecting()) ==> IsDisconnecting()
      ensures stop ==> IsDisconnecting() && PingPayloads(updates) == []
      ensures old(IsOpen()) && !IsOpen() ==> IsDisconnecting()
      ensures SameInput() && SameConfig()
      ensures SameHandshake()
    {
      closes := [];
      stop := false;
      if h.opcode in {OPCODE_CONTINUE, OPCODE_FRAME_TEXT, OPCODE_FRAME_BINARY} {
        updates, stop, closes := HandleDataFrame(h, payload, now, key);
        CloseFramesOfOne(closes, ShouldMask(), key);
      } else if h.opcode == OPCODE_CLOSE_CONNECTION {
        updates := HandleCloseFrame(payload, now, key);
        if !old(weInitiateDisconnect) && !old(weSentDisconnect) {
          closes := [CloseReply(payload)];
        }
      } else if h.opcode == OPCODE_PING {
        updates := [Read(R.C_PING, Some(id), Some(OPCODE_PING), Some(payload), None)];
      } else {
        updates := [Read(R.C_PONG, Some(id), Some(OPCODE_PONG), Some(payload), None)];
      }
      PingPayloadsOfOne(updates);
    }

    /** The receive loop's answer to a frame it cannot take: queue a close
        with `code` and `reason`, close once it is written, report `error`. */
    method RefuseFrame(code: int, reason: Bytes, error: int, now: int, key: MaskKey) returns (updates: seq<Update>)
      requires Valid()
      requires |reason| <= 125
      modifies this
      ensures Valid()
      ensures updates == [Error(error, Some(id))] && PingPayloads(updates) == []
      ensures closeAfterWrite && SentClose(code, reason, DISCONNECT_TIMEOUT, now, key)
      ensures remoteSentDisconnect == old(remoteSentDisconnect)
      ensures SameReading() && SameStatus() && SameConfig()
    {
      SendDisconnect(code, reason, DISCONNECT_TIMEOUT, now, key);
      closeAfterWrite := true;
      updates := [Error(error, Some(id))];
      PingPayloadsOfOne(updates);
    }

    /** The rest of a pass of the receive loop once the header `h` at `pos`
        was parsed, its reserved bits are clear and `org` is at least as
        long as its frame: cut the frame out, take its payload, and hand it
        to the frame handler. */
    method TakeFrame(org: Bytes, pos: nat, h: Header, ghost cuts: seq<nat>, now: int, key: MaskKey) returns (step: LoopStep, updates: seq<Update>)
      requires Valid() && IsOpen()
      requires server != null ==> server.Valid()
      requires pos < |org| && GetFrameHeaders(org[pos..]) == Some(h) && RsvClear(h)
      requires h.length + h.payloadOffset <= |org|
      requires Segmented(org, cuts) && cuts[|cuts| - 1] == pos
      modifies this, server
      ensures Valid()
      ensures server != null ==> server.Valid()
      ensures step.Advance? ==> Segmented(org, cuts + [pos + step.size]) && 0 < step.size <= |org| - pos
      ensures step.Return? ==> IsDisconnecting()
      ensures step.Break? ==> updates == []
      ensures Reported(updates, id)
      ensures PingPayloads(updates) != [] ==> step.Advance?
      ensures ShortPayloads(PingPayloads(updates))
      ensures priorityFramesBuffer == old(priorityFramesBuffer) && writeBuffer == old(writeBuffer)
      ensures old(IsDisconnecting()) ==> IsDisconnecting()
      ensures !IsOpen() ==> IsDisconnecting()
      ensures SameInput() && SameConfig()
      ensures SameHandshake()
    {
      var payload := CutFrame(org, pos, h, cuts);
      step, updates := TakePayload(h, payload, h.length + h.payloadOffset, now, key);
    }

    /** What a pass does with the framer's answer for a frame of `size`
        bytes: wait when it is incomplete, refuse it (close 1002) on a
        protocol error, and otherwise hand the payload to the frame handler,
        going on past the frame unless the handler stops. */
    method TakePayload(h: Header, payload: PayloadResult, size: nat, now: int, key: MaskKey) returns (step: LoopStep, updates: seq<Update>)
      requires Valid() && IsOpen()
      requires server != null ==> server.Valid()
      requires payload.Payload? ==> KnownOpcode(h.opcode) && (IsControlOpcode(h.opcode) ==> |payload.data| <= 125)
      modifies this, server
      ensures Valid()
      ensures server != null ==> server.Valid()
      ensures step.Advance? ==> payload.Payload? && step.size == size
      ensures step.Return? ==> IsDisconnecting()
      ensures step.Break? ==> updates == []
      ensures Reported(updates, id)
      ensures PingPayloads(updates) != [] ==> step.Advance?
      ensures ShortPayloads(PingPayloads(updates))
      ensures priorityFramesBuffer == old(priorityFramesBuffer) && writeBuffer == old(writeBuffer)
      ensures old(IsDisconnecting()) ==> IsDisconnecting()
      ensures !IsOpen() ==> IsDisconnecting()
      ensures SameInput() && SameConfig()
      ensures SameHandshake()
    {
      if payload.Incomplete? {
        step, updates := Break, [];
      } else if payload.ProtocolError? {
        AsciiIsUtf8([]);
        updates := RefuseFrame(CLOSECODE_PROTOCOL_ERROR, [], E.C_READ_PROTOCOL_ERROR, now, key);
        step := Return;
      } else {
        var stop;
        ghost var closes;
        updates, stop, closes := HandleFrame(h, payload.data, now, key);
        step := if stop then Return else Advance(size);
      }
    }

    /** A pass of the receive loop after the header `h` at `pos` was parsed
        on an open connection: refuse it when a reserved bit is set, wait
        for more bytes (keeping how many are missing) when `org` is shorter
        than its frame, and take the frame otherwise. */
    method TakeHeader(org: Bytes, pos: nat, h: Header, ghost cuts: seq<nat>, now: int, key: MaskKey) returns (step: LoopStep, updates: seq<Update>)
      requires Valid() && IsOpen()
      requires server != null ==> server.Valid()
      requires pos < |org| && GetFrameHeaders(org[pos..]) == Some(h)
      requires Segmented(org, cuts) && cuts[|cuts| - 1] == pos
      modifies this, server
      ensures Valid()
      ensures server != null ==> server.Valid()
      ensures step.Advance? ==> Segmented(org, cuts + [pos + step.size]) && 0 < step.size <= |org| - pos
      ensures step.Return? ==> IsDisconnecting()
      ensures Reported(updates, id) && ShortPayloads(PingPayloads(updates))
      ensures PingPayloads(updates) != [] ==> step.Advance?
      ensures priorityFramesBuffer == old(priorityFramesBuffer) && writeBuffer == old(writeBuffer)
      ensures old(IsDisconnecting()) ==> IsDisconnecting()
      ensures !IsOpen() ==> IsDisconnecting()
      ensures !RsvClear(h) ==> updates == [Error(E.C_READ_RSV_BIT_SET, Some(id))] && closeAfterWrite
                               && SentClose(CLOSECODE_PROTOCOL_ERROR, RSV_REASON, DISCONNECT_TIMEOUT, now, key)
      ensures (RsvClear(h) && |org| < h.length + h.payloadOffset) ==>
        && step == Break && updates == []
        && currentFrameRemainingBytes == Some(h.length + h.payloadOffset - |org|)
        && SameLifecycle() && message == old(message)
      ensures readBuffer == old(readBuffer) && SameConfig()
      ensures SameHandshake()
    {
      updates := [];
      if !RsvClear(h) {
        RsvReasonIsUtf8();
        updates := RefuseFrame(CLOSECODE_PROTOCOL_ERROR, RSV_REASON, E.C_READ_RSV_BIT_SET, now, key);
        step := Return;
      } else if |org| < h.length + h.payloadOffset {
        currentFrameRemainingBytes := Some(h.length + h.payloadOffset - |org|);
        step := Break;
      } else {
        currentFrameRemainingBytes := None;
        step, updates := TakeFrame(org, pos, h, cuts, now, key);
      }
    }

    /** One pass of the receive loop at `pos` of the buffer `org`: stop when
        the header is incomplete, return when the connection is no longer
        open, and go on as TakeHeader says otherwise. */
    method ReceiveStep(org: Bytes, pos: nat, ghost cuts: seq<nat>, now: int, key: MaskKey) returns (step: LoopStep, updates: seq<Update>)
      requires Valid()
      requires server != null ==> server.Valid()
      requires pos < |org| && readBuffer == org[pos..]
      requires Segmented(org, cuts) && cuts[|cuts| - 1] == pos
      modifies this, server
      ensures Valid()
      ensures server != null ==> server.Valid()
      ensures step.Advance? ==> Segmented(org, cuts + [pos + step.size]) && 0 < step.size <= |org| - pos && old(IsOpen())
      ensures step.Return? ==> !old(IsOpen()) || IsDisconnecting()
      ensures GetFrameHeaders(readBuffer).None? ==> step == Break && updates == [] && SameLifecycle()
      ensures Reported(updates, id) && ShortPayloads(PingPayloads(updates))
      ensures PingPayloads(updates) != [] ==> step.Advance?
      ensures priorityFramesBuffer == old(priorityFramesBuffer) && writeBuffer == old(writeBuffer)
      ensures old(IsDisconnecting()) ==> IsDisconnecting()
      ensures old(IsOpen()) && !IsOpen() ==> IsDisconnecting()
      ensures var hs := GetFrameHeaders(readBuffer);
        (old(IsOpen()) && hs.Some? && RsvClear(hs.value) && |org| < hs.value.length + hs.value.payloadOffset) ==>
        && step == Break && updates == []
        && currentFrameRemainingBytes == Some(hs.value.length + hs.value.payloadOffset - |org|)
        && SameLifecycle() && message == old(message)
      ensures readBuffer == old(readBuffer) && SameConfig()
      ensures SameHandshake()
    {
      var headers := GetFrameHeaders(readBuffer);
      if headers.None? {
        step, updates := Break, [];
      } else if !IsOpen() {
        step, updates := Return, [];
      } else {
        step, updates := TakeHeader(org, pos, headers.value, cuts, now, key);
      }
    }

    /** One pass of the receive loop, with the events of the passes before
        it, `acc`, in front of its own; a frame taken leaves the read buffer
        as the rest of `org` after it. */
    method Pass(org: Bytes, pos: nat, ghost cuts: seq<nat>, acc: seq<Update>, now: int, key: MaskKey) returns (step: LoopStep, updates: seq<Update>)
      requires Valid()
      requires server != null ==> server.Valid()
      requires pos < |org| && readBuffer == org[pos..]
      requires Segmented(org, cuts) && cuts[|cuts| - 1] == pos
      requires Reported(acc, id) && ShortPayloads(PingPayloads(acc))
      requires PingPayloads(acc) != [] ==> IsOpen() || IsDisconnecting()
      modifies this, server
      ensures Valid()
      ensures server != null ==> server.Valid()
      ensures step.Advance? ==> Segmented(org, cuts + [pos + step.size]) && 0 < step.size <= |org| - pos
      ensures Reported(updates, id) && ShortPayloads(PingPayloads(updates))
      ensures PingPayloads(updates) != [] ==> IsOpen() || IsDisconnecting()
      ensures PingPayloads(updates) != [] && step.Return? ==> IsDisconnecting()
      ensures readBuffer == if step.Advance? then org[pos + step.size..] else old(readBuffer)
      ensures KeptByReceive()
    {
      var more;
      step, more := ReceiveStep(org, pos, cuts, now, key);
      PingPayloadsAppend(acc, more);
      ReportedAppend(acc, more, id);
      ShortPayloadsAppend(PingPayloads(acc), PingPayloads(more));
      updates := acc + more;
      if step.Advance? {
        readBuffer := org[pos + step.size..];
      }
    }

    /** The receive loop of _handlePacket over `org`, the read buffer with
        the new bytes appended: frame after frame from the front until a
        pass breaks or returns or the buffer is used up. */
    method ReceiveFrames(org: Bytes, now: int, key: MaskKey) returns (updates: seq<Update>, returned: bool, ghost cuts: seq<nat>)
      requires Valid()
      requires server != null ==> server.Valid()
      requires readBuffer == org
      modifies this, server
      ensures Valid()
      ensures server != null ==> server.Valid()
      ensures Segmented(org, cuts) && readBuffer == org[cuts[|cuts| - 1]..]
      ensures Reported(updates, id) && ShortPayloads(PingPayloads(updates))
      ensures PingPayloads(updates) != [] && (returned || !IsOpen()) ==> IsDisconnecting()
      ensures KeptByReceive()
    {
      assert org[0..] == org;
      var framePos := 0;
      var done := false;
      updates, returned, cuts := [], false, [0];
      while framePos < |org| && !done
        invariant 0 <= framePos <= |org|
        invariant readBuffer == org[framePos..]
        invariant Segmented(org, cuts) && cuts[|cuts| - 1] == framePos
        invariant Valid()
        invariant server != null ==> server.Valid()
        invariant KeptByReceive()
        invariant Reported(updates, id) && ShortPayloads(PingPayloads(updates))
        invariant PingPayloads(updates) != [] ==> IsOpen() || IsDisconnecting()
        invariant PingPayloads(updates) != [] && returned ==> IsDisconnecting()
        invariant returned ==> done
        decreases |org| - framePos, !done
      {
        var step;
        step, updates := Pass(org, framePos, cuts, updates, now, key);
        if step.Advance? {
          cuts := cuts + [framePos + step.size];
          framePos := framePos + step.size;
        } else {
          done, returned := true, step.Return?;
        }
      }
    }

    /** _handlePacket: append the new bytes to the read buffer and take
        complete frames off its front, one after the other. The loop ends
        when the header is incomplete, when the whole frame is not there yet
        (leaving the number of missing bytes as the hint for the next read),
        or when a frame makes it return: the connection is no longer open,
        reserved bits are set (close 1002 "Invalid RSV value"), the framer
        refuses the frame (close 1002), or the frame handler stops. Bytes of
        frames that were handled leave the read buffer; the frame that ended
        the loop stays. Unless the loop returned or this side is
        disconnecting, each ping is answered with a pong on the priority
        queue, in order. */
    method HandlePacket(newData: Bytes, now: int, key: MaskKey) returns (updates: seq<Update>, ghost cuts: seq<nat>)
      requires Valid()
      requires server != null ==> server.Valid()
      modifies this, server
      ensures Valid()
      ensures server != null ==> server.Valid()
      ensures Handled(old(readBuffer), newData, updates, cuts, key)
      ensures SameHandshake()
    {
      readBuffer := readBuffer + newData;
      var returned;
      updates, returned, cuts := ReceiveFrames(readBuffer, now, key);
      var pongs := PingPayloads(updates);
      if !returned && pongs != [] && !IsDisconnecting() {
        WritePongs(pongs, key);
      }
    }

    /** The pongs, in order, each as a final pong frame on the priority
        queue. */
    method WritePongs(pongs: seq<Bytes>, key: MaskKey)
      requires ShortPayloads(pongs)
      modifies this
      ensures priorityFramesBuffer == old(priorityFramesBuffer) + PongFrames(pongs, ShouldMask(), key)
      ensures framesBuffer == old(framesBuffer) && writeBuffer == old(writeBuffer)
      ensures SameReading() && SameLifecycle() && SameConfig()
    {
      for i := 0 to |pongs|
        invariant priorityFramesBuffer == old(priorityFramesBuffer) + PongFrames(pongs[..i], ShouldMask(), key)
        invariant framesBuffer == old(framesBuffer) && writeBuffer == old(writeBuffer)
        invariant SameReading() && SameLifecycle() && SameConfig()
      {
        var _ := Write(pongs[i], OPCODE_PONG, true, key);
        assert PongFrames(pongs[..i + 1], ShouldMask(), key) == PongFrames(pongs[..i], ShouldMask(), key) + [Framed(pongs[i], ShouldMask(), key, OPCODE_PONG)];
      }
      assert pongs[..|pongs|] == pongs;
    }

    // Reading.

    /** The number of bytes handleRead asks the stream for: the bytes still
        missing from the current frame when that is known, never more than
        the read rate. */
    function ReadSize(): (n: int)
      reads this
      ensures n <= readRate
      ensures currentFrameRemainingBytes.Some? ==> n <= currentFrameRemainingBytes.value
      ensures n == readRate || (currentFrameRemainingBytes.Some? && n == currentFrameRemainingBytes.value)
    {
      var hint := if currentFrameRemainingBytes.Some? then currentFrameRemainingBytes.value else readRate;
      if hint < readRate then hint else readRate
    }

    /** A read of zero bytes: the connection is marked closed, the event
        EndOfStreamEvent names is emitted, and close() runs; as the
        connection is already marked closed, close() sets no report of its
        own, and a server-side connection that will not report is dropped
        from its server's table. */
    method EndOfStream() returns (updates: seq<Update>)
      requires Valid()
      requires server != null ==> server.Valid()
      modifies this, server
      ensures Valid()
      ensures server != null ==> server.Valid() && server.SameSetup()
      ensures updates == [EndOfStreamEvent(role, old(hasHandshake), old(remoteSentDisconnect), old(weSentDisconnect), id)]
      ensures isClosed && !hasStream
      ensures shouldReportClose == (old(shouldReportClose) && (role == ClientSide || accepted))
      ensures server != null && !shouldReportClose ==> server.connections == old(server.connections) - {index}
      ensures server != null && shouldReportClose ==> server.connections == old(server.connections)
      ensures openedTimestamp == old(openedTimestamp)
      ensures SameReading() && SameWriting() && SameCloseFlags() && SameHandshake()
    {
      updates := [EndOfStreamEvent(role, hasHandshake, remoteSentDisconnect, weSentDisconnect, id)];
      isClosed := true;
      Close();
    }

    /** The server side's handshake branch of handleRead when the bytes
        received so far hold no terminator: the bytes are buffered, and a
        buffer over the limit queues a 431 page, closes after writing and
        reports the oversize. */
    twostate predicate ServerWaited(buffered: Bytes, updates: seq<Update>)
      reads this, server
    {
      && server != null
      && readBuffer == buffered && !hasHandshake && headers == old(headers) && rawToken == old(rawToken)
      && SameStatus() && server.connections == old(server.connections)
      && priorityFramesBuffer == old(priorityFramesBuffer) && writeBuffer == old(writeBuffer)
      && (|buffered| > maxHandshakeLength ==>
            && updates == [Error(E.C_READ_HANDSHAKE_TO_LARGE, Some(id))]
            && framesBuffer == old(framesBuffer) + [old(server.ErrorPageForCode(431))]
            && closeAfterWrite)
      && (|buffered| <= maxHandshakeLength ==>
            updates == [] && framesBuffer == old(framesBuffer) && closeAfterWrite == old(closeAfterWrite))
    }

    method ServerWait(buffered: Bytes) returns (updates: seq<Update>)
      requires Valid() && role == ServerSide && !hasHandshake
      requires server != null && server.Valid()
      modifies this, server
      ensures Valid() && server.Valid()
      ensures ServerWaited(buffered, updates)
      ensures Reported(updates, id)
      ensures handshakeAccepted == old(handshakeAccepted)
    {
      var page := server.ErrorPageForCode(431);
      readBuffer := buffered;
      updates := [];
      if |buffered| > maxHandshakeLength {
        WriteRaw(page, false);
        closeAfterWrite := true;
        updates := [Error(E.C_READ_HANDSHAKE_TO_LARGE, Some(id))];
      }
    }

    /** The server side's handshake branch of handleRead once the head is
        cut off, parsed into `h` and given response `code`: the headers are
        kept; a valid request completes the handshake with the accept token,
        is reported as a new connection and the bytes after the head are
        handled as frames; otherwise the error page for the code is queued,
        the connection closes after writing, the failure is reported and the
        bytes after the head are dropped. */
    twostate predicate ServerCutRead(h: Headers, code: int, rest: Bytes, updates: seq<Update>, cuts: seq<nat>, key: MaskKey)
      reads this, server
    {
      && server != null
      && headers == Some(h)
      && (code == 101 ==>
            && hasHandshake && rawToken.Some? && rawToken.value == server.sha1(RequestKey(h) + Str(WEBSOCKET_GUID))
            && |updates| >= 1 && updates[0] == ReadEvent(R.C_NEWCONNECTION, id)
            && Handled([], rest, updates[1..], cuts, key))
      && (code != 101 ==>
            && !hasHandshake && readBuffer == [] && rawToken == old(rawToken)
            && updates == [Error(E.C_READ_HANDSHAKE_FAILURE, Some(id))]
            && framesBuffer == old(framesBuffer) + [old(server.ErrorPageForCode(code))]
            && closeAfterWrite
            && SameStatus() && server.connections == old(server.connections)
            && priorityFramesBuffer == old(priorityFramesBuffer) && writeBuffer == old(writeBuffer))
    }

    /** The rest of _doHandshake once the checks are made, and what
        handleRead does with its outcome. */
    method ServerCut(h: Headers, code: int, token: Option<Bytes>, rest: Bytes, now: int, key: MaskKey)
      returns (updates: seq<Update>, ghost cuts: seq<nat>)
      requires Valid() && role == ServerSide && !hasHandshake
      requires server != null && server.Valid()
      requires token.Some? <==> code == 101
      requires token.Some? ==> token.value == server.sha1(RequestKey(h) + Str(WEBSOCKET_GUID))
      modifies this, server
      ensures Valid() && server.Valid()
      ensures ServerCutRead(h, code, rest, updates, cuts, key)
      ensures Reported(updates, id)
      ensures handshakeAccepted == old(handshakeAccepted)
    {
      if token.Some? {
        updates, cuts := CompleteHandshake(h, token.value, rest, now, key);
      } else {
        cuts := [0];
        updates := RefuseHandshake(h, code);
      }
    }

    /** A valid request: the handshake is complete with the accept token,
        the new connection is reported, and the bytes after the head are
        handled as frames. */
    method CompleteHandshake(h: Headers, token: Bytes, rest: Bytes, now: int, key: MaskKey)
      returns (updates: seq<Update>, ghost cuts: seq<nat>)
      requires Valid() && role == ServerSide
      requires server != null && server.Valid()
      modifies this, server
      ensures Valid() && server.Valid()
      ensures headers == Some(h) && hasHandshake && rawToken == Some(token)
      ensures |updates| >= 1 && updates[0] == ReadEvent(R.C_NEWCONNECTION, id)
      ensures Handled([], rest, updates[1..], cuts, key)
      ensures Reported(updates, id)
      ensures handshakeAccepted == old(handshakeAccepted)
    {
      readBuffer := [];
      headers := Some(h);
      hasHandshake, rawToken := true, Some(token);
      var more;
      more, cuts := HandlePacket(rest, now, key);
      updates := [ReadEvent(R.C_NEWCONNECTION, id)] + more;
      assert updates[1..] == more;
    }

    /** A valid request as written: handleRead reports the new connection
        with `Update\Read::C_NEW_CONNECTION`, which Read does not declare.
        Once _doHandshake has recorded the headers and the token, PHP throws
        an Error, so nothing is reported and the bytes after the head are
        never handled (see CompleteHandshake for the intended branch). */
    method CompleteHandshakeAsWritten(h: Headers, token: Bytes) returns (updates: seq<Update>, thrown: Option<Exception>)
      requires Valid() && role == ServerSide
      modifies this
      ensures Valid()
      ensures headers == Some(h) && hasHandshake && rawToken == Some(token) && readBuffer == []
      ensures updates == [] && thrown == Some(UndefinedConstant)
      ensures handshakeAccepted == old(handshakeAccepted) && accepted == old(accepted)
      ensures SameLifecycle() && SameWriting()
    {
      readBuffer := [];
      headers := Some(h);
      hasHandshake, rawToken := true, Some(token);
      updates := [];
      R.NewConnectionUndefined();
      thrown := Some(R.Constant("C_NEW_CONNECTION").error);
    }

    /** An invalid request: the headers are kept, the error page for the
        code is queued, the connection closes after writing, and the failure
        is reported. */
    method RefuseHandshake(h: Headers, code: int) returns (updates: seq<Update>)
      requires Valid() && role == ServerSide && !hasHandshake
      requires server != null && server.Valid()
      modifies this
      ensures Valid()
      ensures headers == Some(h) && !hasHandshake && readBuffer == [] && rawToken == old(rawToken)
      ensures updates == [Error(E.C_READ_HANDSHAKE_FAILURE, Some(id))]
      ensures framesBuffer == old(framesBuffer) + [old(server.ErrorPageForCode(code))]
      ensures closeAfterWrite
      ensures SameStatus() && priorityFramesBuffer == old(priorityFramesBuffer) && writeBuffer == old(writeBuffer)
      ensures handshakeAccepted == old(handshakeAccepted)
    {
      var page := server.ErrorPageForCode(code);
      readBuffer := [];
      headers := Some(h);
      WriteRaw(page, false);
      closeAfterWrite := true;
      updates := [Error(E.C_READ_HANDSHAKE_FAILURE, Some(id))];
    }

    /** The handshake branch of handleRead of either role once
        ParseHTTPHeaders threw on the cut head: the read buffer is already
        cleared, nothing is reported and nothing else changes. */
    twostate predicate ParseThrew(updates: seq<Update>)
      reads this
    {
      && updates == [] && readBuffer == []
      && SameHandshake() && SameLifecycle() && SameWriting()
    }

    /** What the server side's handshake branch of handleRead did with the
        head it cut off: a head that throws escapes as `thrown`, a parsed
        one is checked. */
    twostate predicate ServerHeadRead(head: Bytes, rest: Bytes, updates: seq<Update>, new thrown: Option<Exception>, cuts: seq<nat>, key: MaskKey)
      reads this, server
    {
      match ParseAll(Explode(head, LF))
      case Fail(e) =>
        && thrown == Some(e) && ParseThrew(updates)
        && server != null && server.connections == old(server.connections)
      case Ok(h) => thrown.None? && ServerCutRead(h, ResponseCode(h), rest, updates, cuts, key)
    }

    /** What the server side's handshake branch of handleRead did with a
        non-empty chunk while it has no handshake; `thrown` is the error
        that escapes it. */
    twostate predicate ServerHandshakeRead(chunk: Bytes, updates: seq<Update>, new thrown: Option<Exception>, cuts: seq<nat>, key: MaskKey)
      reads this, server
    {
      match HeadCut(old(readBuffer), chunk)
      case Waiting(buffered) => thrown.None? && ServerWaited(buffered, updates)
      case Cut(head, rest) => ServerHeadRead(head, rest, updates, thrown, cuts, key)
    }

    /** The read buffer is cleared before ParseHTTPHeaders runs, and nothing
        else changes when it throws. */
    method HeadThrew() returns (updates: seq<Update>)
      requires Valid()
      modifies this
      ensures Valid() && ParseThrew(updates)
    {
      readBuffer := [];
      updates := [];
    }

    /** The server side's handshake branch once the head is cut off. */
    method ServerHead(head: Bytes, rest: Bytes, now: int, key: MaskKey)
      returns (updates: seq<Update>, thrown: Option<Exception>, ghost cuts: seq<nat>)
      requires Valid() && role == ServerSide && !hasHandshake
      requires server != null && server.Valid()
      modifies this, server
      ensures Valid() && server.Valid()
      ensures ServerHeadRead(head, rest, updates, thrown, cuts, key)
      ensures Reported(updates, id)
      ensures handshakeAccepted == old(handshakeAccepted)
    {
      cuts, thrown := [0], None;
      var parsed, code, token := CheckRequest(head, server.sha1);
      if parsed.Fail? {
        updates := HeadThrew();
        thrown := Some(parsed.error);
      } else {
        updates, cuts := ServerCut(parsed.value, code, token, rest, now, key);
      }
    }

    /** The handshake branch of the server-side connection's handleRead;
        _doHandshake's checks are CheckRequest. */
    method ServerHandshake(chunk: Bytes, now: int, key: MaskKey)
      returns (updates: seq<Update>, thrown: Option<Exception>, ghost cuts: seq<nat>)
      requires Valid() && role == ServerSide && !hasHandshake
      requires server != null && server.Valid()
      modifies this, server
      ensures Valid() && server.Valid()
      ensures ServerHandshakeRead(chunk, updates, thrown, cuts, key)
      ensures Reported(updates, id)
      ensures handshakeAccepted == old(handshakeAccepted)
    {
      cuts, thrown := [0], None;
      match HeadCut(readBuffer, chunk)
      case Waiting(buffered) =>
        updates := ServerWait(buffered);
      case Cut(head, rest) =>
        updates, thrown, cuts := ServerHead(head, rest, now, key);
    }

    /** The client's handshake branch of handleRead when the bytes received
        so far hold no terminator: the bytes are buffered, and a buffer over the limit
        reports the oversize and closes. */
    twostate predicate ClientWaited(buffered: Bytes, updates: seq<Update>)
      reads this
    {
      && readBuffer == buffered && !handshakeAccepted && headers == old(headers) && SameQueues()
      && (|buffered| > maxHandshakeLength ==>
            && updates == [Error(E.C_READ_HANDSHAKE_TO_LARGE, Some(id))]
            && isClosed && !hasStream && shouldReportClose == (old(shouldReportClose) || !old(isClosed)))
      && (|buffered| <= maxHandshakeLength ==> updates == [] && SameStatus())
    }

    method ClientWait(buffered: Bytes) returns (updates: seq<Update>)
      requires Valid() && role == ClientSide && !handshakeAccepted
      modifies this
      ensures Valid()
      ensures ClientWaited(buffered, updates)
      ensures Reported(updates, id)
      ensures hasHandshake == old(hasHandshake) && rawToken == old(rawToken) && accepted == old(accepted)
    {
      readBuffer := buffered;
      updates := [];
      if |buffered| > maxHandshakeLength {
        updates := [Error(E.C_READ_HANDSHAKE_TO_LARGE, Some(id))];
        Close();
      }
    }

    /** ClientWait as written: an oversize head is reported with
        `Update\Error::C_READ_HANDSHAKETOLARGE`, which Error does not declare,
        so PHP throws an Error with the bytes buffered, before the report and
        before close() (see ClientWait for the intended branch). */
    method ClientWaitAsWritten(buffered: Bytes) returns (updates: seq<Update>, thrown: Option<Exception>)
      requires Valid() && role == ClientSide && !handshakeAccepted
      modifies this
      ensures Valid()
      ensures readBuffer == buffered && updates == []
      ensures SameHandshake() && SameLifecycle() && SameWriting()
      ensures thrown.Some? <==> |buffered| > maxHandshakeLength
      ensures thrown.Some? ==> thrown.value == UndefinedConstant
    {
      readBuffer := buffered;
      updates, thrown := [], None;
      if |buffered| > maxHandshakeLength {
        E.MisspelledCodesUndefined();
        thrown := Some(E.Constant("C_READ_HANDSHAKETOLARGE").error);
      }
    }

    /** The client's handshake branch of handleRead once the head is cut
        off and parsed: a 101 status accepts the handshake, is reported, and
        the bytes after the head are handled as frames; any other status
        closes, is reported as denied, and the bytes after the head are
        dropped. */
    twostate predicate ClientCutRead(h: Headers, rest: Bytes, updates: seq<Update>, cuts: seq<nat>, key: MaskKey)
      reads this
    {
      && headers == Some(h)
      && (Switched(h) ==>
            && handshakeAccepted && hasHandshake
            && |updates| >= 1 && updates[0] == ReadEvent(R.C_CONNECTION_ACCEPTED, id)
            && Handled([], rest, updates[1..], cuts, key))
      && (!Switched(h) ==>
            && !handshakeAccepted && readBuffer == [] && hasHandshake == old(hasHandshake)
            && updates == [ReadEvent(R.C_CONNECTION_DENIED, id)]
            && isClosed && !hasStream && shouldReportClose == (old(shouldReportClose) || !old(isClosed))
            && SameQueues())
    }

    method ClientCut(h: Headers, rest: Bytes, now: int, key: MaskKey) returns (updates: seq<Update>, ghost cuts: seq<nat>)
      requires Valid() && role == ClientSide && !handshakeAccepted
      modifies this, server
      ensures Valid()
      ensures ClientCutRead(h, rest, updates, cuts, key)
      ensures Reported(updates, id)
      ensures rawToken == old(rawToken) && accepted == old(accepted)
    {
      cuts := [0];
      readBuffer := [];
      headers := Some(h);
      if Switched(h) {
        handshakeAccepted, hasHandshake := true, true;
        var more;
        more, cuts := HandlePacket(rest, now, key);
        updates := [ReadEvent(R.C_CONNECTION_ACCEPTED, id)] + more;
        assert updates[1..] == more;
      } else {
        Close();
        updates := [ReadEvent(R.C_CONNECTION_DENIED, id)];
      }
    }

    /** What the client's handshake branch of handleRead did with the head
        it cut off: a head that throws escapes as `thrown`, a parsed one is
        read for its status. */
    twostate predicate ClientHeadRead(head: Bytes, rest: Bytes, updates: seq<Update>, new thrown: Option<Exception>, cuts: seq<nat>, key: MaskKey)
      reads this
    {
      match ParseAll(Explode(head, LF))
      case Fail(e) => thrown == Some(e) && ParseThrew(updates)
      case Ok(h) => thrown.None? && ClientCutRead(h, rest, updates, cuts, key)
    }

    /** What the client's handshake branch of handleRead did with a
        non-empty chunk before the handshake was accepted; `thrown` is the
        error that escapes it. */
    twostate predicate ClientHandshakeRead(chunk: Bytes, updates: seq<Update>, new thrown: Option<Exception>, cuts: seq<nat>, key: MaskKey)
      reads this
    {
      match HeadCut(old(readBuffer), chunk)
      case Waiting(buffered) => thrown.None? && ClientWaited(buffered, updates)
      case Cut(head, rest) => ClientHeadRead(head, rest, updates, thrown, cuts, key)
    }

    /** The client's handshake branch once the head is cut off. */
    method ClientHead(head: Bytes, rest: Bytes, now: int, key: MaskKey)
      returns (updates: seq<Update>, thrown: Option<Exception>, ghost cuts: seq<nat>)
      requires Valid() && role == ClientSide && !handshakeAccepted
      modifies this, server
      ensures Valid()
      ensures ClientHeadRead(head, rest, updates, thrown, cuts, key)
      ensures Reported(updates, id)
      ensures rawToken == old(rawToken) && accepted == old(accepted)
    {
      cuts, thrown := [0], None;
      var parsed := ParseHTTPHeaders(head);
      if parsed.Fail? {
        updates := HeadThrew();
        thrown := Some(parsed.error);
      } else {
        updates, cuts := ClientCut(parsed.value, rest, now, key);
      }
    }

    /** The handshake branch of the client's handleRead. */
    method ClientHandshake(chunk: Bytes, now: int, key: MaskKey)
      returns (updates: seq<Update>, thrown: Option<Exception>, ghost cuts: seq<nat>)
      requires Valid() && role == ClientSide && !handshakeAccepted
      modifies this, server
      ensures Valid()
      ensures ClientHandshakeRead(chunk, updates, thrown, cuts, key)
      ensures Reported(updates, id)
      ensures rawToken == old(rawToken) && accepted == old(accepted)
    {
      cuts, thrown := [0], None;
      match HeadCut(readBuffer, chunk)
      case Waiting(buffered) =>
        updates := ClientWait(buffered);
      case Cut(head, rest) =>
        updates, thrown, cuts := ClientHead(head, rest, now, key);
    }

    /** handleRead of both roles. `chunk` is what the stream read returned:
        None when it failed, else at most ReadSize() bytes. A failed read is
        reported and changes nothing; an empty read is the end of the
        stream; before the handshake completes the chunk goes to the role's
        handshake branch, afterwards to _handlePacket. `thrown` is the error
        that escapes a handshake branch. */
    method HandleRead(chunk: Option<Bytes>, now: int, key: MaskKey)
      returns (updates: seq<Update>, thrown: Option<Exception>, ghost cuts: seq<nat>)
      requires Valid()
      requires server != null ==> server.Valid()
      requires chunk.Some? ==> |chunk.value| <= ReadSize()
      modifies this, server
      ensures Valid()
      ensures server != null ==> server.Valid()
      ensures Reported(updates, id) || chunk == Some([])
      ensures chunk.None? ==> updates == [Error(E.C_READ, Some(id))] && thrown.None?
                              && SameReading() && SameLifecycle() && SameWriting() && SameHandshake()
      ensures chunk == Some([]) ==>
        && thrown.None?
        && updates == [EndOfStreamEvent(role, old(hasHandshake), old(remoteSentDisconnect), old(weSentDisconnect), id)]
        && isClosed && !hasStream
        && shouldReportClose == (old(shouldReportClose) && (role == ClientSide || accepted))
        && SameReading() && SameWriting() && SameCloseFlags() && SameHandshake()
      ensures chunk.Some? && chunk.value != [] && role == ServerSide && !old(hasHandshake) ==>
        ServerHandshakeRead(chunk.value, updates, thrown, cuts, key)
      ensures chunk.Some? && chunk.value != [] && role == ClientSide && !old(handshakeAccepted) ==>
        ClientHandshakeRead(chunk.value, updates, thrown, cuts, key)
      ensures chunk.Some? && chunk.value != [] && (if role == ServerSide then old(hasHandshake) else old(handshakeAccepted)) ==>
        thrown.None? && Handled(old(readBuffer), chunk.value, updates, cuts, key) && SameHandshake()
    {
      cuts, thrown := [0], None;
      if chunk.None? {
        updates := [Error(E.C_READ, Some(id))];
      } else if chunk.value == [] {
        updates := EndOfStream();
      } else if role == ServerSide && !hasHandshake {
        updates, thrown, cuts := ServerHandshake(chunk.value, now, key);
      } else if role == ClientSide && !handshakeAccepted {
        updates, thrown, cuts := ClientHandshake(chunk.value, now, key);
      } else {
        updates, cuts := HandlePacket(chunk.value, now, key);
      }
    }

    // Accepting, denying and the checks before each stream selection.

    /** accept: refused once accepted. Before a handshake there is no
        token, and base64_encode of NULL is a TypeError under strict typing:
        nothing is queued and the connection stays unaccepted. Otherwise the
        101 response, carrying the accept value made from the token the
        handshake computed and the subprotocol line when one is given, is
        queued on the normal queue and the connection is accepted. */
    method Accept(protocol: Option<Bytes>) returns (thrown: Option<Exception>)
      requires Valid() && role == ServerSide
      modifies this
      ensures Valid() && accepted == (old(accepted) || rawToken.Some?)
      ensures old(accepted) ==> thrown == Some(LogicException) && framesBuffer == old(framesBuffer)
      ensures !old(accepted) && rawToken.None? ==> thrown == Some(TypeError) && framesBuffer == old(framesBuffer)
      ensures !old(accepted) && rawToken.Some? ==>
        && thrown.None?
        && framesBuffer == old(framesBuffer) + [AcceptResponse(server.Identifier(), server.base64(rawToken.value), protocol)]
      ensures priorityFramesBuffer == old(priorityFramesBuffer) && writeBuffer == old(writeBuffer)
      ensures SameReading() && SameConfig() && SameCloseFlags()
      ensures isClosed == old(isClosed) && hasStream == old(hasStream)
      ensures shouldReportClose == old(shouldReportClose) && openedTimestamp == old(openedTimestamp)
    {
      if accepted {
        return Some(LogicException);
      }
      if rawToken.None? {
        return Some(TypeError);
      }
      var response := AcceptResponse(server.Identifier(), server.base64(rawToken.value), protocol);
      WriteRaw(response, false);
      accepted := true;
      thrown := None;
    }

    /** deny: refused once accepted; otherwise a bare response with the
        status code is queued on the normal queue and the connection closes
        once everything is written. */
    method Deny(code: int) returns (thrown: Option<Exception>)
      requires Valid() && role == ServerSide
      modifies this
      ensures Valid()
      ensures old(accepted) ==> thrown == Some(LogicException)
                                && framesBuffer == old(framesBuffer) && closeAfterWrite == old(closeAfterWrite)
      ensures !old(accepted) ==> thrown.None? && closeAfterWrite
                                 && framesBuffer == old(framesBuffer) + [DenyResponse(code, server.Identifier())]
      ensures priorityFramesBuffer == old(priorityFramesBuffer) && writeBuffer == old(writeBuffer)
      ensures SameReading() && SameConfig() && SameStatus()
      ensures cleanDisconnectTimeout == old(cleanDisconnectTimeout) && weInitiateDisconnect == old(weInitiateDisconnect)
      ensures weSentDisconnect == old(weSentDisconnect) && remoteSentDisconnect == old(remoteSentDisconnect)
    {
      if accepted {
        return Some(LogicException);
      }
      var response := DenyResponse(code, server.Identifier());
      WriteRaw(response, false);
      closeAfterWrite := true;
      thrown := None;
    }

    /** The deadline check of the abstract connection's beforeStreamSelect:
        once the time for the peer's close has passed, the connection is
        closed and the timeout reported. */
    method CheckDisconnectTimeout(now: int) returns (updates: seq<Update>)
      requires Valid()
      requires server != null ==> server.Valid()
      modifies this, server
      ensures Valid()
      ensures server != null ==> server.Valid() && server.SameSetup()
      ensures old(DisconnectDue(now)) ==> updates == [Error(E.C_DISCONNECT_TIMEOUT, Some(id))] && Closed()
      ensures !old(DisconnectDue(now)) ==> updates == [] && SameStatus()
                                           && (server != null ==> server.connections == old(server.connections))
      ensures accepted == old(accepted) && openedTimestamp == old(openedTimestamp)
      ensures SameReading() && SameWriting() && SameCloseFlags()
    {
      updates := [];
      if DisconnectDue(now) {
        Close();
        updates := [Error(E.C_DISCONNECT_TIMEOUT, Some(id))];
      }
    }

    /** Whether the time for the peer to answer a close has run out. */
    predicate DisconnectDue(now: int)
      reads this
    {
      cleanDisconnectTimeout.Some? && now >= cleanDisconnectTimeout.value
    }

    /** The report of the abstract connection's beforeStreamSelect: a close
        still to be reported is reported once, after which a server-side
        connection, already closed, leaves its server's table. */
    method ReportClose() returns (updates: seq<Update>)
      requires Valid()
      requires server != null ==> server.Valid()
      modifies this, server
      ensures Valid() && !shouldReportClose
      ensures server != null ==> server.Valid() && server.SameSetup()
      ensures old(shouldReportClose) ==>
        && updates == [ReadEvent(R.C_SOCK_DISCONNECT, id)]
        && (server != null ==> server.connections == old(server.connections) - {index})
      ensures !old(shouldReportClose) ==> updates == [] && (server != null ==> server.connections == old(server.connections))
      ensures isClosed == old(isClosed) && hasStream == old(hasStream)
      ensures accepted == old(accepted) && openedTimestamp == old(openedTimestamp)
      ensures SameReading() && SameWriting() && SameCloseFlags()
    {
      updates := [];
      if shouldReportClose {
        updates := [ReadEvent(R.C_SOCK_DISCONNECT, id)];
        shouldReportClose := false;
        if server != null {
          server.Unlist(this);
        }
      }
    }

    /** Whether a server-side connection has waited too long for its
        handshake to be accepted: the opening time plus the accept timeout
        lies before the current whole second. */
    predicate AcceptOverdue(now: int)
      reads this
    {
      && role == ServerSide && !accepted && hasHandshake
      && (if openedTimestamp.Some? then openedTimestamp.value else 0) + acceptTimeout < WholeSeconds(now)
    }

    /** beforeStreamSelect of both roles: the deadline check and the close
        report of the abstract connection, then, on the server side, a
        handshake left unaccepted too long is reported and denied with 504.
        The close is reported when it was pending or the deadline closed an
        open connection that reports; either way a server-side connection
        leaves the table. */
    method BeforeStreamSelect(now: int) returns (updates: seq<Update>)
      requires Valid()
      requires server != null ==> server.Valid()
      modifies this, server
      ensures Valid()
      ensures server != null ==> server.Valid() && server.SameSetup()
      ensures var due := old(DisconnectDue(now));
        var reports := old(shouldReportClose) || (due && !old(isClosed) && (role == ClientSide || old(accepted)));
        var late := old(AcceptOverdue(now));
        && updates == (if due then [Error(E.C_DISCONNECT_TIMEOUT, Some(id))] else [])
                      + (if reports then [ReadEvent(R.C_SOCK_DISCONNECT, id)] else [])
                      + (if late then [Error(E.C_ACCEPT_TIMEOUT_PASSED, Some(id))] else [])
        && (due ==> isClosed && !hasStream)
        && (!due ==> isClosed == old(isClosed) && hasStream == old(hasStream))
        && (server != null ==> server.connections == old(server.connections) - (if due || reports then {index} else {}))
        && (late ==> closeAfterWrite && framesBuffer == old(framesBuffer) + [DenyResponse(504, server.Identifier())])
        && (!late ==> closeAfterWrite == old(closeAfterWrite) && framesBuffer == old(framesBuffer))
      ensures !shouldReportClose && accepted == old(accepted) && openedTimestamp == old(openedTimestamp)
      ensures priorityFramesBuffer == old(priorityFramesBuffer) && writeBuffer == old(writeBuffer)
      ensures SameReading() && SameConfig()
      ensures cleanDisconnectTimeout == old(cleanDisconnectTimeout) && weInitiateDisconnect == old(weInitiateDisconnect)
      ensures weSentDisconnect == old(weSentDisconnect) && remoteSentDisconnect == old(remoteSentDisconnect)
    {
      var late := AcceptOverdue(now);
      var timedOut := CheckDisconnectTimeout(now);
      var reported := ReportClose();
      updates := timedOut + reported;
      if late {
        updates := updates + [Error(E.C_ACCEPT_TIMEOUT_PASSED, Some(id))];
        var _ := Deny(504);
      }
    }

    // Opening a client.

    /** getUserAgent: the agent set, else the library's name and version. */
    function UserAgent(): Bytes
    {
      if userAgent.Some? then userAgent.value else Str("PHPWebSockets/") + version
    }

    /** What connectToResource and connect do once they hold an open
        stream: the address and path are taken, then _afterOpen takes the
        opening time and queues the opening request, with the path, the
        address (empty when unknown), the user agent and the handshake key,
        on the normal queue. */
    method Open(address: Option<Bytes>, path: Bytes, now: int, handshakeKey: Bytes)
      requires Valid() && role == ClientSide
      modifies this
      ensures Valid() && hasStream && this.address == address && this.path == Some(path)
      ensures openedTimestamp == Some(now) && isClosed == old(isClosed)
      ensures framesBuffer == old(framesBuffer)
        + [ClientRequest(path, if address.Some? then address.value else [], UserAgent(), handshakeKey)]
      ensures priorityFramesBuffer == old(priorityFramesBuffer) && writeBuffer == old(writeBuffer)
      ensures SameReading() && SameCloseFlags() && shouldMask == old(shouldMask)
      ensures shouldReportClose == old(shouldReportClose)
    {
      var request := ClientRequest(path, if address.Some? then address.value else [], UserAgent(), handshakeKey);
      this.address := address;
      hasStream := true;
      this.path := Some(path);
      AfterOpen(now, request);
    }

    /** _afterOpen, with the request it builds given. */
    method AfterOpen(now: int, request: Bytes)
      modifies this
      ensures openedTimestamp == Some(now) && framesBuffer == old(framesBuffer) + [request]
      ensures priorityFramesBuffer == old(priorityFramesBuffer) && writeBuffer == old(writeBuffer)
      ensures SameReading() && SameCloseFlags() && SameConfig() && Valid() == old(Valid())
      ensures isClosed == old(isClosed) && hasStream == old(hasStream)
      ensures shouldReportClose == old(shouldReportClose) && accepted == old(accepted)
    {
      openedTimestamp := Some(now);
      WriteRaw(request, false);
    }

    /** connectToResource: anything but a resource is refused, and so is a
        connection already open; otherwise the stream is taken, with its URI
        (when it has one) as the address, and the opening request queued.
        A connection closed earlier stays marked closed. */
    method ConnectToResource(resource: StreamArgument, uri: Option<Bytes>, path: Bytes, now: int, handshakeKey: Bytes)
      returns (thrown: Option<Exception>)
      requires Valid() && role == ClientSide
      modifies this
      ensures Valid()
      ensures !resource.ResourceStream? ==> thrown == Some(InvalidArgumentException)
                                            && SameStatus() && SameWriting()
      ensures resource.ResourceStream? && old(IsOpen()) ==> thrown == Some(LogicException)
                                                            && SameStatus() && SameWriting()
      ensures resource.ResourceStream? && !old(IsOpen()) ==>
        && thrown.None? && hasStream && address == uri && this.path == Some(path)
        && openedTimestamp == Some(now) && isClosed == old(isClosed)
        && framesBuffer == old(framesBuffer) + [ClientRequest(path, if uri.Some? then uri.value else [], UserAgent(), handshakeKey)]
        && priorityFramesBuffer == old(priorityFramesBuffer) && writeBuffer == old(writeBuffer)
      ensures SameReading() && SameCloseFlags() && shouldMask == old(shouldMask)
      ensures shouldReportClose == old(shouldReportClose)
    {
      if !resource.ResourceStream? {
        return Some(InvalidArgumentException);
      }
      if IsOpen() {
        return Some(LogicException);
      }
      Open(uri, path, now, handshakeKey);
      thrown := None;
    }

    /** connect: refused when the connection is already open; a stream that
        cannot be opened (`streamOpened` false) returns false and leaves the client
        without a stream; otherwise the address and path are taken and the
        opening request queued. */
    method Connect(address: Bytes, path: Bytes, streamOpened: bool, now: int, handshakeKey: Bytes)
      returns (ok: bool, thrown: Option<Exception>)
      requires Valid() && role == ClientSide
      modifies this
      ensures Valid()
      ensures ok ==> thrown.None?
      ensures old(IsOpen()) ==> !ok && thrown == Some(LogicException) && SameStatus() && SameWriting()
      ensures !old(IsOpen()) && !streamOpened ==> !ok && thrown.None? && !hasStream && SameWriting()
      ensures !old(IsOpen()) && streamOpened ==>
        && ok && hasStream && this.address == Some(address) && this.path == Some(path)
        && openedTimestamp == Some(now) && isClosed == old(isClosed)
        && framesBuffer == old(framesBuffer) + [ClientRequest(path, address, UserAgent(), handshakeKey)]
        && priorityFramesBuffer == old(priorityFramesBuffer) && writeBuffer == old(writeBuffer)
      ensures SameReading() && SameCloseFlags() && shouldMask == old(shouldMask)
      ensures shouldReportClose == old(shouldReportClose) && isClosed == old(isClosed)
    {
      ok := false;
      thrown := None;
      if IsOpen() {
        thrown := Some(LogicException);
        return;
      }
      hasStream := streamOpened;
      if !streamOpened {
        return;
      }
      Open(Some(address), path, now, handshakeKey);
      ok := true;
    }

    // Sending a message in pieces.

    /** One step of writeMultiFramed: piece `i` is written as the frame the
        message's `i`-th frame is. */
    method WritePiece(pieces: seq<Bytes>, opcode: int, i: nat, key: MaskKey)
      requires opcode in {OPCODE_FRAME_TEXT, OPCODE_FRAME_BINARY} && i < |pieces|
      requires forall j :: 0 <= j < |pieces| ==> |pieces[j]| <= MAX_PHP_INT
      modifies this
      ensures framesBuffer == old(framesBuffer) + [MultiFramesWith(pieces, opcode, old(ShouldMask()), key, true)[i]]
      ensures priorityFramesBuffer == old(priorityFramesBuffer) && writeBuffer == old(writeBuffer)
      ensures SameReading() && SameLifecycle() && SameConfig()
    {
      var _ := Write(pieces[i], FragmentOpcode(opcode, i), i == |pieces| - 1, key);
    }

    /** writeMultiFramed: only text and binary messages, and pieces of at
        least one byte, are taken; the data is cut into pieces of
        `frameSize` bytes, each queued as a frame on the normal queue, the
        last one final, the first with the message's opcode and the others
        as continuations (corrected, see WriteMultiFramedAsWrittenRefused). */
    method WriteMultiFramed(data: Bytes, opcode: int, frameSize: int, key: MaskKey) returns (thrown: Option<Exception>)
      requires |data| <= MAX_PHP_INT
      modifies this
      ensures opcode != OPCODE_FRAME_TEXT && opcode != OPCODE_FRAME_BINARY ==>
        thrown == Some(InvalidArgumentException) && framesBuffer == old(framesBuffer)
      ensures opcode in {OPCODE_FRAME_TEXT, OPCODE_FRAME_BINARY} && frameSize < 1 ==>
        thrown == Some(LogicException) && framesBuffer == old(framesBuffer)
      ensures opcode in {OPCODE_FRAME_TEXT, OPCODE_FRAME_BINARY} && frameSize >= 1 ==>
        thrown.None? && framesBuffer == old(framesBuffer) + MultiFramesWith(StrSplit(data, frameSize), opcode, ShouldMask(), key, true)
      ensures priorityFramesBuffer == old(priorityFramesBuffer) && writeBuffer == old(writeBuffer)
      ensures SameReading() && SameLifecycle() && SameConfig()
    {
      if opcode != OPCODE_FRAME_TEXT && opcode != OPCODE_FRAME_BINARY {
        return Some(InvalidArgumentException);
      }
      if frameSize < 1 {
        return Some(LogicException);
      }
      WritePieces(StrSplit(data, frameSize), opcode, key);
      thrown := None;
    }

    /** The loop of writeMultiFramed: every piece, in order, as the frame
        the message's frame of that index is. */
    method WritePieces(pieces: seq<Bytes>, opcode: int, key: MaskKey)
      requires opcode in {OPCODE_FRAME_TEXT, OPCODE_FRAME_BINARY}
      requires forall j :: 0 <= j < |pieces| ==> |pieces[j]| <= MAX_PHP_INT
      modifies this
      ensures framesBuffer == old(framesBuffer) + MultiFramesWith(pieces, opcode, ShouldMask(), key, true)
      ensures priorityFramesBuffer == old(priorityFramesBuffer) && writeBuffer == old(writeBuffer)
      ensures SameReading() && SameLifecycle() && SameConfig()
    {
      ghost var mask := ShouldMask();
      ghost var frames := MultiFramesWith(pieces, opcode, mask, key, true);
      var i := 0;
      while i < |pieces|
        invariant 0 <= i <= |pieces|
        invariant ShouldMask() == mask
        invariant framesBuffer == old(framesBuffer) + frames[..i]
        invariant priorityFramesBuffer == old(priorityFramesBuffer) && writeBuffer == old(writeBuffer)
        invariant SameReading() && SameLifecycle() && SameConfig()
      {
        WritePiece(pieces, opcode, i, key);
        assert frames[..i + 1] == frames[..i] + [frames[i]];
        i := i + 1;
      }
      assert frames[..i] == frames;
    }

  }

  /** Moving the head of a queue into flight keeps the sending order. */
  lemma TakeHead(priority: seq<Bytes>, normal: seq<Bytes>, fromPriority: bool)
    requires fromPriority ==> priority != []
    requires !fromPriority ==> priority == [] && normal != []
    ensures fromPriority ==> SendOrder(Some(priority[0]), priority[1..], normal) == SendOrder(None, priority, normal)
    ensures !fromPriority ==> SendOrder(Some(normal[0]), priority, normal[1..]) == SendOrder(None, priority, normal)
  {
    if fromPriority {
      var rest := Flatten(normal);
      assert Flatten(priority) == priority[0] + Flatten(priority[1..]);
      assert SendOrder(None, priority, normal) == [] + Flatten(priority) + rest;
      assert [] + Flatten(priority) + rest == priority[0] + Flatten(priority[1..]) + rest;
    } else {
      assert Flatten(normal) == normal[0] + Flatten(normal[1..]);
      assert Flatten(priority) == [];
      assert SendOrder(None, priority, normal) == [] + [] + Flatten(normal);
      assert [] + [] + Flatten(normal) == normal[0] + [] + Flatten(normal[1..]);
    }
  }

  /** Writing the first `n` bytes of the frame in flight removes exactly
      those bytes from the front of the sending order. */
  lemma WrittenPrefix(frame: Bytes, n: nat, priority: seq<Bytes>, normal: seq<Bytes>)
    requires n <= |frame|
    ensures SendOrder(if n == |frame| then None else Some(frame[n..]), priority, normal)
            == SendOrder(Some(frame), priority, normal)[n..]
  {
    var rest := Flatten(priority) + Flatten(normal);
    assert SendOrder(Some(frame), priority, normal) == frame + rest;
    assert (frame + rest)[n..] == frame[n..] + rest;
  }


  /** Each frame writeMultiFramed queues reads back as the header
      MultiHeadersWith lists and carries its piece as payload. */
  lemma MultiFramesParse(pieces: seq<Bytes>, op: int, mask: bool, key: MaskKey, corrected: bool)
    requires op in {OPCODE_FRAME_TEXT, OPCODE_FRAME_BINARY}
    requires forall i :: 0 <= i < |pieces| ==> |pieces[i]| <= MAX_PHP_INT
    ensures var frames := MultiFramesWith(pieces, op, mask, key, corrected);
      var hs := MultiHeadersWith(pieces, op, mask, key, corrected);
      forall i :: 0 <= i < |pieces| ==>
        GetFrameHeaders(frames[i]) == Some(hs[i]) && GetFramePayload(frames[i], None) == Payload(pieces[i])
  {
    var frames := MultiFramesWith(pieces, op, mask, key, corrected);
    var hs := MultiHeadersWith(pieces, op, mask, key, corrected);
    forall i | 0 <= i < |pieces|
      ensures GetFrameHeaders(frames[i]) == Some(hs[i]) && GetFramePayload(frames[i], None) == Payload(pieces[i])
    {
      var opc := PieceOpcode(op, i, corrected);
      FrameHeaderRoundTrip(pieces[i], mask, key, opc, i == |pieces| - 1, false, false, false);
      FramePayloadRoundTrip(pieces[i], mask, key, opc, i == |pieces| - 1, false, false, false);
    }
  }

  /** writeMultiFramed with the continuation opcode on every piece after the
      first: the frames read back as a fragmented message (section 5.4 of RFC
      6455) that the receive loop hands over as the whole data, for binary
      data and for well-formed UTF-8 text. */
  lemma WriteMultiFramedDelivers(data: Bytes, op: int, size: nat, mask: bool, key: MaskKey)
    requires op in {OPCODE_FRAME_TEXT, OPCODE_FRAME_BINARY} && size >= 1 && |data| <= MAX_PHP_INT
    ensures var pieces := StrSplit(data, size);
      var frames := MultiFramesWith(pieces, op, mask, key, true);
      var hs := MultiHeadersWith(pieces, op, mask, key, true);
      && (forall i :: 0 <= i < |pieces| ==>
            GetFrameHeaders(frames[i]) == Some(hs[i]) && GetFramePayload(frames[i], None) == Payload(pieces[i]))
      && (op == OPCODE_FRAME_BINARY || WellFormedUtf8(data) ==> Feed(NoMessage, hs, pieces) == Delivered(Some(op), data))
      && (op == OPCODE_FRAME_TEXT && !WellFormedUtf8(data) ==> Feed(NoMessage, hs, pieces).Refused?)
  {
    var pieces := StrSplit(data, size);
    var hs := MultiHeadersWith(pieces, op, mask, key, true);
    MultiFramesParse(pieces, op, mask, key, true);
    assert FragmentHeaders(hs, op);
    FragmentedMessage(op, hs, pieces);
  }

  /** writeMultiFramed as written puts the message's opcode on every piece,
      so data longer than one piece reads back as a new message started
      while one is in progress, which the receive loop refuses (with 1002
      for binary data). */
  lemma WriteMultiFramedAsWrittenRefused(data: Bytes, op: int, size: nat, mask: bool, key: MaskKey)
    requires op in {OPCODE_FRAME_TEXT, OPCODE_FRAME_BINARY} && size >= 1 && |data| <= MAX_PHP_INT
    requires |data| > size
    ensures var pieces := StrSplit(data, size);
      var frames := MultiFramesWith(pieces, op, mask, key, false);
      var hs := MultiHeadersWith(pieces, op, mask, key, false);
      && (forall i :: 0 <= i < |pieces| ==> GetFrameHeaders(frames[i]) == Some(hs[i]))
      && Feed(NoMessage, hs, pieces).Refused?
      && (op == OPCODE_FRAME_BINARY ==> Feed(NoMessage, hs, pieces).code == CLOSECODE_PROTOCOL_ERROR)
  {
    var pieces := StrSplit(data, size);
    var hs := MultiHeadersWith(pieces, op, mask, key, false);
    MultiFramesParse(pieces, op, mask, key, false);
    var first := DataFrame(NoMessage, hs[0], pieces[0], false, true);
    if first.Pending? {
      assert first.next.partial.Some?;
      var second := DataFrame(first.next, hs[1], pieces[1], false, true);
      assert second.Refused?;
      assert Feed(first.next, hs[1..], pieces[1..]) == second;
    }
  }

  /** What a stream container in the update loop is: a connection, or the
      accepting connection of a server. */
  datatype Container = Conn(c: Connection) | Accepting(s: Server)

  /** The keys of `keys` below `bound`, in increasing order. */
  function Ascending(keys: set<nat>, bound: nat): (r: seq<nat>)
    ensures forall i :: 0 <= i < |r| ==> r[i] in keys && r[i] < bound
    ensures forall k :: k in keys && k < bound ==> k in r
    ensures forall i, j :: 0 <= i < j < |r| ==> r[i] < r[j]
    decreases bound
  {
    if bound == 0 then []
    else Ascending(keys, bound - 1) + (if bound - 1 in keys then [bound - 1] else [])
  }

  /** The table's connections as the containers stream selection sees. */
  function Wrap(cs: seq<Connection>): (r: seq<Container>)
    ensures |r| == |cs|
    ensures forall i :: 0 <= i < |cs| ==> r[i] == Conn(cs[i])
    ensures forall c :: c in cs ==> Conn(c) in r
  {
    seq(|cs|, i requires 0 <= i < |cs| => Conn(cs[i]))
  }

  /** The loop of disconnectAll over distinct connections: each is sent a
      close and waits the default time for the answer. */
  method SendDisconnects(table: seq<Connection>, code: int, reason: Bytes, now: int, key: MaskKey)
    requires |reason| <= MAX_PHP_INT - 2
    requires forall j, l :: 0 <= j < l < |table| ==> table[j] != table[l]
    requires forall j :: 0 <= j < |table| ==> table[j].Valid()
    modifies set j | 0 <= j < |table| :: table[j]
    ensures forall j :: 0 <= j < |table| ==>
      && table[j].SentClose(code, reason, DISCONNECT_TIMEOUT, now, key)
      && table[j].SameReading() && table[j].SameStatus() && table[j].Valid()
  {
    var i := 0;
    while i < |table|
      invariant 0 <= i <= |table|
      invariant forall j :: 0 <= j < i ==> table[j].SentClose(code, reason, DISCONNECT_TIMEOUT, now, key)
      invariant forall j :: 0 <= j < i ==> table[j].SameReading() && table[j].SameStatus() && table[j].Valid()
      invariant forall j :: i <= j < |table| ==> unchanged(table[j])
    {
      table[i].SendDisconnect(code, reason, DISCONNECT_TIMEOUT, now, key);
      i := i + 1;
    }
  }

  /** The loop of the server's close over the connections of its table,
      listed under distinct indices: each is closed; an accepted one stays
      in the table while its close is still to be reported, any other
      leaves it. */
  method CloseEach(server: Server, table: seq<Connection>)
    requires server.Valid()
    requires forall j, l :: 0 <= j < l < |table| ==> table[j].index != table[l].index
    requires forall j :: 0 <= j < |table| ==>
      table[j].Valid() && table[j].server == server && table[j].index in server.connections
    modifies server, set j | 0 <= j < |table| :: table[j]
    ensures server.Valid() && server.SameSetup()
    ensures forall j :: 0 <= j < |table| ==>
      && table[j].isClosed && !table[j].hasStream && table[j].Valid()
      && table[j].accepted == old(table[j].accepted)
      && table[j].shouldReportClose == ((old(table[j].shouldReportClose) || !old(table[j].isClosed)) && table[j].accepted)
      && (table[j].index in server.connections <==> table[j].shouldReportClose)
    ensures forall k :: k in server.connections ==>
      k in old(server.connections) && server.connections[k] == old(server.connections)[k]
  {
    var i := 0;
    while i < |table|
      invariant 0 <= i <= |table|
      invariant server.Valid() && server.SameSetup()
      invariant forall j :: 0 <= j < i ==>
        && table[j].isClosed && !table[j].hasStream && table[j].Valid()
        && table[j].accepted == old(table[j].accepted)
        && table[j].shouldReportClose == ((old(table[j].shouldReportClose) || !old(table[j].isClosed)) && table[j].accepted)
        && (table[j].index in server.connections <==> table[j].shouldReportClose)
      invariant forall j :: i <= j < |table| ==> unchanged(table[j]) && table[j].index in server.connections
      invariant forall k :: k in server.connections ==>
        k in old(server.connections) && server.connections[k] == old(server.connections)[k]
    {
      table[i].Close();
      i := i + 1;
    }
  }

  class Server {
    /** `_connections`: the table, keyed by each connection's index. */
    var connections: map<nat, Connection>
    /** `_connectionIndex`: the index the next connection is stored under. */
    var connectionIndex: nat
    /** `_serverIdentifier`: the Server header's value, when set. */
    var serverIdentifier: Option<Bytes>
    var autoAccept: bool
    /** The accepting connection's identity, while the server has one. */
    var acceptingConnection: Option<nat>
    /** Whether the accepting connection's stream is open. */
    var acceptingOpen: bool
    /** The library version the default identifier names. */
    const version: Bytes
    /** The settings every connection of this server is created with. */
    const settings: Settings
    /** sha1() as raw bytes, outside the model. */
    const sha1: Bytes -> Digest
    /** base64_encode(), outside the model. */
    const base64: Bytes -> Bytes

    /** Every stored index was handed out before, and the connection stored
        under an index is a server-side connection of this server with that
        index; so no connection is stored twice. */
    predicate Valid()
      reads this
    {
      forall k :: k in connections ==>
        && k < connectionIndex
        && connections[k].index == k
        && connections[k].server == this
        && connections[k].role == ServerSide
    }

    /** Every connection in the table keeps its own invariant. */
    predicate AllValid()
      reads this, set k | k in connections :: connections[k]
    {
      forall k :: k in connections ==> connections[k].Valid()
    }

    /** The parts of the server a connection's close leaves alone. */
    twostate predicate SameSetup()
      reads this
    {
      && connectionIndex == old(connectionIndex)
      && serverIdentifier == old(serverIdentifier)
      && autoAccept == old(autoAccept)
      && acceptingConnection == old(acceptingConnection)
      && acceptingOpen == old(acceptingOpen)
    }

    /** A server with an empty table, accepting through the given accepting
        connection (binding the socket is outside the model). */
    constructor (accepting: Option<nat>, version: Bytes, settings: Settings, sha1: Bytes -> Digest, base64: Bytes -> Bytes)
      ensures Valid() && AllValid()
      ensures connections == map[] && connectionIndex == 0 && serverIdentifier.None? && autoAccept
      ensures acceptingConnection == accepting && acceptingOpen == accepting.Some?
      ensures this.version == version && this.settings == settings && this.sha1 == sha1 && this.base64 == base64
    {
      connections := map[];
      connectionIndex := 0;
      serverIdentifier := None;
      autoAccept := true;
      acceptingConnection := accepting;
      acceptingOpen := accepting.Some?;
      this.version := version;
      this.settings := settings;
      this.sha1 := sha1;
      this.base64 := base64;
    }

    /** getServerIdentifier: the identifier set, else the library's name and
        version. */
    function Identifier(): Bytes
      reads this
    {
      if serverIdentifier.Some? then serverIdentifier.value else Str("PHPWebSockets/") + version
    }

    /** setServerIdentifier. */
    method SetServerIdentifier(identifier: Option<Bytes>)
      modifies this
      ensures serverIdentifier == identifier && connections == old(connections)
      ensures identifier.Some? ==> Identifier() == identifier.value
      ensures connectionIndex == old(connectionIndex) && autoAccept == old(autoAccept)
      ensures acceptingConnection == old(acceptingConnection) && acceptingOpen == old(acceptingOpen)
    {
      serverIdentifier := identifier;
    }

    /** setAutoAccept. */
    method SetAutoAccept(accept: bool)
      modifies this
      ensures autoAccept == accept && connections == old(connections)
      ensures connectionIndex == old(connectionIndex) && serverIdentifier == old(serverIdentifier)
      ensures acceptingConnection == old(acceptingConnection) && acceptingOpen == old(acceptingOpen)
    {
      autoAccept := accept;
    }

    /** getErrorPageForCode with the default fallback text. */
    function ErrorPageForCode(code: int): Bytes
      reads this
    {
      ErrorPage(code, Identifier())
    }

    /** The table in the order PHP iterates it: indices are handed out in
        increasing order and entries only ever appended, so insertion order
        is increasing index order. */
    function Order(): (r: seq<nat>)
      reads this
      ensures Valid() ==> forall k :: k in connections <==> k in r
      ensures forall i :: 0 <= i < |r| ==> r[i] in connections
      ensures forall i, j :: 0 <= i < j < |r| ==> r[i] < r[j]
    {
      Ascending(connections.Keys, connectionIndex)
    }

    /** The connections of the table, in order. */
    function Table(): (r: seq<Connection>)
      reads this
      ensures |r| == |Order()|
      ensures forall i :: 0 <= i < |r| ==> r[i] == connections[Order()[i]]
    {
      var order, m := Order(), connections;
      seq(|order|, i requires 0 <= i < |order| => m[order[i]])
    }

    /** Every connection of a valid table appears in the ordered table, and
        the ordered table lists them by increasing index. */
    lemma TableCovers()
      ensures Valid() ==> forall c :: c in connections.Values ==> c in Table()
      ensures Valid() ==> forall i, j :: 0 <= i < j < |Table()| ==> Table()[i].index < Table()[j].index
    {
      var order, table := Order(), Table();
      if Valid() {
        forall c | c in connections.Values
          ensures c in table
        {
          var k :| k in connections && connections[k] == c;
          assert k in order;
          var i :| 0 <= i < |order| && order[i] == k;
          assert table[i] == c;
        }
      }
    }

    /** getConnections: the table, with the accepting connection put first
        when asked for and when it exists and is open. */
    function GetConnections(includeAccepting: bool): (r: seq<Container>)
      reads this
      ensures var first := includeAccepting && acceptingConnection.Some? && acceptingOpen;
        var off := if first then 1 else 0;
        && |r| == |Order()| + off && (first ==> r[0] == Accepting(this))
        && (forall i :: off <= i < |r| ==> r[i].Conn? && r[i].c in connections.Values)
        && (Valid() ==> forall i, j :: off <= i < j < |r| ==> r[i].c.index < r[j].c.index)
      ensures Valid() ==> forall c :: c in connections.Values ==> Conn(c) in r
    {
      var first := includeAccepting && acceptingConnection.Some? && acceptingOpen;
      TableCovers();
      (if first then [Accepting(this)] else []) + Wrap(Table())
    }

    /** removeConnection on a connection that is already closed: only its own
        entry is unset (the close it would make is skipped). */
    method Unlist(c: Connection)
      requires Valid()
      modifies this
      ensures Valid() && SameSetup()
      ensures connections == old(connections) - {c.index}
    {
      connections := connections - {c.index};
    }

    /** acceptNewConnection: refused without an accepting connection, and
        failing when no stream can be accepted (`socket` false); otherwise a
        new server-side connection, opened at `now` with the server's
        settings, is stored under the next index, which then moves on, and
        its arrival is reported. */
    method AcceptNewConnection(socket: bool, id: nat, now: int)
      returns (thrown: Option<Exception>, updates: seq<Update>, c: Connection?)
      requires Valid() && AllValid()
      modifies this
      ensures Valid() && AllValid()
      ensures serverIdentifier == old(serverIdentifier) && autoAccept == old(autoAccept)
      ensures acceptingConnection == old(acceptingConnection) && acceptingOpen == old(acceptingOpen)
      ensures acceptingConnection.None? ==> thrown == Some(LogicException)
      ensures acceptingConnection.Some? && !socket ==> thrown == Some(RuntimeException)
      ensures thrown.Some? ==> updates == [] && c == null
                               && connections == old(connections) && connectionIndex == old(connectionIndex)
      ensures acceptingConnection.Some? && socket ==>
        && thrown.None? && c != null && fresh(c)
        && connections == old(connections)[old(connectionIndex) := c]
        && connectionIndex == old(connectionIndex) + 1
        && c.index == old(connectionIndex) && c.id == id && c.server == this && c.role == ServerSide
        && c.IsOpen() && !c.hasHandshake && !c.accepted && c.openedTimestamp == Some(now)
        && c.framesBuffer == [] && c.priorityFramesBuffer == [] && c.writeBuffer.None?
        && updates == [ReadEvent(R.C_NEW_TCP_CONNECTION, id)]
    {
      updates := [];
      c := null;
      if acceptingConnection.None? {
        thrown := Some(LogicException);
        return;
      }
      if !socket {
        thrown := Some(RuntimeException);
        return;
      }
      c := new Connection.Accepted(this, connectionIndex, id, now, settings);
      connections := connections[connectionIndex := c];
      connectionIndex := connectionIndex + 1;
      updates := [ReadEvent(R.C_NEW_TCP_CONNECTION, id)];
      thrown := None;
    }

    /** gotNewConnection: without automatic accepting, the waiting socket is
        only reported, as coming from the accepting connection; otherwise it
        is accepted. */
    method GotNewConnection(socket: bool, id: nat, now: int)
      returns (thrown: Option<Exception>, updates: seq<Update>, c: Connection?)
      requires Valid() && AllValid()
      modifies this
      ensures Valid() && AllValid()
      ensures serverIdentifier == old(serverIdentifier) && autoAccept == old(autoAccept)
      ensures acceptingConnection == old(acceptingConnection) && acceptingOpen == old(acceptingOpen)
      ensures !autoAccept ==>
        && thrown.None? && c == null
        && updates == [Read(R.C_NEW_TCP_CONNECTION_AVAILABLE, acceptingConnection, None, None, None)]
        && connections == old(connections) && connectionIndex == old(connectionIndex)
      ensures autoAccept && acceptingConnection.None? ==> thrown == Some(LogicException)
      ensures autoAccept && acceptingConnection.Some? && !socket ==> thrown == Some(RuntimeException)
      ensures thrown.Some? ==> updates == [] && c == null
                               && connections == old(connections) && connectionIndex == old(connectionIndex)
      ensures autoAccept && acceptingConnection.Some? && socket ==>
        && thrown.None? && c != null && fresh(c)
        && connections == old(connections)[old(connectionIndex) := c]
        && connectionIndex == old(connectionIndex) + 1
        && c.index == old(connectionIndex) && c.id == id && c.server == this
        && updates == [ReadEvent(R.C_NEW_TCP_CONNECTION, id)]
    {
      if !autoAccept {
        thrown, c := None, null;
        updates := [Read(R.C_NEW_TCP_CONNECTION_AVAILABLE, acceptingConnection, None, None, None)];
      } else {
        thrown, updates, c := AcceptNewConnection(socket, id, now);
      }
    }

    /** removeConnection: a connection of another server is refused; an
        open connection is closed first when asked to (its close may already
        drop it from the table), and its entry is unset. */
    method RemoveConnection(c: Connection, closeConnection: bool) returns (thrown: Option<Exception>)
      requires Valid() && c.Valid()
      modifies this, c
      ensures Valid() && c.Valid()
      ensures c.server != this ==> thrown == Some(LogicException) && connections == old(connections) && unchanged(c)
      ensures c.server == this ==> thrown.None? && connections == old(connections) - {c.index}
      ensures c.server == this && closeConnection && old(c.IsOpen()) ==>
        && c.isClosed && !c.hasStream
        && c.shouldReportClose == (c.role == ClientSide || c.accepted)
      ensures c.server == this && !(closeConnection && old(c.IsOpen())) ==> unchanged(c)
      ensures SameSetup()
    {
      if c.server != this {
        return Some(LogicException);
      }
      if closeConnection && c.IsOpen() {
        c.Close();
      }
      connections := connections - {c.index};
      thrown := None;
    }

    /** close: every connection of the table is closed, an accepted one
        staying in the table while its close is still to be reported and
        any other leaving it; then the accepting connection is closed and
        dropped. */
    method Close()
      requires Valid() && AllValid()
      modifies this, set k | k in connections :: connections[k]
      ensures Valid() && acceptingConnection.None? && !acceptingOpen
      ensures connectionIndex == old(connectionIndex) && serverIdentifier == old(serverIdentifier)
      ensures autoAccept == old(autoAccept)
      ensures forall k :: k in old(connections) ==>
        var c := old(connections)[k];
        && c.isClosed && !c.hasStream && c.Valid() && c.accepted == old(c.accepted)
        && c.shouldReportClose == ((old(c.shouldReportClose) || !old(c.isClosed)) && c.accepted)
        && (k in connections <==> c.shouldReportClose)
      ensures forall k :: k in connections ==> k in old(connections) && connections[k] == old(connections)[k]
    {
      var table := Table();
      TableCovers();
      CloseEach(this, table);
      forall k | k in old(connections)
        ensures var c := old(connections)[k];
          && c.isClosed && !c.hasStream && c.Valid() && c.accepted == old(c.accepted)
          && c.shouldReportClose == ((old(c.shouldReportClose) || !old(c.isClosed)) && c.accepted)
          && (k in connections <==> c.shouldReportClose)
      {
        assert old(connections)[k] in old(connections).Values;
        var j :| 0 <= j < |table| && table[j] == old(connections)[k];
      }
      acceptingConnection := None;
      acceptingOpen := false;
    }

    /** disconnectAll: every connection of the table is sent a close with
        the code and reason, and waits the default ten seconds for the
        answer. */
    method DisconnectAll(code: int, reason: Bytes, now: int, key: MaskKey)
      requires Valid() && AllValid() && |reason| <= MAX_PHP_INT - 2
      modifies set k | k in connections :: connections[k]
      ensures AllValid()
      ensures forall k :: k in connections ==>
        && connections[k].SentClose(code, reason, DISCONNECT_TIMEOUT, now, key)
        && connections[k].SameReading() && connections[k].SameStatus()
    {
      var table := Table();
      TableCovers();
      SendDisconnects(table, code, reason, now, key);
      forall k | k in connections
        ensures connections[k].SentClose(code, reason, DISCONNECT_TIMEOUT, now, key)
        ensures connections[k].SameReading() && connections[k].SameStatus() && connections[k].Valid()
      {
        assert connections[k] in connections.Values;
        var j :| 0 <= j < |table| && table[j] == connections[k];
      }
    }
  }
}
