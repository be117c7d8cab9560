// The per-frame rules of the receive loop: how a data frame extends, finishes
// or breaks the message being assembled (sections 5.4 and 8.1 of RFC 6455),
// and what a received close frame is answered with (sections 5.5.1 and 7.4).

module FrameRules {
  import opened Wrappers
  import opened Bytes
  import opened Protocol
  import opened Framer
  import opened Utf8
  import UpdateError

  /** The message being assembled: the opcode of its first frame, the bytes
      received so far and the UTF-8 validator's state (the source's
      `_partialMessageOpcode`, `_partialMessage` and `_utfValidationState`). */
  datatype Message = Message(opcode: Option<int>, partial: Option<Bytes>, utf: State)

  /** The state `_resetFrameData` leaves. */
  const NoMessage: Message := Message(None, None, UTF8_ACCEPT)

  /** What the receive loop keeps true between frames: a message is either
      absent (validator at ACCEPT) or a text or binary message in progress;
      the validator state of a text message is the state after its bytes so
      far, which is never REJECT; a binary message leaves it at ACCEPT. */
  predicate Consistent(m: Message)
  {
    (m.opcode.Some? <==> m.partial.Some?)
    && (m.opcode.None? ==> m.utf == UTF8_ACCEPT)
    && (m.opcode.Some? ==> m.opcode.value in {OPCODE_FRAME_TEXT, OPCODE_FRAME_BINARY})
    && (m.opcode == Some(OPCODE_FRAME_BINARY) ==> m.utf == UTF8_ACCEPT)
    && (m.opcode == Some(OPCODE_FRAME_TEXT) ==> m.utf == Run(UTF8_ACCEPT, m.partial.value) && m.utf != UTF8_REJECT)
  }

  /** What one continuation, text or binary frame does:
      - Refused: a close with `code` and `reason` is queued, the error event
        `error` is emitted, the pass ends and the message state becomes `left`;
      - Dropped: the peer already sent close; the message is discarded and the
        pass ends;
      - Pending: the frame was appended, the message goes on as `next`;
      - Delivered: the frame finished the message, which is handed over; the
        message state is reset. */
  datatype DataOutcome =
    | Refused(code: int, reason: Bytes, error: int, left: Message)
    | Dropped
    | Pending(next: Message)
    | Delivered(opcode: Option<int>, message: Bytes)

  /** The reasons the receive loop closes with when it refuses a data frame. */
  const NO_MESSAGE_TO_CONTINUE: Bytes := Str("Got OPCODE_CONTINUE but no ") + Str("frame that could be continued")
  const INVALID_UTF8: Bytes := Str("Could not decode text frame as UTF-8")
  const UNFINISHED_MESSAGE: Bytes := Str("Got new frame without ") + Str("completing the previous")

  /** `$this->_partialMessageOpcode ?: $opcode`: the opcode that decides
      whether the frame is text. */
  function MessageOpcode(m: Message, h: Header): int
  {
    if m.opcode.Some? && m.opcode.value != 0 then m.opcode.value else h.opcode
  }

  /** The data-frame branch of the receive loop. `accepts` is what the
      new-message callback answers for this header (true when none is set).
      `commitOnRefusal` chooses whether the validator state the frame reached
      is kept when the frame is refused: the source keeps it (see
      DataFrameAsWritten), the model keeps the state of the message as it was
      (DataFrame). */
  function DataFrameWith(m: Message, h: Header, payload: Bytes, remoteClosed: bool, accepts: bool, commitOnRefusal: bool): DataOutcome
  {
    if h.opcode == OPCODE_CONTINUE && m.partial.None? then
      Refused(CLOSECODE_PROTOCOL_ERROR, NO_MESSAGE_TO_CONTINUE, UpdateError.C_READ_PROTOCOL_ERROR, m)
    else if remoteClosed then Dropped
    else
      var textual := MessageOpcode(m, h) == OPCODE_FRAME_TEXT;
      var utf := if textual then Run(m.utf, payload) else m.utf;
      var left := if commitOnRefusal then m.(utf := utf) else m;
      if textual && ((payload != [] && utf == UTF8_REJECT) || (h.fin && utf != UTF8_ACCEPT)) then
        Refused(CLOSECODE_INVALID_PAYLOAD, INVALID_UTF8, UpdateError.C_READ_INVALID_PAYLOAD, left)
      else if h.opcode != OPCODE_CONTINUE && m.partial.Some? then
        Refused(CLOSECODE_PROTOCOL_ERROR, UNFINISHED_MESSAGE, UpdateError.C_READ_INVALID_PAYLOAD, left)
      else if h.opcode != OPCODE_CONTINUE && !accepts then
        Refused(CLOSECODE_UNSUPPORTED_PAYLOAD, [], UpdateError.C_READ_NO_STREAM_FOR_NEW_MESSAGE, left)
      else
        var op := if h.opcode != OPCODE_CONTINUE then Some(h.opcode) else m.opcode;
        var body := (if h.opcode != OPCODE_CONTINUE then [] else m.partial.value) + payload;
        if h.fin then Delivered(op, body) else Pending(Message(op, Some(body), utf))
  }

  /** The data-frame branch as the source writes it: ValidateUTF8 updates
      `_utfValidationState` through its reference argument before the frame
      is accepted, so a refused text frame leaves the state it reached. */
  function DataFrameAsWritten(m: Message, h: Header, payload: Bytes, remoteClosed: bool, accepts: bool): DataOutcome
  {
    DataFrameWith(m, h, payload, remoteClosed, accepts, true)
  }

  /** The data-frame branch with the validator state committed only together
      with the bytes it describes. */
  function DataFrame(m: Message, h: Header, payload: Bytes, remoteClosed: bool, accepts: bool): (r: DataOutcome)
    ensures r.Refused? ==> r.left == m
  {
    DataFrameWith(m, h, payload, remoteClosed, accepts, false)
  }

  /** The errors of section 5.4 of RFC 6455: a continuation needs a message in
      progress and a new message needs none; either mistake is answered with
      1002. A frame that arrives after the peer's close is dropped. */
  lemma FragmentationErrors(m: Message, h: Header, payload: Bytes, remoteClosed: bool, accepts: bool)
    requires Consistent(m)
    requires h.opcode in {OPCODE_CONTINUE, OPCODE_FRAME_TEXT, OPCODE_FRAME_BINARY}
    ensures var r := DataFrame(m, h, payload, remoteClosed, accepts);
      && (h.opcode == OPCODE_CONTINUE && m.partial.None? ==> r.Refused? && r.code == CLOSECODE_PROTOCOL_ERROR)
      && ((h.opcode != OPCODE_CONTINUE && m.opcode == Some(OPCODE_FRAME_BINARY) && !remoteClosed)
            ==> r.Refused? && r.code == CLOSECODE_PROTOCOL_ERROR)
      && ((h.opcode != OPCODE_CONTINUE && m.opcode == Some(OPCODE_FRAME_TEXT) && !remoteClosed)
            ==> r.Refused? && r.code in {CLOSECODE_PROTOCOL_ERROR, CLOSECODE_INVALID_PAYLOAD})
      && (remoteClosed && !(h.opcode == OPCODE_CONTINUE && m.partial.None?) ==> r.Dropped?)
      && (r.Pending? || r.Delivered? ==> !remoteClosed && (h.opcode == OPCODE_CONTINUE <==> m.partial.Some?))
  {
  }

  /** The rule keeps its invariant: from a consistent message, the message it
      goes on with and the one a refusal leaves are consistent again. */
  lemma DataFrameConsistent(m: Message, h: Header, payload: Bytes, remoteClosed: bool, accepts: bool)
    requires Consistent(m)
    requires h.opcode in {OPCODE_CONTINUE, OPCODE_FRAME_TEXT, OPCODE_FRAME_BINARY}
    ensures var r := DataFrame(m, h, payload, remoteClosed, accepts);
      && (r.Pending? ==> Consistent(r.next))
      && (r.Refused? ==> Consistent(r.left))
  {
    var r := DataFrame(m, h, payload, remoteClosed, accepts);
    if r.Pending? && r.next.opcode == Some(OPCODE_FRAME_TEXT) {
      var before := if h.opcode != OPCODE_CONTINUE then [] else m.partial.value;
      RunConcat(UTF8_ACCEPT, before, payload);
    }
  }

  /** Section 8.1 of RFC 6455: a text message is handed over only if it is
      well-formed UTF-8, and the pieces handed over are exactly the message
      so far followed by the frame's payload. */
  lemma DeliveredText(m: Message, h: Header, payload: Bytes, remoteClosed: bool, accepts: bool)
    requires Consistent(m)
    requires h.opcode in {OPCODE_CONTINUE, OPCODE_FRAME_TEXT, OPCODE_FRAME_BINARY}
    ensures var r := DataFrame(m, h, payload, remoteClosed, accepts);
      && (r.Delivered? ==> r.message == (if h.opcode == OPCODE_CONTINUE then m.partial.value else []) + payload)
      && (r.Delivered? ==> r.opcode.Some? && r.opcode.value in {OPCODE_FRAME_TEXT, OPCODE_FRAME_BINARY})
      && (r.Delivered? && r.opcode == Some(OPCODE_FRAME_TEXT) ==> WellFormedUtf8(r.message))
  {
    var r := DataFrame(m, h, payload, remoteClosed, accepts);
    if r.Delivered? && r.opcode == Some(OPCODE_FRAME_TEXT) {
      var before := if h.opcode != OPCODE_CONTINUE then [] else m.partial.value;
      RunConcat(UTF8_ACCEPT, before, payload);
      AcceptsExactlyWellFormed(r.message);
    }
  }

  /** A final text frame, on a message that may take it, is handed over
      exactly when the whole message is well-formed UTF-8, and answered with
      1007 otherwise. */
  lemma FinalTextFrame(m: Message, h: Header, payload: Bytes)
    requires Consistent(m)
    requires h.fin
    requires (h.opcode == OPCODE_FRAME_TEXT && m.partial.None?)
          || (h.opcode == OPCODE_CONTINUE && m.opcode == Some(OPCODE_FRAME_TEXT))
    ensures var whole := (if m.partial.Some? then m.partial.value else []) + payload;
      var r := DataFrame(m, h, payload, false, true);
      && (WellFormedUtf8(whole) ==> r == Delivered(Some(OPCODE_FRAME_TEXT), whole))
      && (!WellFormedUtf8(whole) ==> r.Refused? && r.code == CLOSECODE_INVALID_PAYLOAD)
  {
    var before := if m.partial.Some? then m.partial.value else [];
    RunConcat(UTF8_ACCEPT, before, payload);
    AcceptsExactlyWellFormed(before + payload);
  }

  /** The headers of a message sent in `n` frames: the first carries `op`,
      the rest are continuations, and only the last is final. */
  predicate FragmentHeaders(hs: seq<Header>, op: int)
  {
    |hs| > 0
    && hs[0].opcode == op
    && (forall i :: 0 < i < |hs| ==> hs[i].opcode == OPCODE_CONTINUE)
    && (forall i :: 0 <= i < |hs| ==> (hs[i].fin <==> i == |hs| - 1))
  }

  /** Feeding frames one after the other, as long as each one leaves the
      message pending; the outcome of the last frame fed. */
  function Feed(m: Message, hs: seq<Header>, ps: seq<Bytes>): DataOutcome
    requires |hs| == |ps| > 0
    decreases |hs|
  {
    var r := DataFrame(m, hs[0], ps[0], false, true);
    if |hs| == 1 || !r.Pending? then r else Feed(r.next, hs[1..], ps[1..])
  }

  /** Fragmented messages (section 5.4 of RFC 6455): a text or binary message
      sent as frames of the given payloads is handed over as the payloads
      joined in arrival order; a text message is handed over exactly when
      that join is well-formed UTF-8 and refused with 1007 otherwise. */
  lemma FragmentedMessage(op: int, hs: seq<Header>, ps: seq<Bytes>)
    requires op in {OPCODE_FRAME_TEXT, OPCODE_FRAME_BINARY}
    requires FragmentHeaders(hs, op) && |ps| == |hs|
    ensures op == OPCODE_FRAME_BINARY || WellFormedUtf8(Flatten(ps)) ==> Feed(NoMessage, hs, ps) == Delivered(Some(op), Flatten(ps))
    ensures (op == OPCODE_FRAME_TEXT && !WellFormedUtf8(Flatten(ps)))
      ==> (Feed(NoMessage, hs, ps).Refused? && Feed(NoMessage, hs, ps).code == CLOSECODE_INVALID_PAYLOAD)
  {
    if |hs| == 1 {
      assert Flatten(ps) == ps[0];
      SingleFrameMessage(op, hs[0], ps[0]);
      assert Feed(NoMessage, hs, ps) == DataFrame(NoMessage, hs[0], ps[0], false, true);
    } else {
      assert Flatten(ps) == ps[0] + Flatten(ps[1..]);
      var r := FirstFragment(op, hs[0], ps[0]);
      if r.Pending? {
        Continuations(r.next, op, hs[1..], ps[1..]);
      } else {
        RejectedPrefix(ps[0], Flatten(ps[1..]));
      }
    }
  }

  /** A message sent as one final frame. */
  lemma SingleFrameMessage(op: int, h: Header, p: Bytes)
    requires op in {OPCODE_FRAME_TEXT, OPCODE_FRAME_BINARY}
    requires h.opcode == op && h.fin
    ensures var r := DataFrame(NoMessage, h, p, false, true);
      && (op == OPCODE_FRAME_BINARY || WellFormedUtf8(p) ==> r == Delivered(Some(op), p))
      && (op == OPCODE_FRAME_TEXT && !WellFormedUtf8(p) ==> r.Refused? && r.code == CLOSECODE_INVALID_PAYLOAD)
  {
    assert [] + p == p;
    if op == OPCODE_FRAME_TEXT {
      FinalTextFrame(NoMessage, h, p);
    }
  }

  /** Bytes that drive the validator to REJECT cannot begin well-formed UTF-8. */
  lemma RejectedPrefix(p: Bytes, rest: Bytes)
    requires Run(UTF8_ACCEPT, p) == UTF8_REJECT
    ensures !WellFormedUtf8(p + rest)
  {
    RunConcat(UTF8_ACCEPT, p, rest);
    RejectAbsorbs(rest);
    AcceptsExactlyWellFormed(p + rest);
  }

  /** The first frame of a fragmented message starts it, unless it is text
      whose bytes already cannot begin well-formed UTF-8. */
  lemma FirstFragment(op: int, h: Header, p: Bytes) returns (r: DataOutcome)
    requires op in {OPCODE_FRAME_TEXT, OPCODE_FRAME_BINARY}
    requires h.opcode == op && !h.fin
    ensures r == DataFrame(NoMessage, h, p, false, true)
    ensures r.Pending? ==> r.next.opcode == Some(op) && r.next.partial == Some(p) && Consistent(r.next)
    ensures !r.Pending? ==> op == OPCODE_FRAME_TEXT && Run(UTF8_ACCEPT, p) == UTF8_REJECT
    ensures !r.Pending? ==> r.Refused? && r.code == CLOSECODE_INVALID_PAYLOAD
  {
    r := DataFrame(NoMessage, h, p, false, true);
    assert [] + p == p;
    if op == OPCODE_FRAME_TEXT && Run(UTF8_ACCEPT, p) == UTF8_REJECT {
      assert p != [];
    }
  }

  /** The continuation frames of a message already in progress with bytes
      `acc`: the message handed over is `acc` followed by their payloads, or,
      for text, a 1007 refusal when that is not well-formed UTF-8. */
  lemma {:induction false} Continuations(m: Message, op: int, hs: seq<Header>, ps: seq<Bytes>)
    requires Consistent(m) && m.opcode == Some(op)
    requires |hs| == |ps| > 0
    requires forall i :: 0 <= i < |hs| ==> hs[i].opcode == OPCODE_CONTINUE
    requires forall i :: 0 <= i < |hs| ==> (hs[i].fin <==> i == |hs| - 1)
    ensures var whole := m.partial.value + Flatten(ps);
      && (op == OPCODE_FRAME_BINARY || WellFormedUtf8(whole) ==> Feed(m, hs, ps) == Delivered(Some(op), whole))
      && ((op == OPCODE_FRAME_TEXT && !WellFormedUtf8(whole))
            ==> (Feed(m, hs, ps).Refused? && Feed(m, hs, ps).code == CLOSECODE_INVALID_PAYLOAD))
    decreases |hs|
  {
    var acc := m.partial.value;
    var whole := acc + Flatten(ps);
    assert Flatten(ps) == ps[0] + Flatten(ps[1..]);
    assert whole == (acc + ps[0]) + Flatten(ps[1..]);
    var r := DataFrame(m, hs[0], ps[0], false, true);
    if |hs| == 1 {
      assert Flatten(ps[1..]) == [];
      assert whole == acc + ps[0];
      if op == OPCODE_FRAME_TEXT {
        FinalTextFrame(m, hs[0], ps[0]);
      }
    } else if op == OPCODE_FRAME_BINARY {
      assert r == Pending(Message(Some(op), Some(acc + ps[0]), UTF8_ACCEPT));
      Continuations(r.next, op, hs[1..], ps[1..]);
    } else {
      var s := Run(m.utf, ps[0]);
      RunConcat(UTF8_ACCEPT, acc, ps[0]);
      RunConcat(UTF8_ACCEPT, acc + ps[0], Flatten(ps[1..]));
      AcceptsExactlyWellFormed(whole);
      if s == UTF8_REJECT {
        RejectAbsorbs(Flatten(ps[1..]));
        assert ps[0] != [];
      } else {
        assert r == Pending(Message(Some(op), Some(acc + ps[0]), s));
        Continuations(r.next, op, hs[1..], ps[1..]);
      }
    }
  }

  /** A frame whose only role in the examples below is its opcode, its final
      flag and its length. */
  function PlainHeader(opcode: int, fin: bool, length: nat): Header
  {
    Header(fin, false, false, false, opcode, false, length, None, 2)
  }

  /** The refused frame stays first in the read buffer (the loop advances
      past a frame only once it is handled), so it is handled again on the
      next read. As written, the first pass leaves the validator in the state
      after the refused bytes, and the second pass then accepts the frame:
      the text message E2 82 (a truncated three-byte character) is handed
      over. */
  lemma StaleValidatorAsWritten()
    ensures var started := DataFrameAsWritten(NoMessage, PlainHeader(OPCODE_FRAME_TEXT, false, 1), [0xE2], false, true);
      var last := PlainHeader(OPCODE_CONTINUE, true, 1);
      && started.Pending?
      && var first := DataFrameAsWritten(started.next, last, [0x82], false, true);
      && first.Refused? && first.code == CLOSECODE_INVALID_PAYLOAD
      && DataFrameAsWritten(first.left, last, [0x82], false, true) == Delivered(Some(OPCODE_FRAME_TEXT), [0xE2, 0x82])
      && !WellFormedUtf8([0xE2, 0x82])
  {
    assert Run(UTF8_ACCEPT, [0xE2]) == 3;
    assert Run(3, [0x82]) == 2;
    assert Run(2, [0x82]) == UTF8_ACCEPT;
    assert [0xE2, 0x82][1..] == [0x82];
    assert [0x82][1..] == [];
    assert Run(UTF8_ACCEPT, [0xE2, 0x82]) == 2;
    AcceptsExactlyWellFormed([0xE2, 0x82]);
  }

  /** With the state committed only together with its bytes, handling the
      refused frame again refuses it again. */
  lemma StaleValidatorCorrected()
    ensures var started := DataFrame(NoMessage, PlainHeader(OPCODE_FRAME_TEXT, false, 1), [0xE2], false, true);
      var last := PlainHeader(OPCODE_CONTINUE, true, 1);
      && started.Pending?
      && var first := DataFrame(started.next, last, [0x82], false, true);
      && first.Refused? && first.code == CLOSECODE_INVALID_PAYLOAD
      && first.left == started.next
      && DataFrame(first.left, last, [0x82], false, true) == first
  {
    assert Run(UTF8_ACCEPT, [0xE2]) == 3;
    assert Run(3, [0x82]) == 2;
  }

  // Close frames.

  /** The payload of the close frame sendDisconnect queues: pack('n') of the
      code (its low 16 bits) followed by the reason. */
  function ClosePayload(code: int, reason: Bytes): (p: Bytes)
    ensures |p| == 2 + |reason| && p[2..] == reason
  {
    ToBE(code % 65536, 2) + reason
  }

  /** The code and reason a received close frame is echoed with. */
  datatype CloseEcho = CloseEcho(code: int, reason: Bytes)

  /** The close branch of the receive loop: the peer's code when its payload
      has one, else 1000; 1002 with an explanation when the code may not be
      received or the reason is not UTF-8 (section 7.4.1 and 5.5.1 of RFC
      6455). */
  function CloseReply(payload: Bytes): (r: CloseEcho)
  {
    if |payload| <= 1 then CloseEcho(CLOSECODE_NORMAL, [])
    else
      var code := FromBE(payload[..2]);
      if !IsValidCloseCode(code, true) then
        CloseEcho(CLOSECODE_PROTOCOL_ERROR, Str("Invalid close code provided: ") + Decimal(code))
      else if !IsValidUtf8(payload[2..]) then
        CloseEcho(CLOSECODE_PROTOCOL_ERROR, Str("Received Non-UTF8 close frame payload"))
      else CloseEcho(code, payload[2..])
  }

  /** A byte string of ASCII characters is well-formed UTF-8. */
  lemma {:induction false} AsciiIsUtf8(s: Bytes)
    requires forall i :: 0 <= i < |s| ==> s[i] < 128
    ensures WellFormedUtf8(s)
    decreases |s|
  {
    if s != [] {
      assert s[..1] == [s[0]];
      AsciiIsUtf8(s[1..]);
    }
  }

  lemma DecimalAscii(n: nat)
    ensures forall i :: 0 <= i < |Decimal(n)| ==> Decimal(n)[i] < 128
  {
    DecimalDigits(n);
  }

  lemma InvalidCodeReasonIsUtf8(code: nat)
    ensures WellFormedUtf8(Str("Invalid close code provided: ") + Decimal(code))
  {
    var prefix := Str("Invalid close code provided: ");
    DecimalAscii(code);
    assert forall i :: 0 <= i < |prefix| ==> prefix[i] < 128;
    AsciiIsUtf8(prefix + Decimal(code));
  }

  lemma NonUtf8ReasonIsUtf8()
    ensures WellFormedUtf8(Str("Received Non-UTF8 close frame payload"))
  {
    var text := Str("Received Non-UTF8 close frame payload");
    assert forall i :: 0 <= i < |text| ==> text[i] < 128;
    AsciiIsUtf8(text);
  }

  /** The echo is always a legal close frame body: a code a peer may send and
      a well-formed UTF-8 reason, whatever the peer sent. */
  lemma CloseReplyIsSendable(payload: Bytes)
    ensures IsValidCloseCode(CloseReply(payload).code, true)
    ensures WellFormedUtf8(CloseReply(payload).reason)
  {
    var r := CloseReply(payload);
    if |payload| <= 1 {
      AsciiIsUtf8([]);
    } else {
      var code := FromBE(payload[..2]);
      if !IsValidCloseCode(code, true) {
        InvalidCodeReasonIsUtf8(code);
      } else if !IsValidUtf8(payload[2..]) {
        NonUtf8ReasonIsUtf8();
      } else {
        AcceptsExactlyWellFormed(payload[2..]);
      }
    }
  }

  /** Sender and receiver agree: the close frame sendDisconnect builds for a
      code a peer may send and a UTF-8 reason is echoed with that same code
      and reason. */
  lemma CloseRoundTrip(code: int, reason: Bytes)
    requires IsValidCloseCode(code, true) && WellFormedUtf8(reason)
    ensures CloseReply(ClosePayload(code, reason)) == CloseEcho(code, reason)
  {
    var p := ClosePayload(code, reason);
    assert code % 65536 == code;
    assert p[..2] == ToBE(code, 2);
    FromBEToBE(code, 2);
    AcceptsExactlyWellFormed(reason);
  }

  /** A close frame without a code is answered with 1000 and no reason; a
      refused code or a reason that is not UTF-8 with 1002. */
  lemma CloseReplyDefaults(payload: Bytes)
    ensures |payload| <= 1 ==> CloseReply(payload) == CloseEcho(CLOSECODE_NORMAL, [])
    ensures |payload| >= 2 && (!IsValidCloseCode(FromBE(payload[..2]), true) || !WellFormedUtf8(payload[2..]))
      ==> CloseReply(payload).code == CLOSECODE_PROTOCOL_ERROR
  {
    if |payload| >= 2 {
      AcceptsExactlyWellFormed(payload[2..]);
    }
  }

  /** A close the connection may queue: a code a peer may receive and a
      UTF-8 reason (sections 7.4.1 and 5.5.1 of RFC 6455). */
  predicate Sendable(c: CloseEcho)
  {
    IsValidCloseCode(c.code, true) && WellFormedUtf8(c.reason)
  }

  /** A fixed ASCII text is well-formed UTF-8. */
  lemma AsciiTextIsUtf8(text: string)
    requires forall i :: 0 <= i < |text| ==> text[i] as int < 128
    ensures WellFormedUtf8(Str(text))
  {
    AsciiIsUtf8(Str(text));
  }

  /** Two fixed ASCII texts one after the other are well-formed UTF-8. */
  lemma AsciiPairIsUtf8(a: string, b: string)
    requires forall i :: 0 <= i < |a| ==> a[i] as int < 128
    requires forall i :: 0 <= i < |b| ==> b[i] as int < 128
    ensures WellFormedUtf8(Str(a) + Str(b))
  {
    AsciiIsUtf8(Str(a) + Str(b));
  }

  lemma RefusalReasonsAreUtf8()
    ensures WellFormedUtf8(NO_MESSAGE_TO_CONTINUE)
    ensures WellFormedUtf8(INVALID_UTF8)
    ensures WellFormedUtf8(UNFINISHED_MESSAGE)
  {
    NoMessageReasonIsUtf8();
    AsciiTextIsUtf8("Could not decode text frame as UTF-8");
    UnfinishedReasonIsUtf8();
  }

  lemma NoMessageReasonIsUtf8()
    ensures WellFormedUtf8(NO_MESSAGE_TO_CONTINUE)
  {
    AsciiPairIsUtf8("Got OPCODE_CONTINUE but no ", "frame that could be continued");
  }

  lemma UnfinishedReasonIsUtf8()
    ensures WellFormedUtf8(UNFINISHED_MESSAGE)
  {
    AsciiPairIsUtf8("Got new frame without ", "completing the previous");
  }

  /** Every refusal of a data frame queues a legal close with a short reason. */
  lemma RefusalIsSendable(m: Message, h: Header, payload: Bytes, remoteClosed: bool, accepts: bool)
    ensures var r := DataFrame(m, h, payload, remoteClosed, accepts);
      r.Refused? ==> Sendable(CloseEcho(r.code, r.reason)) && |r.reason| <= 125
  {
    RefusalReasonsAreUtf8();
    AsciiIsUtf8([]);
  }

  lemma {:induction false} DecimalLength(n: nat)
    ensures |Decimal(n)| <= n + 1
  {
    if n >= 10 {
      DecimalLength(n / 10);
    }
  }

  /** The echo's reason is never much longer than the payload it answers. */
  lemma CloseReplyBounded(payload: Bytes)
    ensures |CloseReply(payload).reason| <= |payload| + 0x1_0020
  {
    if |payload| >= 2 {
      var code := FromBE(payload[..2]);
      assert Pow256(2) == 0x1_0000;
      DecimalLength(code);
    }
  }
}
