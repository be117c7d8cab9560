// The frame codec of section 5.2 of RFC 6455: header parsing, payload
// extraction with unmasking (section 5.3), and serialisation.

module Framer {
  import opened Wrappers
  import opened Bytes
  import opened Protocol

  /** The four-byte masking key; the source draws it from random_bytes(4),
      here it is a parameter. */
  type MaskKey = k: Bytes | |k| == 4 witness [0, 0, 0, 0]

  /** The parsed header of one frame. `length` is an `int` because the 64-bit
      form is read with a signed unpack in the source (see
      GetFrameHeadersAsWritten). */
  datatype Header = Header(
    fin: bool,
    rsv1: bool,
    rsv2: bool,
    rsv3: bool,
    opcode: int,
    mask: bool,
    length: int,
    maskingKey: Option<Bytes>,
    payloadOffset: nat)

  /** Masks over the first 16-bit word of a frame, taken big-endian. Each
      flag mask is a single bit, so `w & m != 0` is `HasBit(w, m)`. */
  const BYTE_FIN: nat := 0x8000
  const BYTE_RSV1: nat := 0x4000
  const BYTE_RSV2: nat := 0x2000
  const BYTE_RSV3: nat := 0x1000
  const BYTE_OPCODE: nat := 0x0F00
  const BYTE_MASKED: nat := 0x0080
  const BYTE_LENGTH: nat := 0x007F

  const MAX_PHP_INT: int := 0x7FFF_FFFF_FFFF_FFFF

  /** `w & m != 0` for a single-bit mask `m`. */
  predicate HasBit(w: nat, m: nat)
    requires m > 0
  {
    (w / m) % 2 == 1
  }

  /** unpack('n') of the first two bytes. */
  function FirstWord(frame: Bytes): (w: nat)
    requires |frame| >= 2
    ensures w < 0x1_0000
  {
    frame[0] as int * 256 + frame[1] as int
  }

  /** pack('n'): a 16-bit word as two big-endian bytes. */
  function Word(w: nat): (r: Bytes)
    requires w < 0x1_0000
    ensures |r| == 2 && r[0] == w / 256 && r[1] == w % 256
  {
    [w / 256, w % 256]
  }

  lemma FirstWordOfWord(w: nat, rest: Bytes)
    requires w < 0x1_0000
    ensures FirstWord(Word(w) + rest) == w
  {
  }

  /** Reading a signed 64-bit integer out of its unsigned value (unpack 'J'
      on a 64-bit PHP build). */
  function Signed64(u: nat): (v: int)
    requires u < Pow256(8)
    ensures u <= MAX_PHP_INT ==> v == u
    ensures u > MAX_PHP_INT ==> v < 0
  {
    Pow256Eight();
    if u <= MAX_PHP_INT then u else u - 0x1_0000_0000_0000_0000
  }

  lemma Pow256Eight()
    ensures Pow256(2) == 0x1_0000
    ensures Pow256(8) == 0x1_0000_0000_0000_0000
  {
    assert Pow256(2) == 256 * Pow256(1);
    assert Pow256(8) == 256 * Pow256(7);
    assert Pow256(7) == 256 * Pow256(6);
    assert Pow256(6) == 256 * Pow256(5);
    assert Pow256(5) == 256 * Pow256(4);
    assert Pow256(4) == 256 * Pow256(3);
    assert Pow256(3) == 256 * Pow256(2);
  }

  /** The header parser shared by the source's reading and the corrected one;
      `signedLength` selects how the 64-bit length is read. */
  function ParseHeaders(frame: Bytes, signedLength: bool): Option<Header>
  {
    if |frame| < 2 then None
    else
      var w := FirstWord(frame);
      var base := BaseHeader(w);
      if base.length == 126 then
        if |frame| < 8 then None
        else Some(base.(length := FromBE(frame[2..4]),
                        maskingKey := if base.mask then Some(frame[4..8]) else None,
                        payloadOffset := if base.mask then 8 else 4))
      else if base.length == 127 then
        if |frame| < 14 then None
        else
          var u := FromBE(frame[2..10]);
          Some(base.(length := if signedLength then Signed64(u) else u,
                     maskingKey := if base.mask then Some(frame[10..14]) else None,
                     payloadOffset := if base.mask then 14 else 10))
      else if base.mask then
        if |frame| < 6 then None
        else Some(base.(maskingKey := Some(frame[2..6]), payloadOffset := 6))
      else Some(base)
  }

  /** The fields of the first header word, with the 7-bit length as the
      provisional length and no key yet. `(w & BYTE_OPCODE) >> 8` is
      `(w / 0x100) % 16` and `w & BYTE_LENGTH` is `w % 0x80`. */
  function BaseHeader(w: nat): (h: Header)
    ensures 0 <= h.length < 128 && 0 <= h.opcode <= 15
  {
    Header(HasBit(w, BYTE_FIN), HasBit(w, BYTE_RSV1), HasBit(w, BYTE_RSV2), HasBit(w, BYTE_RSV3),
           (w / 0x100) % 16, HasBit(w, BYTE_MASKED), w % 0x80, None, 2)
  }

  /** The word's fields, read off its two bytes: the flags and opcode from the
      first, the mask flag and 7-bit length from the second. */
  lemma WordBytesFields(b0: byte, b1: byte)
    ensures BaseHeader(b0 * 256 + b1)
      == Header(b0 >= 128, (b0 / 64) % 2 == 1, (b0 / 32) % 2 == 1, (b0 / 16) % 2 == 1, b0 % 16,
                b1 >= 128, b1 % 128, None, 2)
  {
    var w := b0 * 256 + b1;
    assert w / 0x100 == b0;
    assert w / 0x80 == 2 * b0 + b1 / 128;
    assert w / 0x1000 == b0 / 16;
    assert w / 0x2000 == b0 / 32;
    assert w / 0x4000 == b0 / 64;
    assert w / 0x8000 == b0 / 128;
  }

  /** The source's GetFrameHeaders, which reads the 64-bit length with a
      signed unpack, so a length word with its top bit set becomes negative. */
  function GetFrameHeadersAsWritten(frame: Bytes): (r: Option<Header>)
    ensures r.Some? <==> GetFrameHeaders(frame).Some?
    ensures r.Some? && r.value.length >= 0 ==> r == GetFrameHeaders(frame)
  {
    ParseHeaders(frame, true)
  }

  /** GetFrameHeaders with the 64-bit length read as the unsigned integer
      section 5.2 of RFC 6455 defines. */
  function GetFrameHeaders(frame: Bytes): (r: Option<Header>)
    ensures r.Some? ==> WellFormed(r.value) && r.value.length >= 0
  {
    ParseHeaders(frame, false)
  }

  /** The shape every parsed header has: a key exactly when masked, four bytes
      long, and an offset past the two fixed bytes. */
  predicate WellFormed(h: Header)
  {
    (h.mask <==> h.maskingKey.Some?)
    && (h.maskingKey.Some? ==> |h.maskingKey.value| == 4)
    && h.payloadOffset >= 2
    && 0 <= h.opcode <= 15
  }

  /** The 7-bit length and the mask flag, read straight from the second byte. */
  function Len7(frame: Bytes): int requires |frame| >= 2 { frame[1] % 128 }
  predicate MaskBit(frame: Bytes) requires |frame| >= 2 { frame[1] >= 128 }

  /** The header is missing in exactly four cases: fewer than 2 bytes, or too
      few bytes for the extended length or key its second byte announces. */
  lemma HeaderNullCases(frame: Bytes)
    ensures GetFrameHeaders(frame).None? <==>
      |frame| < 2
      || (Len7(frame) == 126 && |frame| < 8)
      || (Len7(frame) == 127 && |frame| < 14)
      || (Len7(frame) < 126 && MaskBit(frame) && |frame| < 6)
  {
    if |frame| >= 2 {
      HeaderBitFields(frame);
    }
  }

  /** fin, rsv1-3 and the opcode come from the first byte, the mask flag and
      7-bit length from the second, at the bit positions of section 5.2. */
  lemma HeaderBitFields(frame: Bytes)
    requires |frame| >= 2
    ensures BaseHeader(FirstWord(frame))
      == Header(frame[0] >= 128, (frame[0] / 64) % 2 == 1, (frame[0] / 32) % 2 == 1, (frame[0] / 16) % 2 == 1,
                frame[0] % 16, MaskBit(frame), Len7(frame), None, 2)
  {
    WordBytesFields(frame[0], frame[1]);
  }

  /** Where the payload starts and what the key is: 2 fixed bytes, plus 2 or
      8 for the extended length, plus 4 when masked; the key is the 4 bytes
      just before the payload; the length is the 7-bit field or the extended
      big-endian field. */
  lemma HeaderLayout(frame: Bytes)
    requires GetFrameHeaders(frame).Some?
    ensures var h := GetFrameHeaders(frame).value;
      && h.payloadOffset == 2 + (if Len7(frame) == 126 then 2 else if Len7(frame) == 127 then 8 else 0) + (if h.mask then 4 else 0)
      && h.payloadOffset <= |frame|
      && (h.mask ==> h.maskingKey == Some(frame[h.payloadOffset - 4..h.payloadOffset]))
      && h.length == (if Len7(frame) == 126 then FromBE(frame[2..4]) else if Len7(frame) == 127 then FromBE(frame[2..10]) else Len7(frame))
      && h.fin == (frame[0] >= 128) && h.opcode == frame[0] % 16 && h.mask == MaskBit(frame)
  {
    HeaderBitFields(frame);
  }

  /** The outcome of GetFramePayload: NULL (wait for more bytes), FALSE
      (protocol error) or the unmasked payload. */
  datatype PayloadResult = Incomplete | ProtocolError | Payload(data: Bytes)

  /** The opcodes the framer knows (section 5.2 of RFC 6455, values 0-2 and 8-10). */
  predicate KnownOpcode(op: int) { op in {OPCODE_CONTINUE, OPCODE_FRAME_TEXT, OPCODE_FRAME_BINARY, OPCODE_CLOSE_CONNECTION, OPCODE_PING, OPCODE_PONG} }

  /** Close, ping and pong frames must be final and carry at most 125 bytes;
      the source also refuses a single-byte payload (a close frame body is
      either empty or starts with a 2-byte code). */
  predicate BadControlFrame(h: Header)
  {
    h.opcode in {OPCODE_CLOSE_CONNECTION, OPCODE_PING, OPCODE_PONG} && (h.length == 1 || h.length > 125 || !h.fin)
  }

  /** The payload of a frame, given either its parsed header or None to parse
      it here. */
  function GetFramePayload(frame: Bytes, given: Option<Header>): (r: PayloadResult)
    requires given.Some? ==> WellFormed(given.value)
    ensures var h := if given.Some? then given else GetFrameHeaders(frame);
      && (r.ProtocolError? <==> h.Some? && |frame| >= h.value.payloadOffset && (BadControlFrame(h.value) || !KnownOpcode(h.value.opcode)))
      && (r.Payload? ==> h.Some? && KnownOpcode(h.value.opcode) && |frame| >= h.value.payloadOffset + h.value.length)
      && (r.Payload? && h.value.length >= 0 ==> |r.data| == h.value.length)
  {
    var headers := if given.Some? then given else GetFrameHeaders(frame);
    match headers
    case None => Incomplete
    case Some(h) =>
      if |frame| < h.payloadOffset then Incomplete
      else if BadControlFrame(h) then ProtocolError
      else if !KnownOpcode(h.opcode) then ProtocolError
      else if |frame| < h.payloadOffset + h.length then Incomplete
      else
        var p := Substr(frame, h.payloadOffset, h.length);
        Payload(if h.mask then ApplyMask(p, h.maskingKey.value) else p)
  }

  /** With the header parsed from the frame itself, a payload is only ever
      returned whole: the frame holds offset + length bytes and the payload
      has exactly `length` bytes, unmasked with the key from the header. */
  lemma PayloadNeverPartial(frame: Bytes)
    requires GetFramePayload(frame, None).Payload?
    ensures GetFrameHeaders(frame).Some?
    ensures var h := GetFrameHeaders(frame).value; var p := GetFramePayload(frame, None).data;
      && |frame| >= h.payloadOffset + h.length
      && |p| == h.length
      && p == (if h.mask then ApplyMask(frame[h.payloadOffset..h.payloadOffset + h.length], h.maskingKey.value)
               else frame[h.payloadOffset..h.payloadOffset + h.length])
  {
  }

  /** Incomplete exactly when the header is missing, the buffer stops inside
      the header, or an acceptable frame's payload is not all there. */
  lemma PayloadIncompleteCases(frame: Bytes)
    ensures GetFramePayload(frame, None).Incomplete? <==>
      GetFrameHeaders(frame).None? || NeedsMoreBytes(frame, GetFrameHeaders(frame).value)
  {
  }

  /** The buffer ends inside the header, or inside the payload of a frame
      that is otherwise acceptable. */
  predicate NeedsMoreBytes(frame: Bytes, h: Header)
  {
    |frame| < h.payloadOffset || (!BadControlFrame(h) && KnownOpcode(h.opcode) && |frame| < h.payloadOffset + h.length)
  }

  /** XOR with the key repeated over the payload's length (str_pad then ^). */
  function ApplyMask(payload: Bytes, key: Bytes): (r: Bytes)
    requires |key| > 0 || |payload| == 0
    ensures |r| == |payload|
  {
    seq(|payload|, i requires 0 <= i < |payload| => XorByte(payload[i], key[i % |key|]))
  }

  /** Masking twice with the same key gives the payload back (section 5.3 of
      RFC 6455: the same algorithm masks and unmasks). */
  lemma ApplyMaskInvolution(payload: Bytes, key: Bytes)
    requires |key| > 0
    ensures ApplyMask(ApplyMask(payload, key), key) == payload
  {
    var once := ApplyMask(payload, key);
    var twice := ApplyMask(once, key);
    forall i | 0 <= i < |payload|
      ensures twice[i] == payload[i]
    {
      assert once[i] == XorByte(payload[i], key[i % |key|]);
    }
  }

  /** The first header word of a frame, before the length is or-ed in. The
      flags and opcode occupy disjoint bits, so or-ing them is adding them. */
  function HeaderWord(opcode: int, isFinal: bool, rsv1: bool, rsv2: bool, rsv3: bool, mask: bool): (w: nat)
    requires 0 <= opcode <= 15
    ensures w + 0x7F < 0x1_0000
  {
    opcode * 0x100
      + (if isFinal then BYTE_FIN else 0)
      + (if rsv1 then BYTE_RSV1 else 0)
      + (if rsv2 then BYTE_RSV2 else 0)
      + (if rsv3 then BYTE_RSV3 else 0)
      + (if mask then BYTE_MASKED else 0)
  }

  /** The size of the extended length field a payload of `n` bytes needs. */
  function ExtendedLengthSize(n: nat): nat
  {
    if n < 126 then 0 else if n < 65536 then 2 else 8
  }

  /** Serialise one frame. The key is used only when `mask` is set. Fails with
      RangeException for an opcode outside 0-15 and LogicException for a
      non-final control frame. */
  function Frame(data: Bytes, mask: bool, key: MaskKey, opcode: int, isFinal: bool, rsv1: bool, rsv2: bool, rsv3: bool): (r: Result<Bytes>)
    requires |data| <= MAX_PHP_INT
    ensures r.Fail? <==> opcode < 0 || opcode > 15 || (!isFinal && IsControlOpcode(opcode))
    ensures r.Fail? ==> r.error == (if opcode < 0 || opcode > 15 then RangeException else LogicException)
    ensures r.Ok? ==> |r.value| == 2 + ExtendedLengthSize(|data|) + (if mask then 4 else 0) + |data|
  {
    if opcode < 0 || opcode > 15 then Fail(RangeException)
    else if !isFinal && IsControlOpcode(opcode) then Fail(LogicException)
    else
      Pow256Eight();
      var w := HeaderWord(opcode, isFinal, rsv1, rsv2, rsv3, mask);
      var keyBytes := if mask then key else [];
      var body := if mask then ApplyMask(data, key) else data;
      var n := |data|;
      if n < 126 then Ok(Word(w + n) + keyBytes + body)
      else if n < 65536 then Ok(Word(w + 126) + ToBE(n, 2) + keyBytes + body)
      else Ok(Word(w + 127) + ToBE(n, 8) + keyBytes + body)
  }

  /** The bytes Frame produces, laid out: header word, extended length, key,
      (masked) data. */
  lemma FrameLayout(data: Bytes, mask: bool, key: MaskKey, opcode: int, isFinal: bool, rsv1: bool, rsv2: bool, rsv3: bool)
    requires |data| <= MAX_PHP_INT
    requires 0 <= opcode <= 15 && (isFinal || !IsControlOpcode(opcode))
    ensures Pow256(2) == 0x1_0000 && Pow256(8) == 0x1_0000_0000_0000_0000
    ensures var n := |data|;
      Frame(data, mask, key, opcode, isFinal, rsv1, rsv2, rsv3).value
        == Word(HeaderWord(opcode, isFinal, rsv1, rsv2, rsv3, mask) + LengthField(n))
           + (if n < 126 then [] else if n < 65536 then ToBE(n, 2) else ToBE(n, 8))
           + (if mask then key else [])
           + (if mask then ApplyMask(data, key) else data)
  {
    Pow256Eight();
  }

  /** The 7-bit length field Frame writes for a payload of `n` bytes: the
      length itself below 126, else the marker of the 16- or 64-bit form. */
  function LengthField(n: nat): (r: nat)
    ensures r < 128
    ensures r < 126 <==> n < 126
  {
    if n < 126 then n else if n < 65536 then 126 else 127
  }

  /** Parsing a serialised frame's header gives back every field that went
      in: fin, the three RSV flags, the opcode, the mask flag and key, the
      payload length, and an offset that skips exactly the header. */
  lemma FrameHeaderRoundTrip(data: Bytes, mask: bool, key: MaskKey, opcode: int, isFinal: bool, rsv1: bool, rsv2: bool, rsv3: bool)
    requires |data| <= MAX_PHP_INT
    requires Frame(data, mask, key, opcode, isFinal, rsv1, rsv2, rsv3).Ok?
    ensures GetFrameHeaders(Frame(data, mask, key, opcode, isFinal, rsv1, rsv2, rsv3).value)
      == Some(Header(isFinal, rsv1, rsv2, rsv3, opcode, mask, |data|, if mask then Some(key) else None,
                     2 + ExtendedLengthSize(|data|) + (if mask then 4 else 0)))
  {
    FrameLayout(data, mask, key, opcode, isFinal, rsv1, rsv2, rsv3);
    var n := |data|;
    var x := HeaderWord(opcode, isFinal, rsv1, rsv2, rsv3, mask) + LengthField(n);
    var ext := if n < 126 then [] else if n < 65536 then ToBE(n, 2) else ToBE(n, 8);
    var keyBytes := if mask then key else [];
    var body := if mask then ApplyMask(data, key) else data;
    var f := Frame(data, mask, key, opcode, isFinal, rsv1, rsv2, rsv3).value;
    assert f == Word(x) + ext + keyBytes + body;
    FrameWordFields(opcode, isFinal, rsv1, rsv2, rsv3, mask, LengthField(n));
    ParsedFromLayout(x, ext, keyBytes, body, n, mask, key);
    assert key[..] == key;
    assert GetFrameHeaders(f) == ParseHeaders(Word(x) + ext + keyBytes + body, false);
  }

  function B(flag: bool): nat { if flag then 1 else 0 }

  /** The word Frame writes decodes to the header fields that went in, with
      the 7-bit length field as provisional length. */
  lemma FrameWordFields(opcode: int, isFinal: bool, rsv1: bool, rsv2: bool, rsv3: bool, mask: bool, len: nat)
    requires 0 <= opcode <= 15 && len < 128
    ensures BaseHeader(HeaderWord(opcode, isFinal, rsv1, rsv2, rsv3, mask) + len)
      == Header(isFinal, rsv1, rsv2, rsv3, opcode, mask, len, None, 2)
  {
    var b0 := FirstByte(opcode, isFinal, rsv1, rsv2, rsv3);
    var b1 := 128 * B(mask) + len;
    assert HeaderWord(opcode, isFinal, rsv1, rsv2, rsv3, mask) + len == b0 * 256 + b1;
    WordBytesFields(b0, b1);
    FirstByteFields(opcode, isFinal, rsv1, rsv2, rsv3);
  }

  /** The first byte of a frame: FIN, RSV1-3 and the opcode. */
  function FirstByte(opcode: int, isFinal: bool, rsv1: bool, rsv2: bool, rsv3: bool): (b: byte)
    requires 0 <= opcode <= 15
    ensures b % 16 == opcode
  {
    128 * B(isFinal) + 64 * B(rsv1) + 32 * B(rsv2) + 16 * B(rsv3) + opcode
  }

  lemma FirstByteFields(opcode: int, isFinal: bool, rsv1: bool, rsv2: bool, rsv3: bool)
    requires 0 <= opcode <= 15
    ensures var b := FirstByte(opcode, isFinal, rsv1, rsv2, rsv3);
      && (b >= 128 <==> isFinal) && ((b / 64) % 2 == 1 <==> rsv1)
      && ((b / 32) % 2 == 1 <==> rsv2) && ((b / 16) % 2 == 1 <==> rsv3)
  {
    var b := FirstByte(opcode, isFinal, rsv1, rsv2, rsv3);
    assert b / 16 == 8 * B(isFinal) + 4 * B(rsv1) + 2 * B(rsv2) + B(rsv3);
    assert b / 32 == 4 * B(isFinal) + 2 * B(rsv1) + B(rsv2);
    assert b / 64 == 2 * B(isFinal) + B(rsv1);
  }

  /** The parse of a frame laid out as word, extended length, key, body. */
  lemma ParsedFromLayout(x: nat, ext: Bytes, keyBytes: Bytes, body: Bytes, n: nat, mask: bool, key: MaskKey)
    requires Pow256(2) == 0x1_0000 && Pow256(8) == 0x1_0000_0000_0000_0000
    requires n <= MAX_PHP_INT && x < 0x1_0000
    requires BaseHeader(x).length == LengthField(n) && BaseHeader(x).mask == mask
    requires ext == (if n < 126 then [] else if n < 65536 then ToBE(n, 2) else ToBE(n, 8))
    requires keyBytes == (if mask then key else [])
    requires |body| == n
    ensures ParseHeaders(Word(x) + ext + keyBytes + body, false)
      == Some(BaseHeader(x).(length := n, maskingKey := if mask then Some(key[..]) else None,
                             payloadOffset := 2 + ExtendedLengthSize(n) + (if mask then 4 else 0)))
  {
    var f := Word(x) + ext + keyBytes + body;
    assert f == Word(x) + (ext + keyBytes + body);
    FirstWordOfWord(x, ext + keyBytes + body);
    var e := |ext|;
    assert f[2..2 + e] == ext;
    if n >= 126 {
      FromBEToBE(n, e);
    }
    if mask {
      assert f[2 + e..6 + e] == key;
    }
  }

  /** Round trip of the whole codec: the payload extracted from a serialised
      frame is the data that went in, for the data opcodes and for close, ping
      and pong frames that are final and carry 0 or 2-125 bytes. */
  lemma FramePayloadRoundTrip(data: Bytes, mask: bool, key: MaskKey, opcode: int, isFinal: bool, rsv1: bool, rsv2: bool, rsv3: bool)
    requires |data| <= MAX_PHP_INT
    requires opcode in {OPCODE_CONTINUE, OPCODE_FRAME_TEXT, OPCODE_FRAME_BINARY}
          || (opcode in {OPCODE_CLOSE_CONNECTION, OPCODE_PING, OPCODE_PONG} && isFinal && |data| != 1 && |data| <= 125)
    ensures Frame(data, mask, key, opcode, isFinal, rsv1, rsv2, rsv3).Ok?
    ensures GetFramePayload(Frame(data, mask, key, opcode, isFinal, rsv1, rsv2, rsv3).value, None) == Payload(data)
  {
    var head, body := FrameParts(data, mask, key, opcode, isFinal, rsv1, rsv2, rsv3);
    FrameHeaderRoundTrip(data, mask, key, opcode, isFinal, rsv1, rsv2, rsv3);
    var h := Header(isFinal, rsv1, rsv2, rsv3, opcode, mask, |data|, if mask then Some(key[..]) else None, |head|);
    PayloadOfLaidOutFrame(head, body, h);
    if mask {
      ApplyMaskInvolution(data, key);
    }
  }

  /** A serialised frame is a header of 2 + extension + key bytes followed
      by the (masked) data. */
  lemma FrameParts(data: Bytes, mask: bool, key: MaskKey, opcode: int, isFinal: bool, rsv1: bool, rsv2: bool, rsv3: bool)
    returns (head: Bytes, body: Bytes)
    requires |data| <= MAX_PHP_INT
    requires 0 <= opcode <= 15 && (isFinal || !IsControlOpcode(opcode))
    ensures Frame(data, mask, key, opcode, isFinal, rsv1, rsv2, rsv3) == Ok(head + body)
    ensures |head| == 2 + ExtendedLengthSize(|data|) + (if mask then 4 else 0)
    ensures body == if mask then ApplyMask(data, key) else data
  {
    FrameLayout(data, mask, key, opcode, isFinal, rsv1, rsv2, rsv3);
    var n := |data|;
    head := Word(HeaderWord(opcode, isFinal, rsv1, rsv2, rsv3, mask) + LengthField(n))
            + (if n < 126 then [] else if n < 65536 then ToBE(n, 2) else ToBE(n, 8))
            + (if mask then key else []);
    body := if mask then ApplyMask(data, key) else data;
  }

  /** A frame whose header announces exactly the bytes after it, with an
      acceptable opcode, yields those bytes, unmasked. */
  lemma PayloadOfLaidOutFrame(head: Bytes, body: Bytes, h: Header)
    requires GetFrameHeaders(head + body) == Some(h)
    requires h.payloadOffset == |head| && h.length == |body|
    requires KnownOpcode(h.opcode) && !BadControlFrame(h)
    ensures GetFramePayload(head + body, None) == Payload(if h.mask then ApplyMask(body, h.maskingKey.value) else body)
  {
    assert (head + body)[|head|..|head| + |body|] == body;
  }

  /** A frame with one of the opcodes 3-7 or 11-15 serialises, but reading it
      back is a protocol error. */
  lemma FrameUnknownOpcodeRejected(data: Bytes, mask: bool, key: MaskKey, opcode: int, rsv1: bool, rsv2: bool, rsv3: bool)
    requires |data| <= MAX_PHP_INT
    requires 3 <= opcode <= 7 || 11 <= opcode <= 15
    ensures Frame(data, mask, key, opcode, true, rsv1, rsv2, rsv3).Ok?
    ensures GetFramePayload(Frame(data, mask, key, opcode, true, rsv1, rsv2, rsv3).value, None) == ProtocolError
  {
    FrameHeaderRoundTrip(data, mask, key, opcode, true, rsv1, rsv2, rsv3);
  }

  /** The worked example: an unmasked final text frame "hi". */
  lemma FrameHiExample(key: MaskKey)
    ensures Frame(Str("hi"), false, key, OPCODE_FRAME_TEXT, true, false, false, false) == Ok([0x81, 0x02, 0x68, 0x69])
  {
    var expected: Bytes := [0x81, 0x02, 0x68, 0x69];
    assert Str("hi") == [0x68, 0x69];
    assert HeaderWord(OPCODE_FRAME_TEXT, true, false, false, false, false) + 2 == 0x8102;
    assert Word(0x8102) == [0x81, 0x02];
    assert Frame(Str("hi"), false, key, OPCODE_FRAME_TEXT, true, false, false, false) == Ok(Word(0x8102) + [] + Str("hi"));
    assert Word(0x8102) + [] + Str("hi") == expected;
  }

  /** The length form switches at 126 and 65536 bytes. */
  lemma LengthFormThresholds()
    ensures ExtendedLengthSize(125) == 0 && ExtendedLengthSize(126) == 2
    ensures ExtendedLengthSize(65535) == 2 && ExtendedLengthSize(65536) == 8
  {
  }

  /** The source's signed read of the 64-bit length: a masked-off binary frame
      whose length word is all ones parses with length -1, and GetFramePayload
      then returns 19 of the 20 payload bytes that follow instead of waiting,
      although the corrected header announces 2^64 - 1 bytes. */
  lemma SignedLengthGivesPartialPayload()
    ensures var frame := [0x82, 0x7F] + seq(8, i => 0xFF) + seq(20, i => 0x41);
      && GetFrameHeadersAsWritten(frame).Some?
      && GetFrameHeadersAsWritten(frame).value.length == -1
      && GetFramePayload(frame, GetFrameHeadersAsWritten(frame)) == Payload(seq(19, i => 0x41))
      && GetFrameHeaders(frame).value.length == 0xFFFF_FFFF_FFFF_FFFF
      && GetFramePayload(frame, None) == Incomplete
  {
    var frame: Bytes := [0x82, 0x7F] + seq(8, i => 0xFF) + seq(20, i => 0x41);
    Pow256Eight();
    assert frame[2..10] == seq(8, i => 0xFF);
    AllOnes(8);
    WordBytesFields(0x82, 0x7F);
    assert frame[10..29] == seq(19, i => 0x41);
  }

  /** A run of 0xFF bytes is the largest value of its width. */
  lemma {:induction false} AllOnes(k: nat)
    ensures FromBE(seq(k, i => 0xFF)) == Pow256(k) - 1
  {
    if k > 0 {
      assert seq(k, i => 0xFF)[..k - 1] == seq(k - 1, i => 0xFF);
      AllOnes(k - 1);
    }
  }
}
