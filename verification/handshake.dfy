// The opening handshake of section 4 of RFC 6455 as the two roles write and
// read it: the server's check of a request, the accept token, the responses
// the server sends, the request a client sends, and how the head of a
// handshake is cut from the bytes that follow it.

module Handshake {
  import opened Wrappers
  import opened Bytes
  import opened PhpStrings
  import opened Http
  import opened Protocol

  /** The blank line that ends a handshake head. */
  const TERMINATOR: Bytes := [13, 10, 13, 10]

  // The server's check of a request.

  /** isset() on a parsed header: present and not NULL. */
  predicate IsSet(h: Headers, name: Bytes)
  {
    name in h && !h[name].Null?
  }

  /** A header value where PHP uses it as a string. */
  function AsText(v: HeaderValue): Bytes
  {
    match v
    case Text(t) => t
    case Number(n) => Decimal(n)
    case Null => []
  }

  /** intval() of a header value. */
  function AsInt(v: HeaderValue): int
  {
    match v
    case Text(t) => IntVal(t)
    case Number(n) => n
    case Null => 0
  }

  /** `Upgrade` is present and, lower-cased, is exactly "websocket". */
  predicate UpgradesToWebSocket(h: Headers)
  {
    IsSet(h, Str("upgrade")) && Lower(AsText(h[Str("upgrade")])) == Str("websocket")
  }

  /** `Connection` is present and, lower-cased, contains "upgrade". */
  predicate ConnectionUpgrade(h: Headers)
  {
    IsSet(h, Str("connection")) && Find(Lower(AsText(h[Str("connection")])), Str("upgrade"), 0).Some?
  }

  /** `Sec-WebSocket-Version` is present and reads as 13. */
  predicate Version13(h: Headers)
  {
    IsSet(h, Str("sec-websocket-version")) && AsInt(h[Str("sec-websocket-version")]) == 13
  }

  /** What the server asks of a request before it looks at the version: a
      request line, a Host, an Upgrade to websocket, a Connection naming
      upgrade and a key. */
  predicate UpgradeRequested(h: Headers)
  {
    && IsSet(h, Str("get")) && IsSet(h, Str("host")) && UpgradesToWebSocket(h)
    && ConnectionUpgrade(h) && IsSet(h, Str("sec-websocket-key"))
  }

  /** _doHandshake's response code: 405 without a request line, 400 for a
      missing or wrong Host, Upgrade, Connection or key, 426 for a version
      other than 13, and 101 when every check passes. */
  function ResponseCode(h: Headers): (code: int)
    ensures code in {101, 400, 405, 426}
  {
    if !IsSet(h, Str("get")) then 405
    else if !IsSet(h, Str("host")) then 400
    else if !UpgradesToWebSocket(h) then 400
    else if !ConnectionUpgrade(h) then 400
    else if !IsSet(h, Str("sec-websocket-key")) then 400
    else if !Version13(h) then 426
    else 101
  }

  /** Each response code names the check that chose it: 101 exactly when
      every check passes, 405 exactly without a request line, 426 exactly
      when only the version is wrong, 400 for every other failure. */
  lemma ResponseCodeChecks(h: Headers)
    ensures ResponseCode(h) == 101 <==> UpgradeRequested(h) && Version13(h)
    ensures ResponseCode(h) == 405 <==> !IsSet(h, Str("get"))
    ensures ResponseCode(h) == 426 <==> UpgradeRequested(h) && !Version13(h)
    ensures ResponseCode(h) == 400 <==> IsSet(h, Str("get")) && !UpgradeRequested(h)
  {
  }

  /** The key a request carries, as _doHandshake concatenates it. */
  function RequestKey(h: Headers): Bytes
  {
    if Str("sec-websocket-key") in h then AsText(h[Str("sec-websocket-key")]) else []
  }

  // The accept token.

  /** A SHA-1 digest: 20 raw bytes. */
  type Digest = d: Bytes | |d| == 20 witness [0, 0, 0, 0, 0, 0, 0, 0, 0, 0, 0, 0, 0, 0, 0, 0, 0, 0, 0, 0]

  /** The lower-case hexadecimal digit for a value below 16. */
  function HexChar(v: nat): byte
    requires v < 16
  {
    if v < 10 then 48 + v else 87 + v
  }

  /** The text form of a raw digest that sha1() returns: two lower-case
      hexadecimal digits per byte, high half first. */
  function HexEncode(raw: Bytes): (hex: Bytes)
    ensures |hex| == 2 * |raw|
  {
    if raw == [] then [] else [HexChar(raw[0] / 16), HexChar(raw[0] % 16)] + HexEncode(raw[1..])
  }

  /** The value of a hexadecimal digit of either case; None for any other
      byte. */
  function HexValue(b: byte): Option<nat>
  {
    if 48 <= b <= 57 then Some(b - 48)
    else if 97 <= b <= 102 then Some(b - 87)
    else if 65 <= b <= 70 then Some(b - 55)
    else None
  }

  /** hexdec(): the hexadecimal digits of a string read as one number; every
      other byte is skipped. */
  function HexDec(s: Bytes): nat
  {
    if s == [] then 0
    else
      var init := HexDec(s[..|s| - 1]);
      match HexValue(s[|s| - 1])
      case Some(v) => init * 16 + v
      case None => init
  }

  /** chr(): the byte of an integer, taken modulo 256. */
  function Chr(n: int): byte
  {
    n % 256
  }

  /** Byte `i` of the token built from the hexadecimal digest `hash`: the
      two digits at offset 2i read as one byte. */
  function TokenByte(hash: Bytes, i: nat): byte
  {
    Chr(HexDec(Substr(hash, 2 * i, 2)))
  }

  /** The 20 bytes a hexadecimal digest stands for. */
  function Unhex(hash: Bytes): (token: Bytes)
    ensures |token| == 20
  {
    seq(20, i requires 0 <= i < 20 => TokenByte(hash, i))
  }

  /** The token loop of _doHandshake: 20 times, two digits of the digest
      become one byte. */
  method RawToken(hash: Bytes) returns (token: Bytes)
    ensures token == Unhex(hash)
  {
    token := [];
    for i := 0 to 20
      invariant |token| == i
      invariant forall j :: 0 <= j < i ==> token[j] == TokenByte(hash, j)
    {
      token := token + [TokenByte(hash, i)];
    }
  }

  lemma {:induction false} HexEncodeAt(raw: Bytes, i: nat)
    requires i < |raw|
    ensures HexEncode(raw)[2 * i..2 * i + 2] == [HexChar(raw[i] / 16), HexChar(raw[i] % 16)]
    decreases i
  {
    var rest := HexEncode(raw[1..]);
    assert HexEncode(raw) == [HexChar(raw[0] / 16), HexChar(raw[0] % 16)] + rest;
    if i > 0 {
      HexEncodeAt(raw[1..], i - 1);
      assert HexEncode(raw)[2 * i..2 * i + 2] == rest[2 * (i - 1)..2 * (i - 1) + 2];
    }
  }

  /** Two digits sha1() wrote for a byte read back as that byte. */
  lemma HexPair(b: byte)
    ensures HexDec([HexChar(b / 16), HexChar(b % 16)]) == b
  {
    var hi, lo := HexChar(b / 16), HexChar(b % 16);
    assert HexValue(hi) == Some(b / 16);
    assert HexValue(lo) == Some(b % 16);
    assert [hi, lo][..1] == [hi];
    assert [hi][..0] == [];
    assert HexDec([hi]) == b / 16;
  }

  /** The token is the raw digest: reading back the hexadecimal text of any
      20-byte digest gives the digest. */
  lemma UnhexHexEncode(d: Digest)
    ensures Unhex(HexEncode(d)) == d
  {
    var hex := HexEncode(d);
    forall i | 0 <= i < 20
      ensures Unhex(hex)[i] == d[i]
    {
      TokenByteOfHex(d, i);
    }
  }

  /** Byte `i` of the token read from a hexadecimal text is byte `i` of what
      was encoded. */
  lemma TokenByteOfHex(raw: Bytes, i: nat)
    requires i < |raw|
    ensures TokenByte(HexEncode(raw), i) == raw[i]
  {
    var hex := HexEncode(raw);
    var pair := [HexChar(raw[i] / 16), HexChar(raw[i] % 16)];
    assert Substr(hex, 2 * i, 2) == pair by {
      HexEncodeAt(raw, i);
    }
    assert HexDec(pair) == raw[i] by {
      HexPair(raw[i]);
    }
    ChrOfByte(raw[i]);
  }

  /** chr() of a byte value is that byte. */
  lemma ChrOfByte(b: byte)
    ensures Chr(b) == b
  {
  }

  /** Sec-WebSocket-Accept for a key (section 4.2.2 of RFC 6455): the base64
      of the SHA-1 digest of the key followed by the GUID. `sha1` is the raw
      digest and `base64` the encoding, both outside the model. */
  function AcceptValue(key: Bytes, sha1: Bytes -> Digest, base64: Bytes -> Bytes): Bytes
  {
    base64(sha1(key + Str(WEBSOCKET_GUID)))
  }

  // The responses the server sends.

  /** The reason phrase of a status code, or nothing when the table has none
      (PHP concatenates NULL as an empty string). */
  function ReasonPhrase(code: int): Bytes
  {
    match GetStringForStatusCode(code)
    case Some(t) => t
    case None => []
  }

  /** A header line `Name: value`. */
  function Field(name: Bytes, value: Bytes): Bytes
  {
    name + [COLON, SPACE] + value
  }

  /** A status line `HTTP/1.1 <code> <text>`. */
  function ResponseStatus(code: int, text: Bytes): Bytes
  {
    Str("HTTP/1.1 ") + Decimal(code) + [SPACE] + text
  }

  /** The status line and the Server header every response of the server
      starts with. */
  function ResponseLines(code: int, text: Bytes, identifier: Bytes): seq<Bytes>
  {
    [ResponseStatus(code, text), Field(Str("Server"), identifier)]
  }

  /** deny's response: the status line and the Server header, each ended by
      CRLF, and a blank line. */
  function DenyResponse(code: int, identifier: Bytes): Bytes
  {
    Implode(ResponseLines(code, ReasonPhrase(code), identifier), CRLF) + TERMINATOR
  }

  /** The text getErrorPageForCode shows when the table has no reason phrase. */
  const FALLBACK_ERROR: Bytes := Str("Unknown error code")

  /** The text of an error page: the reason phrase, or the fallback when
      `?:` finds it false (NULL, "" or "0"). */
  function ErrorText(code: int): Bytes
  {
    match GetStringForStatusCode(code)
    case Some(t) => if t == [] || t == [48] then FALLBACK_ERROR else t
    case None => FALLBACK_ERROR
  }

  /** getErrorPageForCode: the head of a response, then an HTML page naming
      the code and its text. The template's placeholders are replaced one
      after the other; no reason phrase holds a placeholder, so each is
      replaced by its own value. */
  function ErrorPage(code: int, identifier: Bytes): Bytes
  {
    var title := Decimal(code) + [SPACE] + ErrorText(code);
    Implode(ResponseLines(code, ErrorText(code), identifier), CRLF) + TERMINATOR
    + Str("<html><head><title>") + title + Str("</title></head><body bgcolor='white'><h1 align=\"center\">")
    + title + Str("</h1><hr><div align=\"center\">") + identifier + Str("</div></body></html>") + TERMINATOR
  }

  /** The lines of accept's response up to the subprotocol. */
  function AcceptLines(identifier: Bytes, accept: Bytes): seq<Bytes>
  {
    ResponseLines(101, SWITCHING_PROTOCOLS, identifier)
    + [Field(Str("Upgrade"), Str("websocket")), Field(Str("Connection"), Str("Upgrade")),
       Field(Str("Sec-WebSocket-Accept"), accept)]
  }

  /** The subprotocol line as accept writes it: without a colon. */
  function ProtocolLineAsWritten(protocol: Bytes): Bytes
  {
    Str("Sec-WebSocket-Protocol") + [SPACE] + protocol
  }

  /** The subprotocol header field of section 4.2.2 of RFC 6455. */
  function ProtocolLine(protocol: Bytes): Bytes
  {
    Field(Str("Sec-WebSocket-Protocol"), protocol)
  }

  /** The lines of accept's head as written: the subprotocol line comes
      only when a subprotocol is given, and lacks its colon. */
  function AcceptHeadAsWritten(identifier: Bytes, accept: Bytes, protocol: Option<Bytes>): seq<Bytes>
  {
    AcceptLines(identifier, accept) + if protocol.Some? then [ProtocolLineAsWritten(protocol.value)] else []
  }

  /** The lines of accept's head with the subprotocol line written as a
      header field. */
  function AcceptHead(identifier: Bytes, accept: Bytes, protocol: Option<Bytes>): seq<Bytes>
  {
    AcceptLines(identifier, accept) + if protocol.Some? then [ProtocolLine(protocol.value)] else []
  }

  /** accept's response as written: each line ended by CRLF, and a blank
      line. */
  function AcceptResponseAsWritten(identifier: Bytes, accept: Bytes, protocol: Option<Bytes>): Bytes
  {
    Implode(AcceptHeadAsWritten(identifier, accept, protocol), CRLF) + TERMINATOR
  }

  /** accept's response with the subprotocol line written as a header field. */
  function AcceptResponse(identifier: Bytes, accept: Bytes, protocol: Option<Bytes>): Bytes
  {
    Implode(AcceptHead(identifier, accept, protocol), CRLF) + TERMINATOR
  }

  // The request a client sends.

  /** The lines of the client's request, in the order _afterOpen lists them. */
  function RequestLines(path: Bytes, host: Bytes, userAgent: Bytes, key: Bytes): seq<Bytes>
  {
    [Str("GET ") + path + Str(" HTTP/1.1"), Field(Str("Host"), host), Field(Str("User-Agent"), userAgent),
     Field(Str("Upgrade"), Str("websocket")), Field(Str("Connection"), Str("Upgrade")),
     Field(Str("Sec-WebSocket-Key"), key), Field(Str("Sec-WebSocket-Version"), Str("13"))]
  }

  /** The request: its lines joined by CRLF and ended by a blank line. */
  function ClientRequest(path: Bytes, host: Bytes, userAgent: Bytes, key: Bytes): Bytes
  {
    Implode(RequestLines(path, host, userAgent, key), CRLF) + TERMINATOR
  }

  // Cutting the head of a handshake.

  /** What a handshake read leaves: still waiting, with the bytes so far
      buffered, or the head cut off from the bytes after it. */
  datatype HandshakeCut = Waiting(buffered: Bytes) | Cut(head: Bytes, rest: Bytes)

  /** The handshake branch of handleRead, as both roles write it: the
      terminator is looked for in the new chunk only, and the offset found
      there is applied to the buffered bytes followed by the chunk. */
  function CutHandshake(buffer: Bytes, chunk: Bytes): (r: HandshakeCut)
    ensures r.Waiting? <==> Find(chunk, TERMINATOR, 0).None?
    ensures r.Waiting? ==> r.buffered == buffer + chunk
  {
    match Find(chunk, TERMINATOR, 0)
    case None => Waiting(buffer + chunk)
    case Some(end) =>
      var all := buffer + chunk;
      var head := Substr(all, 0, end);
      Cut(head, if |all| > |head| then SubstrFrom(all, end + 4) else all)
  }

  /** Lines a head is made of: at least one, none empty, none holding CR or
      LF. */
  predicate PlainLines(lines: seq<Bytes>)
  {
    |lines| > 0 && forall i :: 0 <= i < |lines| ==> PlainLine(lines[i])
  }

  /** A line of a head: not empty, without CR or LF. */
  predicate PlainLine(line: Bytes)
  {
    line != [] && CR !in line && LF !in line
  }

  lemma ImplodeStart(lines: seq<Bytes>, sep: Bytes)
    requires |lines| > 0
    ensures |lines[0]| <= |Implode(lines, sep)| && Implode(lines, sep)[..|lines[0]|] == lines[0]
  {
  }

  /** A byte that differs from the terminator's rules the terminator out. */
  lemma NotAt(s: Bytes, j: nat, d: nat)
    requires d < 4 && j + d < |s| && s[j + d] != TERMINATOR[d]
    ensures !OccursAt(s, TERMINATOR, j)
  {
    if j + 4 <= |s| {
      assert s[j..j + 4][d] == s[j + d];
    }
  }

  /** No terminator starts inside a head made of plain lines. */
  lemma {:induction false} NoTerminatorBefore(lines: seq<Bytes>, tail: Bytes)
    requires PlainLines(lines)
    ensures forall j :: 0 <= j < |Implode(lines, CRLF)| ==> !OccursAt(Implode(lines, CRLF) + tail, TERMINATOR, j)
    decreases |lines|
  {
    var head := Implode(lines, CRLF);
    var s := head + tail;
    var first := lines[0];
    if |lines| == 1 {
      forall j | 0 <= j < |head|
        ensures !OccursAt(s, TERMINATOR, j)
      {
        assert s[j] == first[j];
        NotAt(s, j, 0);
      }
    } else {
      var rest := Implode(lines[1..], CRLF);
      assert head == first + CRLF + rest;
      assert PlainLines(lines[1..]) by {
        forall i | 0 <= i < |lines[1..]|
          ensures PlainLine(lines[1..][i])
        {
          assert lines[1..][i] == lines[i + 1];
        }
      }
      NoTerminatorBefore(lines[1..], tail);
      ImplodeStart(lines[1..], CRLF);
      assert lines[1..][0] == lines[1] && lines[1] != [];
      assert rest[0] == rest[..|lines[1]|][0] == lines[1][0];
      var k := |first| + 2;
      assert s[k..] == rest + tail;
      forall j | 0 <= j < |head|
        ensures !OccursAt(s, TERMINATOR, j)
      {
        if j < |first| {
          assert s[j] == first[j];
          NotAt(s, j, 0);
        } else if j == |first| {
          assert s[j + 2] == rest[0];
          NotAt(s, j, 2);
        } else if j == |first| + 1 {
          assert s[j] == LF;
          NotAt(s, j, 0);
        } else {
          assert !OccursAt(rest + tail, TERMINATOR, j - k);
          if j + 4 <= |s| {
            assert s[k..][j - k..j - k + 4] == s[j..j + 4];
          }
        }
      }
    }
  }

  /** A head of plain lines ends where its terminator starts. */
  lemma HeadEndsAtTerminator(lines: seq<Bytes>, rest: Bytes)
    requires PlainLines(lines)
    ensures Find(Implode(lines, CRLF) + TERMINATOR + rest, TERMINATOR, 0) == Some(|Implode(lines, CRLF)|)
  {
    var head := Implode(lines, CRLF);
    var s := head + TERMINATOR + rest;
    assert s == head + (TERMINATOR + rest);
    NoTerminatorBefore(lines, TERMINATOR + rest);
    assert s[|head|..|head| + 4] == TERMINATOR;
    assert OccursAt(s, TERMINATOR, |head|);
  }

  /** A head that arrives whole in one chunk, with nothing buffered, is cut
      off exactly, and the bytes after the blank line are what is left. */
  lemma CutWholeHead(lines: seq<Bytes>, rest: Bytes)
    requires PlainLines(lines)
    ensures CutHandshake([], Implode(lines, CRLF) + TERMINATOR + rest) == Cut(Implode(lines, CRLF), rest)
    ensures HeadCut([], Implode(lines, CRLF) + TERMINATOR + rest) == Cut(Implode(lines, CRLF), rest)
  {
    HeadCutWhole([], Implode(lines, CRLF) + TERMINATOR + rest, lines, rest);
    var head := Implode(lines, CRLF);
    var chunk := head + TERMINATOR + rest;
    HeadEndsAtTerminator(lines, rest);
    assert [] + chunk == chunk;
    assert Substr(chunk, 0, |head|) == head;
    assert SubstrFrom(chunk, |head| + 4) == rest;
  }

  /** As written, a head whose start was buffered by an earlier read is cut
      short: the offset of the terminator in the new chunk is applied to the
      buffered bytes followed by the chunk, so the head handed on is the
      first |tail| bytes and the last |buffer| bytes of the head are lost. */
  lemma BufferedHeadIsCutShort(buffer: Bytes, lines: seq<Bytes>, rest: Bytes)
    requires PlainLines(lines) && buffer != []
    ensures var tail := Implode(lines, CRLF);
      var r := CutHandshake(buffer, tail + TERMINATOR + rest);
      r.Cut? && r.head == (buffer + tail)[..|tail|] && |r.head| < |buffer + tail|
  {
    var tail := Implode(lines, CRLF);
    var chunk := tail + TERMINATOR + rest;
    HeadEndsAtTerminator(lines, rest);
    var all := buffer + chunk;
    assert Substr(all, 0, |tail|) == all[..|tail|] == (buffer + tail)[..|tail|];
  }

  /** The cut the handshake branch evidently intends: the terminator is
      looked for in the buffered bytes followed by the chunk, and the head
      is everything before its first occurrence. This is the cut both
      roles' handshake branches use in this model. */
  function HeadCut(buffer: Bytes, chunk: Bytes): (r: HandshakeCut)
    ensures r.Waiting? <==> Find(buffer + chunk, TERMINATOR, 0).None?
    ensures r.Waiting? ==> r.buffered == buffer + chunk
    ensures r.Cut? ==> buffer + chunk == r.head + TERMINATOR + r.rest
    ensures r.Cut? ==> forall j :: 0 <= j < |r.head| ==> !OccursAt(buffer + chunk, TERMINATOR, j)
  {
    var all := buffer + chunk;
    match Find(all, TERMINATOR, 0)
    case None => Waiting(all)
    case Some(end) =>
      assert all == all[..end] + TERMINATOR + all[end + 4..];
      Cut(all[..end], all[end + 4..])
  }

  /** However a head of plain lines is split between the buffered bytes and
      the new chunk, it is cut off whole, and the bytes after the blank line
      are what is left. */
  lemma HeadCutWhole(buffer: Bytes, chunk: Bytes, lines: seq<Bytes>, rest: Bytes)
    requires PlainLines(lines) && buffer + chunk == Implode(lines, CRLF) + TERMINATOR + rest
    ensures HeadCut(buffer, chunk) == Cut(Implode(lines, CRLF), rest)
  {
    var head := Implode(lines, CRLF);
    HeadEndsAtTerminator(lines, rest);
    var all := buffer + chunk;
    assert all[..|head|] == head;
    assert all[|head| + 4..] == rest;
  }

  /** With nothing buffered, the cut as written and the intended cut agree. */
  lemma CutsAgreeUnbuffered(chunk: Bytes)
    ensures CutHandshake([], chunk) == HeadCut([], chunk)
  {
    assert [] + chunk == chunk;
    match Find(chunk, TERMINATOR, 0)
    case None =>
    case Some(end) =>
      assert Substr(chunk, 0, end) == chunk[..end];
      assert SubstrFrom(chunk, end + 4) == chunk[end + 4..];
  }

  // Reading a head back with the library's own parser.

  /** The lines a head splits into at LF: every line but the last keeps the
      CR of its CRLF. */
  function WithCR(lines: seq<Bytes>): (r: seq<Bytes>)
    ensures |r| == |lines|
  {
    seq(|lines|, i requires 0 <= i < |lines| => if i < |lines| - 1 then lines[i] + [CR] else lines[i])
  }

  lemma {:induction false} SplitHead(lines: seq<Bytes>)
    requires PlainLines(lines)
    ensures Explode(Implode(lines, CRLF), LF) == WithCR(lines)
    decreases |lines|
  {
    if |lines| == 1 {
      assert Implode(lines, CRLF) == lines[0];
    } else {
      var first := lines[0] + [CR];
      var rest := Implode(lines[1..], CRLF);
      assert WithCR(lines) == [first] + WithCR(lines[1..]);
      assert Implode(lines, CRLF) == first + [LF] + rest;
      assert LF !in first;
      assert PlainLines(lines[1..]) by {
        forall i | 0 <= i < |lines[1..]|
          ensures PlainLine(lines[1..][i])
        {
          assert lines[1..][i] == lines[i + 1];
        }
      }
      ExplodeCons(first, LF, rest);
      SplitHead(lines[1..]);
    }
  }

  lemma ParseLinesSnoc(lines: seq<Bytes>, line: Bytes)
    ensures ParseLines(lines + [line]) == ParseLines(lines) + LineEntries(line)
  {
    assert (lines + [line])[..|lines|] == lines;
  }

  /** A header line `Name: value`, with or without the CR left by the split
      at LF, sets the lower-cased name to the trimmed value. */
  lemma NamedLine(name: Bytes, key: Bytes, value: Bytes, tail: Bytes)
    requires COLON !in name && IsTrimmed(name) && Lower(name) == key
    requires tail == [] || tail == [CR]
    ensures LineEntries(name + [COLON, SPACE] + value + tail) == map[key := Text(Trim([SPACE] + value + tail))]
  {
    var v := [SPACE] + value + tail;
    assert name + [COLON, SPACE] + value + tail == name + [COLON] + v;
    assert LineEntries(name + [COLON] + v) == map[key := Text(Trim(v))] by {
      HeaderLine(name, v);
      TrimTrimmed(name);
    }
  }

  /** trim() of a value padded with a space in front and a CR or nothing
      behind. */
  lemma TrimmedValue(value: Bytes, tail: Bytes)
    requires IsTrimmed(value) && (tail == [] || tail == [CR])
    ensures Trim([SPACE] + value + tail) == value
  {
    TrimPadding([SPACE], value, tail);
  }

  /** A field name the parser files under `key`: plain, trimmed, without a
      colon, and lower-casing to `key`. */
  predicate FieldName(name: Bytes, key: Bytes)
  {
    && name != [] && COLON !in name && CR !in name && LF !in name
    && IsTrimmed(name) && Lower(name) == key
  }

  /** A character a field name of this library is spelled with. */
  predicate NameChar(c: char)
  {
    'a' <= c <= 'z' || 'A' <= c <= 'Z' || c == '-'
  }

  function LowerChar(c: char): char
  {
    if 'A' <= c <= 'Z' then (c as int + 32) as char else c
  }

  /** `s` is spelled with letters and inner hyphens, and `k` is its
      lower-case form. */
  predicate Spelling(s: string, k: string)
  {
    && |s| == |k| && |s| > 0 && s[0] != '-' && s[|s| - 1] != '-'
    && forall i :: 0 <= i < |s| ==> NameChar(s[i]) && k[i] == LowerChar(s[i])
  }

  lemma SpelledName(s: string, k: string)
    requires Spelling(s, k)
    ensures FieldName(Str(s), Str(k))
  {
    var n := Str(s);
    var m := Str(k);
    forall i | 0 <= i < |n|
      ensures n[i] != COLON && n[i] != CR && n[i] != LF && !IsTrimmable(n[i]) && Lower(n)[i] == m[i]
    {
      NameByte(s[i]);
    }
    assert Lower(n) == m;
  }

  /** The byte of a name character: printable, and lower-cased as the
      character is. */
  lemma NameByte(c: char)
    requires NameChar(c)
    ensures var b := c as int % 256;
      b == c as int && b != COLON && b != CR && b != LF && !IsTrimmable(b)
      && LowerByte(b) == LowerChar(c) as int % 256
  {
  }

  lemma HostName()
    ensures FieldName(Str("Host"), Str("host"))
  {
    SpelledName("Host", "host");
  }

  lemma UserAgentName()
    ensures FieldName(Str("User-Agent"), Str("user-agent"))
  {
    SpelledName("User-Agent", "user-agent");
  }

  lemma UpgradeName()
    ensures FieldName(Str("Upgrade"), Str("upgrade"))
  {
    SpelledName("Upgrade", "upgrade");
  }

  lemma ConnectionName()
    ensures FieldName(Str("Connection"), Str("connection"))
  {
    SpelledName("Connection", "connection");
  }

  lemma KeyName()
    ensures FieldName(Str("Sec-WebSocket-Key"), Str("sec-websocket-key"))
  {
    SpelledName("Sec-WebSocket-Key", "sec-websocket-key");
  }

  lemma VersionName()
    ensures FieldName(Str("Sec-WebSocket-Version"), Str("sec-websocket-version"))
  {
    SpelledName("Sec-WebSocket-Version", "sec-websocket-version");
  }

  lemma ServerName()
    ensures FieldName(Str("Server"), Str("server"))
  {
    SpelledName("Server", "server");
  }

  lemma AcceptName()
    ensures FieldName(Str("Sec-WebSocket-Accept"), Str("sec-websocket-accept"))
  {
    SpelledName("Sec-WebSocket-Accept", "sec-websocket-accept");
  }

  lemma ProtocolName()
    ensures FieldName(Str("Sec-WebSocket-Protocol"), Str("sec-websocket-protocol"))
  {
    SpelledName("Sec-WebSocket-Protocol", "sec-websocket-protocol");
  }

  /** The parser files a header line under its lower-cased name, with the
      value trimmed of the space after the colon and of the CR the split at
      LF leaves. */
  lemma FieldEntry(name: Bytes, key: Bytes, value: Bytes, tail: Bytes)
    requires FieldName(name, key)
    requires tail == [] || tail == [CR]
    ensures LineEntries(Field(name, value) + tail) == map[key := Text(Trim([SPACE] + value + tail))]
  {
    NamedLine(name, key, value, tail);
  }

  /** A header line is plain when its value is. */
  lemma PlainField(name: Bytes, key: Bytes, value: Bytes)
    requires FieldName(name, key) && CR !in value && LF !in value
    ensures PlainLine(Field(name, value))
  {
  }

  /** What the request's lines must avoid for the request to read back: the
      path carries no colon and no surrounding blanks, the key no
      surrounding blanks, and no value a line break. */
  predicate SendableRequest(path: Bytes, host: Bytes, userAgent: Bytes, key: Bytes)
  {
    && COLON !in path && IsTrimmed(path) && IsTrimmed(key)
    && PlainRequest(path, host, userAgent, key)
  }

  /** No value of the request holds a line break. */
  predicate PlainRequest(path: Bytes, host: Bytes, userAgent: Bytes, key: Bytes)
  {
    && CR !in path && LF !in path && CR !in host && LF !in host
    && CR !in userAgent && LF !in userAgent && CR !in key && LF !in key
  }

  lemma RequestLinePlain(path: Bytes)
    requires CR !in path && LF !in path
    ensures PlainLine(Str("GET ") + path + Str(" HTTP/1.1"))
  {
    var get, http := Str("GET "), Str(" HTTP/1.1");
    assert get == [71, 69, 84, 32];
    assert http == [32, 72, 84, 84, 80, 47, 49, 46, 49];
    var line := get + path + http;
    forall i | 0 <= i < |line|
      ensures line[i] != CR && line[i] != LF
    {
      if i < 4 {
      } else if i < 4 + |path| {
        assert line[i] == path[i - 4];
      } else {
        assert line[i] == http[i - 4 - |path|];
      }
    }
  }

  /** The fixed values of the request: plain and trimmed. */
  lemma PlainValues()
    ensures PlainLine(Str("websocket")) && IsTrimmed(Str("websocket"))
    ensures PlainLine(Str("Upgrade")) && IsTrimmed(Str("Upgrade"))
    ensures PlainLine(Str("13")) && IsTrimmed(Str("13"))
  {
    assert Str("websocket") == [119, 101, 98, 115, 111, 99, 107, 101, 116];
    assert Str("Upgrade") == [85, 112, 103, 114, 97, 100, 101];
    assert Str("13") == [49, 51];
  }

  lemma RequestPlainLines(path: Bytes, host: Bytes, userAgent: Bytes, key: Bytes)
    requires PlainRequest(path, host, userAgent, key)
    ensures PlainLines(RequestLines(path, host, userAgent, key))
  {
    PlainValues();
    RequestLinePlain(path);
    assert PlainLine(Field(Str("Host"), host)) by {
      HostName();
      PlainField(Str("Host"), Str("host"), host);
    }
    assert PlainLine(Field(Str("User-Agent"), userAgent)) by {
      UserAgentName();
      PlainField(Str("User-Agent"), Str("user-agent"), userAgent);
    }
    assert PlainLine(Field(Str("Upgrade"), Str("websocket"))) by {
      UpgradeName();
      PlainField(Str("Upgrade"), Str("upgrade"), Str("websocket"));
    }
    assert PlainLine(Field(Str("Connection"), Str("Upgrade"))) by {
      ConnectionName();
      PlainField(Str("Connection"), Str("connection"), Str("Upgrade"));
    }
    assert PlainLine(Field(Str("Sec-WebSocket-Key"), key)) by {
      KeyName();
      PlainField(Str("Sec-WebSocket-Key"), Str("sec-websocket-key"), key);
    }
    assert PlainLine(Field(Str("Sec-WebSocket-Version"), Str("13"))) by {
      VersionName();
      PlainField(Str("Sec-WebSocket-Version"), Str("sec-websocket-version"), Str("13"));
    }
  }

  lemma WebSocketLower()
    ensures Lower(Str("websocket")) == Str("websocket")
  {
    assert Str("websocket") == [119, 101, 98, 115, 111, 99, 107, 101, 116];
  }

  /** Folding the entries of seven lines, from what each line sets. */
  lemma FoldSeven(w: seq<Bytes>, entries: Bytes -> Headers, m0: Headers, m1: Headers, m2: Headers,
                  m3: Headers, m4: Headers, m5: Headers, m6: Headers)
    requires |w| == 7
    requires entries(w[0]) == m0 && entries(w[1]) == m1 && entries(w[2]) == m2
    requires entries(w[3]) == m3 && entries(w[4]) == m4 && entries(w[5]) == m5
    requires entries(w[6]) == m6
    ensures Fold(w, entries) == m0 + m1 + m2 + m3 + m4 + m5 + m6
  {
    assert Fold(w[..1], entries) == m0 by {
      FoldStep(w, entries, 0);
      assert w[..0] == [];
    }
    assert Fold(w[..2], entries) == m0 + m1 by { FoldStep(w, entries, 1); }
    assert Fold(w[..3], entries) == m0 + m1 + m2 by { FoldStep(w, entries, 2); }
    assert Fold(w[..4], entries) == m0 + m1 + m2 + m3 by { FoldStep(w, entries, 3); }
    assert Fold(w[..5], entries) == m0 + m1 + m2 + m3 + m4 by { FoldStep(w, entries, 4); }
    assert Fold(w[..6], entries) == m0 + m1 + m2 + m3 + m4 + m5 by { FoldStep(w, entries, 5); }
    assert Fold(w[..7], entries) == m0 + m1 + m2 + m3 + m4 + m5 + m6 by { FoldStep(w, entries, 6); }
    assert w[..7] == w;
  }

  /** Folding one line more adds what that line sets. */
  lemma FoldStep(w: seq<Bytes>, entries: Bytes -> Headers, k: nat)
    requires k < |w|
    ensures Fold(w[..k + 1], entries) == Fold(w[..k], entries) + entries(w[k])
  {
    assert w[..k + 1][..k] == w[..k];
  }

  /** The headers the server's parser reads from the client's request. */
  /** The lines of the client's request as the split at LF leaves them. */
  lemma RequestSplit(path: Bytes, host: Bytes, userAgent: Bytes, key: Bytes)
    requires PlainRequest(path, host, userAgent, key)
    ensures var w := Explode(Implode(RequestLines(path, host, userAgent, key), CRLF), LF);
      && |w| == 7
      && w[0] == Str("GET ") + path + Str(" HTTP/1.1") + [CR]
      && w[1] == Field(Str("Host"), host) + [CR]
      && w[2] == Field(Str("User-Agent"), userAgent) + [CR]
      && w[3] == Field(Str("Upgrade"), Str("websocket")) + [CR]
      && w[4] == Field(Str("Connection"), Str("Upgrade")) + [CR]
      && w[5] == Field(Str("Sec-WebSocket-Key"), key) + [CR]
      && w[6] == Field(Str("Sec-WebSocket-Version"), Str("13")) + []
  {
    var lines := RequestLines(path, host, userAgent, key);
    RequestPlainLines(path, host, userAgent, key);
    SplitHead(lines);
  }

  /** The headers the server's parser reads from the lines of the client's
      request. */
  lemma RequestEntries(w: seq<Bytes>, path: Bytes, host: Bytes, userAgent: Bytes, key: Bytes)
    requires SendableRequest(path, host, userAgent, key)
    requires |w| == 7
    requires w[0] == Str("GET ") + path + Str(" HTTP/1.1") + [CR]
    requires w[1] == Field(Str("Host"), host) + [CR]
    requires w[2] == Field(Str("User-Agent"), userAgent) + [CR]
    requires w[3] == Field(Str("Upgrade"), Str("websocket")) + [CR]
    requires w[4] == Field(Str("Connection"), Str("Upgrade")) + [CR]
    requires w[5] == Field(Str("Sec-WebSocket-Key"), key) + [CR]
    requires w[6] == Field(Str("Sec-WebSocket-Version"), Str("13")) + []
    ensures ParseLines(w)
      == map[Str("get") := Text(path)]
      + map[Str("host") := Text(Trim([SPACE] + host + [CR]))]
      + map[Str("user-agent") := Text(Trim([SPACE] + userAgent + [CR]))]
      + map[Str("upgrade") := Text(Str("websocket"))]
      + map[Str("connection") := Text(Str("Upgrade"))]
      + map[Str("sec-websocket-key") := Text(key)]
      + map[Str("sec-websocket-version") := Text(Str("13"))]
  {
    PlainValues();
    assert LineEntries(w[0]) == map[Str("get") := Text(path)] by {
      RequestLine(path, [CR]);
    }
    assert LineEntries(w[1]) == map[Str("host") := Text(Trim([SPACE] + host + [CR]))] by {
      HostName();
      FieldEntry(Str("Host"), Str("host"), host, [CR]);
    }
    assert LineEntries(w[2]) == map[Str("user-agent") := Text(Trim([SPACE] + userAgent + [CR]))] by {
      UserAgentName();
      FieldEntry(Str("User-Agent"), Str("user-agent"), userAgent, [CR]);
    }
    assert LineEntries(w[3]) == map[Str("upgrade") := Text(Str("websocket"))] by {
      UpgradeName();
      FieldEntry(Str("Upgrade"), Str("upgrade"), Str("websocket"), [CR]);
      TrimmedValue(Str("websocket"), [CR]);
    }
    assert LineEntries(w[4]) == map[Str("connection") := Text(Str("Upgrade"))] by {
      ConnectionName();
      FieldEntry(Str("Connection"), Str("connection"), Str("Upgrade"), [CR]);
      TrimmedValue(Str("Upgrade"), [CR]);
    }
    assert LineEntries(w[5]) == map[Str("sec-websocket-key") := Text(key)] by {
      KeyName();
      FieldEntry(Str("Sec-WebSocket-Key"), Str("sec-websocket-key"), key, [CR]);
      TrimmedValue(key, [CR]);
    }
    assert LineEntries(w[6]) == map[Str("sec-websocket-version") := Text(Str("13"))] by {
      VersionName();
      FieldEntry(Str("Sec-WebSocket-Version"), Str("sec-websocket-version"), Str("13"), []);
      TrimmedValue(Str("13"), []);
    }
    FoldSeven(w, LineEntries, map[Str("get") := Text(path)],
      map[Str("host") := Text(Trim([SPACE] + host + [CR]))],
      map[Str("user-agent") := Text(Trim([SPACE] + userAgent + [CR]))],
      map[Str("upgrade") := Text(Str("websocket"))],
      map[Str("connection") := Text(Str("Upgrade"))],
      map[Str("sec-websocket-key") := Text(key)],
      map[Str("sec-websocket-version") := Text(Str("13"))]);
  }

  lemma RequestHeaders(path: Bytes, host: Bytes, userAgent: Bytes, key: Bytes)
    requires SendableRequest(path, host, userAgent, key)
    ensures ParseLines(Explode(Implode(RequestLines(path, host, userAgent, key), CRLF), LF))
      == map[Str("get") := Text(path)]
      + map[Str("host") := Text(Trim([SPACE] + host + [CR]))]
      + map[Str("user-agent") := Text(Trim([SPACE] + userAgent + [CR]))]
      + map[Str("upgrade") := Text(Str("websocket"))]
      + map[Str("connection") := Text(Str("Upgrade"))]
      + map[Str("sec-websocket-key") := Text(key)]
      + map[Str("sec-websocket-version") := Text(Str("13"))]
  {
    RequestSplit(path, host, userAgent, key);
    RequestEntries(Explode(Implode(RequestLines(path, host, userAgent, key), CRLF), LF), path, host, userAgent, key);
  }

  /** Headers shaped like those of the client's request pass every check of
      the server. */
  lemma RequestHeadersAccepted(path: Bytes, host: Bytes, userAgent: Bytes, key: Bytes)
    ensures var h := map[Str("get") := Text(path)]
      + map[Str("host") := Text(host)]
      + map[Str("user-agent") := Text(userAgent)]
      + map[Str("upgrade") := Text(Str("websocket"))]
      + map[Str("connection") := Text(Str("Upgrade"))]
      + map[Str("sec-websocket-key") := Text(key)]
      + map[Str("sec-websocket-version") := Text(Str("13"))];
      ResponseCode(h) == 101 && h[Str("get")] == Text(path) && RequestKey(h) == key
  {
    var h := map[Str("get") := Text(path)]
      + map[Str("host") := Text(host)]
      + map[Str("user-agent") := Text(userAgent)]
      + map[Str("upgrade") := Text(Str("websocket"))]
      + map[Str("connection") := Text(Str("Upgrade"))]
      + map[Str("sec-websocket-key") := Text(key)]
      + map[Str("sec-websocket-version") := Text(Str("13"))];
    assert h[Str("sec-websocket-version")] == Text(Str("13"));
    assert h[Str("sec-websocket-key")] == Text(key);
    assert h[Str("connection")] == Text(Str("Upgrade"));
    assert h[Str("upgrade")] == Text(Str("websocket"));
    assert h[Str("host")] == Text(host);
    assert h[Str("get")] == Text(path);
    assert UpgradesToWebSocket(h) by {
      WebSocketLower();
    }
    assert ConnectionUpgrade(h) by {
      UpgradeName();
      assert OccursAt(Str("upgrade"), Str("upgrade"), 0);
    }
    assert Version13(h) by {
      IntVal13();
    }
  }

  lemma IntVal13()
    ensures IntVal(Str("13")) == 13
  {
    assert Decimal(13) == Str("13");
    IntValDecimal(13);
  }

  /** A status line of a response, with the CR its CRLF leaves, does not
      throw. */
  lemma ResponseStatusParses(code: nat, text: Bytes)
    requires COLON !in text && FirstCI(text + [CR], Str("get "), 0).None?
    ensures !LineThrows(ResponseStatus(code, text) + [CR])
  {
    assert ResponseStatus(code, text) + [CR] == Str("HTTP/1.1 ") + Decimal(code) + [SPACE] + (text + [CR]);
    StatusLineParses(code, text + [CR]);
  }

  /** A header field holds a colon. */
  lemma FieldColon(name: Bytes, value: Bytes)
    ensures COLON in Field(name, value)
  {
    assert Field(name, value)[|name|] == COLON;
  }

  /** The client's request head parses without a throw. */
  lemma RequestParses(path: Bytes, host: Bytes, userAgent: Bytes, key: Bytes)
    requires SendableRequest(path, host, userAgent, key)
    ensures var w := Explode(Implode(RequestLines(path, host, userAgent, key), CRLF), LF);
      ParseAll(w).Ok?
  {
    var lines := RequestLines(path, host, userAgent, key);
    RequestPlainLines(path, host, userAgent, key);
    assert !LineThrows(lines[0] + [CR]) by {
      RequestLineParses(path, [CR]);
      assert lines[0] + [CR] == Str("GET ") + path + Str(" HTTP/1.1") + [CR];
    }
    FieldColon(Str("Host"), host);
    FieldColon(Str("User-Agent"), userAgent);
    FieldColon(Str("Upgrade"), Str("websocket"));
    FieldColon(Str("Connection"), Str("Upgrade"));
    FieldColon(Str("Sec-WebSocket-Key"), key);
    FieldColon(Str("Sec-WebSocket-Version"), Str("13"));
    HeadParses(lines);
  }

  /** The server reads the client's own request as an upgrade it accepts:
      cut from the bytes that follow it and parsed, it yields response code
      101, the client's path as the request target and the client's key. */
  lemma ServerAcceptsClientRequest(path: Bytes, host: Bytes, userAgent: Bytes, key: Bytes, rest: Bytes)
    requires SendableRequest(path, host, userAgent, key)
    ensures var head := Implode(RequestLines(path, host, userAgent, key), CRLF);
      var h := ParseLines(Explode(head, LF));
      && HeadCut([], ClientRequest(path, host, userAgent, key) + rest) == Cut(head, rest)
      && ParseAll(Explode(head, LF)) == Ok(h)
      && ResponseCode(h) == 101 && h[Str("get")] == Text(path) && RequestKey(h) == key
  {
    var lines := RequestLines(path, host, userAgent, key);
    var head := Implode(lines, CRLF);
    assert HeadCut([], ClientRequest(path, host, userAgent, key) + rest) == Cut(head, rest) by {
      RequestPlainLines(path, host, userAgent, key);
      CutWholeHead(lines, rest);
      assert ClientRequest(path, host, userAgent, key) + rest == head + TERMINATOR + rest;
    }
    RequestParses(path, host, userAgent, key);
    RequestHeaders(path, host, userAgent, key);
    RequestHeadersAccepted(path, Trim([SPACE] + host + [CR]), Trim([SPACE] + userAgent + [CR]), key);
  }

  /** A client path with a colon in it, `/a:b` or `/chat?at=12:00`: the
      server reads the request line as a header field named by "GET " and
      the path up to the colon, finds no request target and answers 405. */
  lemma ServerRefusesColonPath(before: Bytes, after: Bytes, host: Bytes, userAgent: Bytes, key: Bytes)
    requires before != [] && COLON !in before && IsTrimmed(before)
    requires PlainRequest(before + [COLON] + after, host, userAgent, key)
    ensures var h := ParseLines(Explode(Implode(RequestLines(before + [COLON] + after, host, userAgent, key), CRLF), LF));
      Str("get") !in h && ResponseCode(h) == 405
  {
    var path := before + [COLON] + after;
    var w := Explode(Implode(RequestLines(path, host, userAgent, key), CRLF), LF);
    RequestSplit(path, host, userAgent, key);
    var get := Str("get");
    assert get !in LineEntries(w[0]) by {
      ColonRequestLine(before, after);
    }
    assert get !in LineEntries(w[1]) by {
      HostName();
      FieldSetsNoGet(Str("Host"), Str("host"), host, [CR]);
    }
    assert get !in LineEntries(w[2]) by {
      UserAgentName();
      FieldSetsNoGet(Str("User-Agent"), Str("user-agent"), userAgent, [CR]);
    }
    assert get !in LineEntries(w[3]) by {
      UpgradeName();
      FieldSetsNoGet(Str("Upgrade"), Str("upgrade"), Str("websocket"), [CR]);
    }
    assert get !in LineEntries(w[4]) by {
      ConnectionName();
      FieldSetsNoGet(Str("Connection"), Str("connection"), Str("Upgrade"), [CR]);
    }
    assert get !in LineEntries(w[5]) by {
      KeyName();
      FieldSetsNoGet(Str("Sec-WebSocket-Key"), Str("sec-websocket-key"), key, [CR]);
    }
    assert get !in LineEntries(w[6]) by {
      VersionName();
      FieldSetsNoGet(Str("Sec-WebSocket-Version"), Str("sec-websocket-version"), Str("13"), []);
    }
    SevenLinesMiss(w, LineEntries, get);
  }

  /** A key none of seven lines sets is not folded in. */
  lemma SevenLinesMiss(w: seq<Bytes>, entries: Bytes -> Headers, k: Bytes)
    requires |w| == 7
    requires k !in entries(w[0]) && k !in entries(w[1]) && k !in entries(w[2]) && k !in entries(w[3])
    requires k !in entries(w[4]) && k !in entries(w[5]) && k !in entries(w[6])
    ensures k !in Fold(w, entries)
  {
    FoldSeven(w, entries, entries(w[0]), entries(w[1]), entries(w[2]), entries(w[3]),
      entries(w[4]), entries(w[5]), entries(w[6]));
  }

  /** The request line of a path with a colon sets no `get`. */
  lemma ColonRequestLine(before: Bytes, after: Bytes)
    requires before != [] && COLON !in before && IsTrimmed(before)
    ensures Str("get") !in LineEntries(Str("GET ") + (before + [COLON] + after) + Str(" HTTP/1.1") + [CR])
  {
    assert Str("GET ") + (before + [COLON] + after) + Str(" HTTP/1.1") + [CR]
      == Str("GET ") + before + [COLON] + (after + Str(" HTTP/1.1") + [CR]);
    RequestLineWithColon(before, after + Str(" HTTP/1.1") + [CR]);
  }

  /** A header field whose name is not three letters long sets no `get`. */
  lemma FieldSetsNoGet(name: Bytes, key: Bytes, value: Bytes, tail: Bytes)
    requires FieldName(name, key) && |key| != 3
    requires tail == [] || tail == [CR]
    ensures Str("get") !in LineEntries(Field(name, value) + tail)
  {
    FieldEntry(name, key, value, tail);
  }

  // What the client reads back.

  /** No "get " starts anywhere in `s`, in either case: no g is followed by
      an e. */
  predicate NoGetPair(s: Bytes)
  {
    forall i :: 0 <= i < |s| - 1 ==> !(LowerByte(s[i]) == 103 && LowerByte(s[i + 1]) == 101)
  }

  lemma NoGet(s: Bytes)
    requires NoGetPair(s)
    ensures FirstCI(s, Str("get "), 0).None?
  {
    var pat := Str("get ");
    assert pat == [103, 101, 116, 32];
    forall j | 0 <= j
      ensures !OccursAtCI(s, pat, j)
    {
      if j + 4 <= |s| {
        assert !(LowerByte(s[j]) == pat[0] && LowerByte(s[j + 1]) == pat[1]);
      }
    }
  }

  /** A line without an H holds no status pattern. */
  lemma {:induction false} NoStatusWithoutH(s: Bytes, p: nat)
    requires forall i :: 0 <= i < |s| ==> s[i] != 72
    ensures !StatusFrom(s, p)
    decreases |s| - p
  {
    if p < |s| {
      if p + 5 <= |s| {
        assert s[p..p + 5][0] == s[p];
        assert Str("HTTP/")[0] == 72;
      }
      NoStatusWithoutH(s, p + 1);
    }
  }

  /** A line leaves key `k` alone, whether or not it keeps the CR of its
      CRLF. */
  predicate Leaves(line: Bytes, k: Bytes)
  {
    k !in LineEntries(line) && k !in LineEntries(line + [CR])
  }

  /** A header line leaves every key but its own alone. */
  lemma FieldLeaves(name: Bytes, key: Bytes, value: Bytes, k: Bytes)
    requires FieldName(name, key) && |key| != |k|
    ensures Leaves(Field(name, value), k)
  {
    FieldEntry(name, key, value, []);
    assert Field(name, value) + [] == Field(name, value);
    FieldEntry(name, key, value, [CR]);
  }

  /** The status line of a response, as a plain line. */
  lemma StatusLinePlain(code: nat, text: Bytes)
    requires CR !in text && LF !in text
    ensures PlainLine(ResponseStatus(code, text))
  {
    var http := Str("HTTP/1.1 ");
    assert http == [72, 84, 84, 80, 47, 49, 46, 49, 32];
    var digits := Decimal(code);
    DecimalDigits(code);
    var line := http + digits + [SPACE] + text;
    forall i | 0 <= i < |line|
      ensures line[i] != CR && line[i] != LF
    {
      if i < 9 {
      } else if i < 9 + |digits| {
        assert line[i] == digits[i - 9];
        assert IsDigit(digits[i - 9]);
      } else if i == 9 + |digits| {
      } else {
        assert line[i] == text[i - 10 - |digits|];
      }
    }
  }

  /** The status line of a response sets the status code. */
  lemma StatusLineSetsCode(code: nat, text: Bytes)
    requires code <= PHP_INT_MAX && COLON !in text && FirstCI(text + [CR], Str("get "), 0).None?
    ensures Str("status-code") in LineEntries(ResponseStatus(code, text) + [CR])
    ensures LineEntries(ResponseStatus(code, text) + [CR])[Str("status-code")] == Number(code)
  {
    assert ResponseStatus(code, text) + [CR] == Str("HTTP/1.1 ") + Decimal(code) + [SPACE] + (text + [CR]);
    assert COLON !in text + [CR];
    StatusLine(code, text + [CR]);
    StatusKeysDiffer();
  }

  lemma StatusKeysDiffer()
    ensures Str("status-code") != Str("status-text")
  {
    assert Str("status-code")[7] != Str("status-text")[7];
  }

  /** A key set by the first line of a head and by no later line is read
      from the first line. */
  lemma FirstLineKey(lines: seq<Bytes>, entries: Bytes -> Headers, k: Bytes, v: HeaderValue)
    requires PlainLines(lines) && |lines| >= 2
    requires k in entries(lines[0] + [CR]) && entries(lines[0] + [CR])[k] == v
    requires forall i :: 1 <= i < |lines| ==> k !in entries(lines[i]) && k !in entries(lines[i] + [CR])
    ensures k in Fold(Explode(Implode(lines, CRLF), LF), entries)
    ensures Fold(Explode(Implode(lines, CRLF), LF), entries)[k] == v
  {
    var w := WithCR(lines);
    assert w[0] == lines[0] + [CR];
    assert forall i :: 1 <= i < |w| ==> k !in entries(w[i]);
    SplitHead(lines);
    FoldLastWriter(w, entries, 0, k);
  }

  /** The reason phrase of 101. */
  lemma SwitchingProtocols()
    ensures ReasonPhrase(101) == Str("Switching Protocols")
  {
    HandshakeStatusTexts();
  }

  /** "Switching Protocols" can stand in a status line: it holds no colon, no
      line break and no "get ". */
  lemma SwitchingProtocolsQuiet()
    ensures var t := Str("Switching Protocols");
      COLON !in t && CR !in t && LF !in t && FirstCI(t + [CR], Str("get "), 0).None?
  {
    var t := Str("Switching Protocols");
    assert t == SWITCHING_PROTOCOLS;
    PhraseBytes();
    assert FirstCI(t + [CR], Str("get "), 0).None? by {
      PhraseNoGet(SWITCHING_PROTOCOLS + [CR]);
      NoGet(SWITCHING_PROTOCOLS + [CR]);
    }
  }

  lemma PhraseBytes()
    ensures COLON !in SWITCHING_PROTOCOLS && CR !in SWITCHING_PROTOCOLS && LF !in SWITCHING_PROTOCOLS
  {
  }

  lemma SwitchingProtocolsBytes()
    ensures Str("Switching Protocols") == SWITCHING_PROTOCOLS
  {
  }

  /** The bytes of "Switching Protocols". */
  const SWITCHING_PROTOCOLS: Bytes := [83, 119, 105, 116, 99, 104, 105, 110, 103, 32, 80, 114, 111, 116, 111, 99, 111, 108, 115]

  /** Its only g is followed by a space. */
  lemma PhraseNoGet(t: Bytes)
    requires t == SWITCHING_PROTOCOLS + [CR]
    ensures NoGetPair(t)
  {
    forall i | 0 <= i < |t| - 1
      ensures !(LowerByte(t[i]) == 103 && LowerByte(t[i + 1]) == 101)
    {
      if i == 8 {
        assert t[i + 1] == 32;
      } else {
        assert LowerByte(t[i]) != 103;
      }
    }
  }

  /** A value a line can carry: without line breaks. */
  predicate Quiet(s: Bytes)
  {
    CR !in s && LF !in s
  }

  lemma AcceptLinesPlain(identifier: Bytes, accept: Bytes)
    requires Quiet(identifier) && Quiet(accept)
    ensures PlainLines(AcceptLines(identifier, accept))
  {
    var status := ResponseStatus(101, SWITCHING_PROTOCOLS);
    var server := Field(Str("Server"), identifier);
    var upgrade := Field(Str("Upgrade"), Str("websocket"));
    var connection := Field(Str("Connection"), Str("Upgrade"));
    var acceptLine := Field(Str("Sec-WebSocket-Accept"), accept);
    assert AcceptLines(identifier, accept) == [status, server, upgrade, connection, acceptLine];
    assert PlainLine(status) by {
      SwitchingProtocolsBytes();
      SwitchingProtocolsQuiet();
      StatusLinePlain(101, SWITCHING_PROTOCOLS);
    }
    assert PlainLine(server) by {
      ServerName();
      PlainField(Str("Server"), Str("server"), identifier);
    }
    UpgradeLinesPlain();
    assert PlainLine(acceptLine) by {
      AcceptName();
      PlainField(Str("Sec-WebSocket-Accept"), Str("sec-websocket-accept"), accept);
    }
  }

  /** The Upgrade and Connection lines every handshake writes. */
  lemma UpgradeLinesPlain()
    ensures PlainLine(Field(Str("Upgrade"), Str("websocket")))
    ensures PlainLine(Field(Str("Connection"), Str("Upgrade")))
  {
    PlainValues();
    UpgradeName();
    PlainField(Str("Upgrade"), Str("upgrade"), Str("websocket"));
    ConnectionName();
    PlainField(Str("Connection"), Str("connection"), Str("Upgrade"));
  }

  /** The header lines of accept's response leave every key alone but
      their own four. */
  lemma AcceptLinesLeave(identifier: Bytes, accept: Bytes, k: Bytes)
    requires |k| != 6 && |k| != 7 && |k| != 10 && |k| != 20
    ensures forall i :: 1 <= i < |AcceptLines(identifier, accept)| ==> Leaves(AcceptLines(identifier, accept)[i], k)
  {
    var lines := AcceptLines(identifier, accept);
    assert Leaves(lines[1], k) by {
      ServerName();
      FieldLeaves(Str("Server"), Str("server"), identifier, k);
    }
    assert Leaves(lines[2], k) by {
      UpgradeName();
      FieldLeaves(Str("Upgrade"), Str("upgrade"), Str("websocket"), k);
    }
    assert Leaves(lines[3], k) by {
      ConnectionName();
      FieldLeaves(Str("Connection"), Str("connection"), Str("Upgrade"), k);
    }
    assert Leaves(lines[4], k) by {
      AcceptName();
      FieldLeaves(Str("Sec-WebSocket-Accept"), Str("sec-websocket-accept"), accept, k);
    }
    forall i | 1 <= i < |lines|
      ensures Leaves(lines[i], k)
    {
      if i == 1 {
      } else if i == 2 {
      } else if i == 3 {
      } else {
        assert i == 4;
      }
    }
  }

  lemma AcceptHeadPlain(identifier: Bytes, accept: Bytes, last: seq<Bytes>)
    requires Quiet(identifier) && Quiet(accept)
    requires forall i :: 0 <= i < |last| ==> PlainLine(last[i])
    ensures PlainLines(AcceptLines(identifier, accept) + last)
  {
    var head := AcceptLines(identifier, accept);
    var lines := head + last;
    AcceptLinesPlain(identifier, accept);
    forall i | 0 <= i < |lines|
      ensures PlainLine(lines[i])
    {
      if i < |head| {
        assert lines[i] == head[i];
      } else {
        assert lines[i] == last[i - |head|];
      }
    }
  }

  lemma AcceptHeadLeaves(identifier: Bytes, accept: Bytes, last: seq<Bytes>, k: Bytes)
    requires |k| != 6 && |k| != 7 && |k| != 10 && |k| != 20
    requires forall i :: 0 <= i < |last| ==> Leaves(last[i], k)
    ensures var lines := AcceptLines(identifier, accept) + last;
      forall i :: 1 <= i < |lines| ==> Leaves(lines[i], k)
  {
    var head := AcceptLines(identifier, accept);
    var lines := head + last;
    AcceptLinesLeave(identifier, accept, k);
    forall i | 1 <= i < |lines|
      ensures Leaves(lines[i], k)
    {
      if i < |head| {
        assert lines[i] == head[i];
      } else {
        assert lines[i] == last[i - |head|];
      }
    }
  }

  /** A key the status line of accept's head sets, and the line after the
      accept value leaves alone, is read from the status line. */
  lemma AcceptHeadKey(identifier: Bytes, accept: Bytes, last: seq<Bytes>, k: Bytes, v: HeaderValue)
    requires Quiet(identifier) && Quiet(accept) && |last| <= 1
    requires forall i :: 0 <= i < |last| ==> PlainLine(last[i]) && Leaves(last[i], k)
    requires |k| != 6 && |k| != 7 && |k| != 10 && |k| != 20
    requires var first := ResponseStatus(101, Str("Switching Protocols")) + [CR];
      k in LineEntries(first) && LineEntries(first)[k] == v
    ensures var h := ParseLines(Explode(Implode(AcceptLines(identifier, accept) + last, CRLF), LF));
      k in h && h[k] == v
  {
    var lines := AcceptLines(identifier, accept) + last;
    SwitchingProtocolsBytes();
    AcceptHeadPlain(identifier, accept, last);
    AcceptHeadLeaves(identifier, accept, last, k);
    HeadKeyFromFirst(lines, k, v);
  }

  /** A key the first line of a head sets, and no later line touches, is
      read from the first line. */
  lemma HeadKeyFromFirst(lines: seq<Bytes>, k: Bytes, v: HeaderValue)
    requires PlainLines(lines) && |lines| >= 2
    requires k in LineEntries(lines[0] + [CR]) && LineEntries(lines[0] + [CR])[k] == v
    requires forall i :: 1 <= i < |lines| ==> Leaves(lines[i], k)
    ensures var h := ParseLines(Explode(Implode(lines, CRLF), LF));
      k in h && h[k] == v
  {
    FirstLineKey(lines, LineEntries, k, v);
  }

  /** A head whose first line, with the CR its CRLF leaves, does not throw
      and whose later lines are header fields parses without a throw. */
  lemma HeadParses(lines: seq<Bytes>)
    requires PlainLines(lines) && |lines| >= 2
    requires !LineThrows(lines[0] + [CR])
    requires forall i :: 1 <= i < |lines| ==> COLON in lines[i]
    ensures var w := Explode(Implode(lines, CRLF), LF);
      ParseAll(w).Ok?
  {
    SplitHead(lines);
    var w := WithCR(lines);
    forall j | 0 <= j < |w|
      ensures !LineThrows(w[j])
    {
      if j > 0 {
        assert COLON in lines[j];
      }
    }
    ParseAllOk(w);
  }

  /** accept's head, with a header field or nothing after the accept value,
      parses without a throw. */
  lemma AcceptHeadParses(identifier: Bytes, accept: Bytes, last: seq<Bytes>)
    requires Quiet(identifier) && Quiet(accept) && |last| <= 1
    requires forall i :: 0 <= i < |last| ==> PlainLine(last[i]) && COLON in last[i]
    ensures var w := Explode(Implode(AcceptLines(identifier, accept) + last, CRLF), LF);
      ParseAll(w).Ok?
  {
    var head := AcceptLines(identifier, accept);
    var lines := head + last;
    AcceptHeadPlain(identifier, accept, last);
    AcceptLinesColons(identifier, accept);
    assert !LineThrows(lines[0] + [CR]) by {
      AcceptStatusParses();
      assert lines[0] == head[0];
    }
    FieldsAfterFirst(head, last);
    HeadParses(lines);
  }

  /** accept's head as written parses without a throw. */
  lemma AcceptResponseParses(identifier: Bytes, accept: Bytes, protocol: Option<Bytes>)
    requires Quiet(identifier) && Quiet(accept)
    requires protocol.Some? ==> Quiet(protocol.value)
    ensures var w := Explode(Implode(AcceptHead(identifier, accept, protocol), CRLF), LF);
      ParseAll(w).Ok?
  {
    var last := ProtocolTail(protocol);
    assert AcceptHead(identifier, accept, protocol) == AcceptLines(identifier, accept) + last;
    AcceptHeadParses(identifier, accept, last);
  }

  /** What accept's head has after the accept value: the subprotocol line
      when a subprotocol is given, a plain header field. */
  lemma ProtocolTail(protocol: Option<Bytes>) returns (last: seq<Bytes>)
    requires protocol.Some? ==> Quiet(protocol.value)
    ensures last == if protocol.Some? then [ProtocolLine(protocol.value)] else []
    ensures forall i :: 0 <= i < |last| ==> PlainLine(last[i]) && COLON in last[i]
  {
    if protocol.Some? {
      var line := ProtocolLine(protocol.value);
      assert PlainLine(line) by {
        ProtocolLineQuiet(protocol.value);
      }
      assert COLON in line by {
        FieldColon(Str("Sec-WebSocket-Protocol"), protocol.value);
      }
      last := [line];
    } else {
      last := [];
    }
  }

  /** Header fields appended after the first line keep every line after
      the first a header field. */
  lemma FieldsAfterFirst(head: seq<Bytes>, last: seq<Bytes>)
    requires |head| >= 1 && forall i :: 1 <= i < |head| ==> COLON in head[i]
    requires forall i :: 0 <= i < |last| ==> COLON in last[i]
    ensures forall i :: 1 <= i < |head + last| ==> COLON in (head + last)[i]
  {
    forall i | 1 <= i < |head + last|
      ensures COLON in (head + last)[i]
    {
      if i >= |head| {
        assert (head + last)[i] == last[i - |head|];
      }
    }
  }

  /** The status line of accept's head does not throw. */
  lemma AcceptStatusParses()
    ensures !LineThrows(ResponseStatus(101, SWITCHING_PROTOCOLS) + [CR])
  {
    SwitchingProtocolsQuiet();
    ResponseStatusParses(101, Str("Switching Protocols"));
    SwitchingProtocolsBytes();
  }

  /** The lines of accept's head after the status line are header fields. */
  lemma AcceptLinesColons(identifier: Bytes, accept: Bytes)
    ensures var head := AcceptLines(identifier, accept);
      head[0] == ResponseStatus(101, SWITCHING_PROTOCOLS)
      && forall i :: 1 <= i < |head| ==> COLON in head[i]
  {
    FieldColon(Str("Server"), identifier);
    FieldColon(Str("Upgrade"), Str("websocket"));
    FieldColon(Str("Connection"), Str("Upgrade"));
    FieldColon(Str("Sec-WebSocket-Accept"), accept);
  }

  /** The client reads status 101 from accept's head, whatever line follows
      the accept value, as long as that line leaves the status code alone. */
  lemma AcceptHeadStatus(identifier: Bytes, accept: Bytes, last: seq<Bytes>)
    requires Quiet(identifier) && Quiet(accept) && |last| <= 1
    requires forall i :: 0 <= i < |last| ==> PlainLine(last[i]) && Leaves(last[i], Str("status-code"))
    ensures var h := ParseLines(Explode(Implode(AcceptLines(identifier, accept) + last, CRLF), LF));
      Str("status-code") in h && h[Str("status-code")] == Number(101)
  {
    SwitchingProtocolsQuiet();
    StatusLineSetsCode(101, Str("Switching Protocols"));
    AcceptHeadKey(identifier, accept, last, Str("status-code"), Number(101));
  }

  // The subprotocol line.

  /** As written, accept's subprotocol line sets nothing when a client reads
      it: without a colon it is no header field, and a subprotocol without a
      colon, an H or a g is no request or status line either. So the client
      never learns the subprotocol the server chose. */
  lemma ProtocolLineIgnored(p: Bytes)
    requires forall i :: 0 <= i < |p| ==> p[i] != COLON && p[i] != 72 && LowerByte(p[i]) != 103
    ensures LineEntries(ProtocolLineAsWritten(p)) == map[]
    ensures LineEntries(ProtocolLineAsWritten(p) + [CR]) == map[]
  {
    var name := Str("Sec-WebSocket-Protocol");
    var key := Str("sec-websocket-protocol");
    ProtocolName();
    forall i | 0 <= i < |name|
      ensures name[i] != COLON && name[i] != 72 && LowerByte(name[i]) != 103
    {
      assert LowerByte(name[i]) == key[i];
    }
    PlainWithout(name + [SPACE] + p);
    PlainWithout(name + [SPACE] + p + [CR]);
  }

  /** A line without a colon, an H or a g sets nothing. */
  lemma PlainWithout(line: Bytes)
    requires forall i :: 0 <= i < |line| ==> line[i] != COLON && line[i] != 72 && LowerByte(line[i]) != 103
    ensures LineEntries(line) == map[]
  {
    assert COLON !in line;
    NoGet(line);
    NoStatusWithoutH(line, 0);
  }

  /** The subprotocol line written as a header field is read back as the
      subprotocol, with or without the CR its CRLF leaves. */
  lemma ProtocolLineRead(p: Bytes, tail: Bytes)
    requires Quiet(p) && IsTrimmed(p) && (tail == [] || tail == [CR])
    ensures LineEntries(ProtocolLine(p) + tail) == map[Str("sec-websocket-protocol") := Text(p)]
  {
    ProtocolName();
    FieldEntry(Str("Sec-WebSocket-Protocol"), Str("sec-websocket-protocol"), p, tail);
    TrimmedValue(p, tail);
  }

  /** The subprotocol line fits in a head and leaves the status code alone. */
  lemma ProtocolLineQuiet(p: Bytes)
    requires Quiet(p)
    ensures PlainLine(ProtocolLine(p)) && Leaves(ProtocolLine(p), Str("status-code"))
  {
    ProtocolName();
    PlainField(Str("Sec-WebSocket-Protocol"), Str("sec-websocket-protocol"), p);
    FieldLeaves(Str("Sec-WebSocket-Protocol"), Str("sec-websocket-protocol"), p, Str("status-code"));
  }

  /** What the last line of a head sets is read as it set it. */
  lemma LastLineKey(lines: seq<Bytes>, k: Bytes)
    requires PlainLines(lines) && k in LineEntries(lines[|lines| - 1])
    ensures var h := ParseLines(Explode(Implode(lines, CRLF), LF));
      k in h && h[k] == LineEntries(lines[|lines| - 1])[k]
  {
    SplitHead(lines);
    var w := WithCR(lines);
    assert w[|w| - 1] == lines[|lines| - 1];
    FoldLastKey(w, LineEntries, k);
  }

  /** A key the last line sets is folded to what that line sets it to. */
  lemma FoldLastKey(w: seq<Bytes>, entries: Bytes -> Headers, k: Bytes)
    requires |w| > 0 && k in entries(w[|w| - 1])
    ensures k in Fold(w, entries) && Fold(w, entries)[k] == entries(w[|w| - 1])[k]
  {
  }

  /** A client reads the server's accept response back: cut from whatever
      follows it, its head parses to status 101 and, when the server names a
      subprotocol, to that subprotocol. */
  lemma ClientReadsAcceptResponse(identifier: Bytes, accept: Bytes, protocol: Option<Bytes>, rest: Bytes)
    requires Quiet(identifier) && Quiet(accept)
    requires protocol.Some? ==> Quiet(protocol.value) && IsTrimmed(protocol.value)
    ensures var head := Implode(AcceptHead(identifier, accept, protocol), CRLF);
      var h := ParseLines(Explode(head, LF));
      && HeadCut([], AcceptResponse(identifier, accept, protocol) + rest) == Cut(head, rest)
      && Str("status-code") in h && h[Str("status-code")] == Number(101)
      && (protocol.Some? ==> Str("sec-websocket-protocol") in h && h[Str("sec-websocket-protocol")] == Text(protocol.value))
  {
    AcceptResponseCut(identifier, accept, protocol, rest);
    AcceptResponseStatus(identifier, accept, protocol);
    if protocol.Some? {
      AcceptResponseProtocol(identifier, accept, protocol.value);
    }
  }

  /** The accept head, as lines, with the optional subprotocol line last. */
  lemma AcceptHeadLines(identifier: Bytes, accept: Bytes, protocol: Option<Bytes>) returns (last: seq<Bytes>)
    requires Quiet(identifier) && Quiet(accept)
    requires protocol.Some? ==> Quiet(protocol.value)
    ensures AcceptHead(identifier, accept, protocol) == AcceptLines(identifier, accept) + last
    ensures forall i :: 0 <= i < |last| ==> PlainLine(last[i]) && Leaves(last[i], Str("status-code"))
    ensures PlainLines(AcceptHead(identifier, accept, protocol))
  {
    last := ProtocolTail(protocol);
    assert AcceptHead(identifier, accept, protocol) == AcceptLines(identifier, accept) + last;
    if protocol.Some? {
      ProtocolLineQuiet(protocol.value);
    }
    AcceptHeadPlain(identifier, accept, last);
  }

  /** The accept response is cut from whatever follows it at its blank line. */
  lemma AcceptResponseCut(identifier: Bytes, accept: Bytes, protocol: Option<Bytes>, rest: Bytes)
    requires Quiet(identifier) && Quiet(accept)
    requires protocol.Some? ==> Quiet(protocol.value) && IsTrimmed(protocol.value)
    ensures HeadCut([], AcceptResponse(identifier, accept, protocol) + rest)
      == Cut(Implode(AcceptHead(identifier, accept, protocol), CRLF), rest)
  {
    var _ := AcceptHeadLines(identifier, accept, protocol);
    var lines := AcceptHead(identifier, accept, protocol);
    assert [] + (AcceptResponse(identifier, accept, protocol) + rest) == Implode(lines, CRLF) + TERMINATOR + rest;
    HeadCutWhole([], AcceptResponse(identifier, accept, protocol) + rest, lines, rest);
  }

  /** The accept head parses to status 101. */
  lemma AcceptResponseStatus(identifier: Bytes, accept: Bytes, protocol: Option<Bytes>)
    requires Quiet(identifier) && Quiet(accept)
    requires protocol.Some? ==> Quiet(protocol.value) && IsTrimmed(protocol.value)
    ensures var h := ParseLines(Explode(Implode(AcceptHead(identifier, accept, protocol), CRLF), LF));
      Str("status-code") in h && h[Str("status-code")] == Number(101)
  {
    var last := AcceptHeadLines(identifier, accept, protocol);
    AcceptHeadStatus(identifier, accept, last);
  }

  /** The accept head naming a subprotocol parses to that subprotocol. */
  lemma AcceptResponseProtocol(identifier: Bytes, accept: Bytes, protocol: Bytes)
    requires Quiet(identifier) && Quiet(accept) && Quiet(protocol) && IsTrimmed(protocol)
    ensures var h := ParseLines(Explode(Implode(AcceptHead(identifier, accept, Some(protocol)), CRLF), LF));
      Str("sec-websocket-protocol") in h && h[Str("sec-websocket-protocol")] == Text(protocol)
  {
    var _ := AcceptHeadLines(identifier, accept, Some(protocol));
    var lines := AcceptHead(identifier, accept, Some(protocol));
    ProtocolLineRead(protocol, []);
    assert lines[|lines| - 1] + [] == ProtocolLine(protocol);
    LastLineKey(lines, Str("sec-websocket-protocol"));
  }

  /** A head of a status line and a Server line, cut and parsed, yields the
      status code. */
  lemma StatusHeadRead(code: nat, text: Bytes, identifier: Bytes, rest: Bytes)
    requires code <= PHP_INT_MAX && Quiet(identifier)
    requires Quiet(text) && COLON !in text && FirstCI(text + [CR], Str("get "), 0).None?
    ensures var head := Implode(ResponseLines(code, text, identifier), CRLF);
      var h := ParseLines(Explode(head, LF));
      && HeadCut([], head + TERMINATOR + rest) == Cut(head, rest)
      && Str("status-code") in h && h[Str("status-code")] == Number(code)
  {
    var lines := ResponseLines(code, text, identifier);
    assert PlainLines(lines) by {
      StatusLinePlain(code, text);
      ServerName();
      PlainField(Str("Server"), Str("server"), identifier);
    }
    CutWholeHead(lines, rest);
    assert Leaves(lines[1], Str("status-code")) by {
      ServerName();
      FieldLeaves(Str("Server"), Str("server"), identifier, Str("status-code"));
    }
    StatusLineSetsCode(code, text);
    HeadKeyFromFirst(lines, Str("status-code"), Number(code));
  }

  /** A head of a status line and a Server line parses without a throw. */
  lemma StatusHeadParses(code: nat, text: Bytes, identifier: Bytes)
    requires code <= PHP_INT_MAX && Quiet(identifier)
    requires Quiet(text) && COLON !in text && FirstCI(text + [CR], Str("get "), 0).None?
    ensures ParseAll(Explode(Implode(ResponseLines(code, text, identifier), CRLF), LF)).Ok?
  {
    var lines := ResponseLines(code, text, identifier);
    assert PlainLines(lines) by {
      StatusLinePlain(code, text);
      ServerName();
      PlainField(Str("Server"), Str("server"), identifier);
    }
    ResponseStatusParses(code, text);
    FieldColon(Str("Server"), identifier);
    HeadParses(lines);
  }

  /** A client reads deny's response back as a refusal: cut from whatever
      follows it, its head parses to the code denied, so any code other
      than 101 leaves the client without an upgrade. */
  lemma ClientReadsDenyResponse(code: nat, identifier: Bytes, rest: Bytes)
    requires code <= PHP_INT_MAX && Quiet(identifier)
    requires var t := ReasonPhrase(code); Quiet(t) && COLON !in t && FirstCI(t + [CR], Str("get "), 0).None?
    ensures var head := Implode(ResponseLines(code, ReasonPhrase(code), identifier), CRLF);
      var h := ParseLines(Explode(head, LF));
      && HeadCut([], DenyResponse(code, identifier) + rest) == Cut(head, rest)
      && ParseAll(Explode(head, LF)) == Ok(h)
      && Str("status-code") in h && h[Str("status-code")] == Number(code)
  {
    StatusHeadRead(code, ReasonPhrase(code), identifier, rest);
    StatusHeadParses(code, ReasonPhrase(code), identifier);
  }
  /** A client reads getErrorPageForCode's page as a refusal: the head ends
      at the first blank line, before the HTML, and parses to the code of
      the page. */
  lemma ClientReadsErrorPage(code: nat, identifier: Bytes)
    requires code <= PHP_INT_MAX && Quiet(identifier)
    requires var t := ErrorText(code); Quiet(t) && COLON !in t && FirstCI(t + [CR], Str("get "), 0).None?
    ensures var head := Implode(ResponseLines(code, ErrorText(code), identifier), CRLF);
      var h := ParseLines(Explode(head, LF));
      var cut := HeadCut([], ErrorPage(code, identifier));
      && cut.Cut? && cut.head == head
      && ParseAll(Explode(head, LF)) == Ok(h)
      && Str("status-code") in h && h[Str("status-code")] == Number(code)
  {
    var head := Implode(ResponseLines(code, ErrorText(code), identifier), CRLF);
    var title := Decimal(code) + [SPACE] + ErrorText(code);
    var body := Str("<html><head><title>") + title + Str("</title></head><body bgcolor='white'><h1 align=\"center\">")
      + title + Str("</h1><hr><div align=\"center\">") + identifier + Str("</div></body></html>") + TERMINATOR;
    assert ErrorPage(code, identifier) == head + TERMINATOR + body;
    StatusHeadRead(code, ErrorText(code), identifier, body);
    StatusHeadParses(code, ErrorText(code), identifier);
  }
}
