// The minimal HTTP header parser both handshake roles use: the raw head is
// split into lines at LF, and each line contributes a request target, a
// status code and text, or one `name: value` pair.

module Http {
  import opened Wrappers
  import opened Bytes
  import opened PhpStrings

  /** A parsed header value: header values and the request target are
      strings, `status-code` is an integer, and `status-text` is NULL when the
      status line has no reason phrase. */
  datatype HeaderValue = Text(text: Bytes) | Number(number: int) | Null

  type Headers = map<Bytes, HeaderValue>

  /** The number of consecutive digits starting at index k. */
  function DigitRun(s: Bytes, k: nat): (n: nat)
    ensures k + n <= |s| || n == 0
    ensures forall i :: k <= i < k + n ==> IsDigit(s[i])
    ensures k + n < |s| ==> !IsDigit(s[k + n])
    decreases |s| - k
  {
    if k < |s| && IsDigit(s[k]) then 1 + DigitRun(s, k + 1) else 0
  }

  /** Whether `HTTP/\d+\.\d+ (\d+)` matches at index p. The digit runs are
      followed by a non-digit, so greedy matching needs no backtracking. */
  predicate StatusAt(s: Bytes, p: nat)
  {
    p + 5 <= |s| && s[p..p + 5] == Str("HTTP/")
    && var a := p + 5 + DigitRun(s, p + 5);
       a > p + 5 && a < |s| && s[a] == 46
       && var b := a + 1 + DigitRun(s, a + 1);
          b > a + 1 && b < |s| && s[b] == SPACE && DigitRun(s, b + 1) > 0
  }

  /** Whether the status pattern matches anywhere at or after index p. */
  predicate StatusFrom(s: Bytes, p: nat)
    decreases |s| - p
  {
    p < |s| && (StatusAt(s, p) || StatusFrom(s, p + 1))
  }

  lemma {:induction false} StatusHasSpace(s: Bytes, p: nat)
    requires StatusFrom(s, p)
    ensures SPACE in s
    decreases |s| - p
  {
    if !StatusAt(s, p) {
      StatusHasSpace(s, p + 1);
    } else {
      var a := p + 5 + DigitRun(s, p + 5);
      var b := a + 1 + DigitRun(s, a + 1);
      assert s[b] == SPACE;
    }
  }

  /** The target of a request line, as `/GET (.*) HTTP/i` captures it and
      trim() cleans it: from just after the first "get " to the last " http"
      that follows it. Without such a " http" the pattern does not match and
      there is no capture; LineThrows names that line, and ParseAll fails on
      it before its entries are used, so the empty target given here is
      never part of a parse. */
  function RequestTarget(line: Bytes): Bytes
  {
    match FirstCI(line, Str("get "), 0)
    case None => []
    case Some(i) =>
      match LastCI(line, Str(" http"), i + 4)
      case None => []
      case Some(j) => Trim(line[i + 4..j])
  }

  /** What one line sets: a line with a colon sets its lower-cased, trimmed
      name to its trimmed value; otherwise a line containing "get " sets the
      request target; otherwise a status line sets the code and the text
      after the second space; any other line sets nothing. */
  function LineEntries(line: Bytes): Headers
  {
    if COLON in line then
      var parts := SplitFirst(line, COLON);
      map[Lower(Trim(parts[0])) := Text(Trim(parts[1]))]
    else if FirstCI(line, Str("get "), 0).Some? then
      map[Str("get") := Text(RequestTarget(line))]
    else if StatusFrom(line, 0) then
      StatusHasSpace(line, 0);
      var pieces := SplitTwice(line, SPACE);
      map[Str("status-code") := Number(IntVal(pieces[1])),
          Str("status-text") := if |pieces| == 3 then Text(pieces[2]) else Null]
    else map[]
  }

  /** The headers of a sequence of lines, each line overriding what earlier
      ones set. */
  function ParseLines(lines: seq<Bytes>): Headers
  {
    Fold(lines, LineEntries)
  }

  /** Folding per-line entries into one map, left to right. */
  function Fold(lines: seq<Bytes>, entries: Bytes -> Headers): Headers
  {
    if lines == [] then map[]
    else Fold(lines[..|lines| - 1], entries) + entries(lines[|lines| - 1])
  }

  /** Whether parsing the line throws: it has no colon and contains "get ",
      but no " http" follows, so `/GET (.*) HTTP/i` leaves no capture and
      trim() of the missing capture (NULL) is a TypeError under strict
      typing. */
  predicate LineThrows(line: Bytes)
  {
    && COLON !in line
    && match FirstCI(line, Str("get "), 0)
       case None => false
       case Some(i) => LastCI(line, Str(" http"), i + 4).None?
  }

  /** The lines parsed in order: the first line that throws ends the parse
      with a TypeError; when none throws, the headers are the fold of the
      line rule. */
  function ParseAll(lines: seq<Bytes>): (r: Result<Headers>)
    ensures r.Ok? ==> r.value == ParseLines(lines)
    ensures r.Fail? ==> r.error == TypeError
  {
    ParseWith(lines, LineThrows, LineEntries)
  }

  /** Parsing lines in order with a per-line rule, where the first line that
      throws ends the parse. */
  function ParseWith(lines: seq<Bytes>, throws: Bytes -> bool, entries: Bytes -> Headers): (r: Result<Headers>)
    ensures r.Ok? ==> r.value == Fold(lines, entries)
    ensures r.Fail? ==> r.error == TypeError
  {
    if lines == [] then Ok(map[])
    else
      match ParseWith(lines[..|lines| - 1], throws, entries)
      case Fail(e) => Fail(e)
      case Ok(h) => if throws(lines[|lines| - 1]) then Fail(TypeError) else Ok(h + entries(lines[|lines| - 1]))
  }

  /** The parse fails exactly when some line throws. */
  lemma ParseAllOk(lines: seq<Bytes>)
    ensures ParseAll(lines).Ok? <==> forall j :: 0 <= j < |lines| ==> !LineThrows(lines[j])
  {
    ParseWithOk(lines, LineThrows, LineEntries);
  }

  lemma {:induction false} ParseWithOk(lines: seq<Bytes>, throws: Bytes -> bool, entries: Bytes -> Headers)
    ensures ParseWith(lines, throws, entries).Ok? <==> forall j :: 0 <= j < |lines| ==> !throws(lines[j])
  {
    if lines != [] {
      var init := lines[..|lines| - 1];
      ParseWithOk(init, throws, entries);
      assert forall j :: 0 <= j < |init| ==> init[j] == lines[j];
    }
  }

  /** ParseHTTPHeaders: explode the head at LF and parse the lines in
      order; a line that throws ends the parse. */
  method ParseHTTPHeaders(raw: Bytes) returns (r: Result<Headers>)
    ensures r == ParseAll(Explode(raw, LF))
  {
    var lines := Explode(raw, LF);
    var headers := map[];
    var i := 0;
    while i < |lines|
      invariant 0 <= i <= |lines|
      invariant ParseAll(lines[..i]) == Ok(headers)
    {
      assert lines[..i + 1][..i] == lines[..i];
      if LineThrows(lines[i]) {
        ParseAllOk(lines);
        return Fail(TypeError);
      }
      headers := headers + LineEntries(lines[i]);
      i := i + 1;
    }
    assert lines[..i] == lines;
    r := Ok(headers);
  }

  /** A request line without the protocol version throws, so a head that
      starts with one fails to parse whatever lines follow. */
  lemma RequestWithoutVersionThrows(rest: seq<Bytes>)
    ensures ParseAll([Str("GET /chat") + [CR]] + rest) == Fail(TypeError)
  {
    var line := Str("GET /chat") + [CR];
    assert line == [71, 69, 84, 32, 47, 99, 104, 97, 116, 13];
    NoVersionThrows(line);
    assert ([line] + rest)[0] == line;
    ParseAllOk([line] + rest);
  }

  lemma NoVersionThrows(line: Bytes)
    requires line == [71, 69, 84, 32, 47, 99, 104, 97, 116, 13]
    ensures LineThrows(line)
  {
    assert OccursAtCI(line, Str("get "), 0);
    assert Str(" http")[0] == 32 && LowerByte(line[4]) == 47 && LowerByte(line[5]) == 99;
    assert LastCI(line, Str(" http"), 6).None?;
  }

  /** A key is set exactly when some line sets it. */
  lemma ParsedKeys(lines: seq<Bytes>, k: Bytes)
    ensures k in ParseLines(lines) <==> exists j :: 0 <= j < |lines| && k in LineEntries(lines[j])
  {
    if k in ParseLines(lines) {
      FoldKeySource(lines, LineEntries, k);
    }
    if exists j :: 0 <= j < |lines| && k in LineEntries(lines[j]) {
      var j :| 0 <= j < |lines| && k in LineEntries(lines[j]);
      FoldKeyStays(lines, LineEntries, j, k);
    }
  }

  /** Later duplicates overwrite earlier ones: the value of a key is what the
      last line setting it gave it. */
  lemma LastWriterWins(lines: seq<Bytes>, j: nat, k: Bytes)
    requires j < |lines| && k in LineEntries(lines[j])
    requires forall i :: j < i < |lines| ==> k !in LineEntries(lines[i])
    ensures k in ParseLines(lines) && ParseLines(lines)[k] == LineEntries(lines[j])[k]
  {
    FoldLastWriter(lines, LineEntries, j, k);
  }

  lemma {:induction false} FoldKeySource(lines: seq<Bytes>, entries: Bytes -> Headers, k: Bytes)
    requires k in Fold(lines, entries)
    ensures exists j :: 0 <= j < |lines| && k in entries(lines[j])
  {
    var last := lines[|lines| - 1];
    if k !in entries(last) {
      var init := lines[..|lines| - 1];
      FoldKeySource(init, entries, k);
      var j :| 0 <= j < |init| && k in entries(init[j]);
      assert lines[j] == init[j];
    }
  }

  lemma {:induction false} FoldKeyStays(lines: seq<Bytes>, entries: Bytes -> Headers, j: nat, k: Bytes)
    requires j < |lines| && k in entries(lines[j])
    ensures k in Fold(lines, entries)
  {
    var init := lines[..|lines| - 1];
    if j < |init| {
      assert init[j] == lines[j];
      FoldKeyStays(init, entries, j, k);
    }
  }

  lemma {:induction false} FoldLastWriter(lines: seq<Bytes>, entries: Bytes -> Headers, j: nat, k: Bytes)
    requires j < |lines| && k in entries(lines[j])
    requires forall i :: j < i < |lines| ==> k !in entries(lines[i])
    ensures k in Fold(lines, entries) && Fold(lines, entries)[k] == entries(lines[j])[k]
  {
    var init := lines[..|lines| - 1];
    if j < |lines| - 1 {
      forall i | j < i < |init|
        ensures k !in entries(init[i])
      {
        assert init[i] == lines[i];
      }
      FoldLastWriter(init, entries, j, k);
    }
  }

  /** A `name: value` line, where the name holds no colon, sets the lower-
      cased trimmed name to the trimmed value. */
  lemma HeaderLine(name: Bytes, value: Bytes)
    requires COLON !in name
    ensures LineEntries(name + [COLON] + value) == map[Lower(Trim(name)) := Text(Trim(value))]
  {
    var line := name + [COLON] + value;
    assert line[|name|] == COLON;
    assert COLON in line;
    SplitFirstAt(name, COLON, value);
    var parts := SplitFirst(line, COLON);
    assert parts[0] == name && parts[1] == value;
  }

  /** A request line whose target holds a colon is a header field to the
      parser, which tests for a colon first: its name is "GET " and the
      target up to the colon, so the line sets no `get`. */
  lemma RequestLineWithColon(before: Bytes, after: Bytes)
    requires before != [] && COLON !in before && IsTrimmed(before)
    ensures var line := Str("GET ") + before + [COLON] + after;
      && LineEntries(line) == map[Lower(Str("GET ") + before) := Text(Trim(after))]
      && Str("get") !in LineEntries(line)
  {
    var name := Str("GET ") + before;
    assert COLON !in name && IsTrimmed(name) by {
      assert Str("GET ") == [71, 69, 84, 32];
      assert name[|name| - 1] == before[|before| - 1];
    }
    TrimmedFieldLine(name, after);
    assert |Lower(name)| != 3;
  }

  /** A line whose name, before the first colon, is already trimmed sets
      the lower-cased name. */
  lemma TrimmedFieldLine(name: Bytes, value: Bytes)
    requires COLON !in name && IsTrimmed(name)
    ensures LineEntries(name + [COLON] + value) == map[Lower(name) := Text(Trim(value))]
  {
    assert Trim(name) == name by {
      TrimPadding([], name, []);
      assert [] + name + [] == name;
    }
    HeaderLine(name, value);
  }

  /** The request line a client sends, `GET <target> HTTP/1.1` with or without
      the CR left by splitting at LF, yields its target under `get`. */
  lemma RequestLine(target: Bytes, tail: Bytes)
    requires COLON !in target && IsTrimmed(target)
    requires tail == [] || tail == [CR]
    ensures LineEntries(Str("GET ") + target + Str(" HTTP/1.1") + tail) == map[Str("get") := Text(target)]
  {
    RequestTargetOf(target, tail);
  }

  /** That request line does not throw: a " http" follows its "get ". */
  lemma RequestLineParses(target: Bytes, tail: Bytes)
    requires COLON !in target && IsTrimmed(target)
    requires tail == [] || tail == [CR]
    ensures !LineThrows(Str("GET ") + target + Str(" HTTP/1.1") + tail)
  {
    RequestTargetOf(target, tail);
  }

  lemma RequestTargetOf(target: Bytes, tail: Bytes)
    requires COLON !in target && IsTrimmed(target)
    requires tail == [] || tail == [CR]
    ensures var line := Str("GET ") + target + Str(" HTTP/1.1") + tail;
      && COLON !in line && FirstCI(line, Str("get "), 0) == Some(0)
      && LastCI(line, Str(" http"), 4).Some? && RequestTarget(line) == target
  {
    var get, http := Str("GET "), Str(" HTTP/1.1");
    assert get == [71, 69, 84, 32];
    assert http == [32, 72, 84, 84, 80, 47, 49, 46, 49];
    var line := get + target + http + tail;
    assert COLON !in line;
    GetAtStart(line, target, http + tail);
    var p := 4 + |target|;
    LastHttp(line, p, http, tail);
    assert line[4..p] == target;
    TargetBetween(line, target, p);
  }

  lemma TargetBetween(line: Bytes, target: Bytes, p: nat)
    requires FirstCI(line, Str("get "), 0) == Some(0) && LastCI(line, Str(" http"), 4) == Some(p)
    requires IsTrimmed(target) && 4 <= p <= |line| && line[4..p] == target
    ensures RequestTarget(line) == target
  {
    assert RequestTarget(line) == Trim(line[4..p]);
    TrimTrimmed(target);
  }

  lemma TrimTrimmed(s: Bytes)
    requires IsTrimmed(s)
    ensures Trim(s) == s
  {
    assert s == [] + s + [];
    TrimPadding([], s, []);
  }

  lemma GetAtStart(line: Bytes, target: Bytes, rest: Bytes)
    requires line == Str("GET ") + target + rest
    ensures FirstCI(line, Str("get "), 0) == Some(0)
  {
    assert Str("GET ") == [71, 69, 84, 32];
    assert line[..4] == Str("GET ");
    assert OccursAtCI(line, Str("get "), 0);
  }

  lemma LastHttp(line: Bytes, p: nat, http: Bytes, tail: Bytes)
    requires http == [32, 72, 84, 84, 80, 47, 49, 46, 49] && |tail| <= 1
    requires p + |http| + |tail| == |line| && line[p..] == http + tail
    ensures LastCI(line, Str(" http"), 4) == Some(p) || p < 4
  {
    assert line[p..p + 5] == http[..5];
    assert Str(" http")[0] == 32;
    forall j | p < j
      ensures !OccursAtCI(line, Str(" http"), j)
    {
      if j + 5 <= |line| {
        assert line[j] == line[p..][j - p] == http[j - p];
      }
    }
    assert OccursAtCI(line, Str(" http"), p);
  }

  /** A status line `HTTP/1.1 <code> <text>` yields the code as an integer
      and everything after the second space as the text. */
  lemma StatusLine(code: nat, text: Bytes)
    requires code <= PHP_INT_MAX
    requires COLON !in text && FirstCI(text, Str("get "), 0).None?
    ensures LineEntries(Str("HTTP/1.1 ") + Decimal(code) + [SPACE] + text)
      == map[Str("status-code") := Number(code), Str("status-text") := Text(text)]
  {
    var line := Str("HTTP/1.1 ") + Decimal(code) + [SPACE] + text;
    var pieces := StatusPieces(code, text);
    IntValDecimal(code);
    StatusEntries(line);
  }

  /** That status line does not throw: it holds no "get ". */
  lemma StatusLineParses(code: nat, text: Bytes)
    requires COLON !in text && FirstCI(text, Str("get "), 0).None?
    ensures !LineThrows(Str("HTTP/1.1 ") + Decimal(code) + [SPACE] + text)
  {
    var _ := StatusPieces(code, text);
  }

  /** What a status line sets, read off its pieces. */
  lemma StatusEntries(line: Bytes)
    requires COLON !in line && FirstCI(line, Str("get "), 0).None? && StatusFrom(line, 0)
    requires SPACE in line
    ensures var pieces := SplitTwice(line, SPACE);
      LineEntries(line) == map[Str("status-code") := Number(IntVal(pieces[1])),
        Str("status-text") := if |pieces| == 3 then Text(pieces[2]) else Null]
  {
  }

  lemma StatusPieces(code: nat, text: Bytes) returns (pieces: seq<Bytes>)
    requires COLON !in text && FirstCI(text, Str("get "), 0).None?
    ensures var line := Str("HTTP/1.1 ") + Decimal(code) + [SPACE] + text;
      COLON !in line && FirstCI(line, Str("get "), 0).None? && StatusFrom(line, 0)
      && pieces == SplitTwice(line, SPACE) && pieces == [Str("HTTP/1.1"), Decimal(code), text]
  {
    var version: Bytes := [72, 84, 84, 80, 47, 49, 46, 49];
    var digits := Decimal(code);
    DecimalDigits(code);
    var line := StatusLineShape(version, digits, text);
    var prefix := version + [SPACE] + digits + [SPACE];
    NoGetInStatusLine(prefix, text);
    StatusLineMatches(line, digits);
    pieces := SplitStatusLine(version, digits, text);
  }

  /** The status line is the version, a space, the code's digits, a space
      and the text. */
  lemma StatusLineShape(version: Bytes, digits: Bytes, text: Bytes) returns (line: Bytes)
    requires version == [72, 84, 84, 80, 47, 49, 46, 49]
    requires COLON !in text && forall i :: 0 <= i < |digits| ==> IsDigit(digits[i])
    ensures line == Str("HTTP/1.1 ") + digits + [SPACE] + text
    ensures line == version + [SPACE] + digits + [SPACE] + text
    ensures Str("HTTP/1.1") == version
    ensures 10 + |digits| <= |line| && line[..10 + |digits|] == Str("HTTP/1.1 ") + digits + [SPACE]
    ensures COLON !in line
  {
    assert Str("HTTP/1.1 ") == version + [SPACE];
    line := Str("HTTP/1.1 ") + digits + [SPACE] + text;
  }

  lemma SplitStatusLine(version: Bytes, digits: Bytes, text: Bytes) returns (pieces: seq<Bytes>)
    requires SPACE !in version && SPACE !in digits
    ensures pieces == SplitTwice(version + [SPACE] + digits + [SPACE] + text, SPACE)
    ensures pieces == [version, digits, text]
  {
    var rest := digits + [SPACE] + text;
    assert version + [SPACE] + digits + [SPACE] + text == version + [SPACE] + rest;
    SplitFirstAt(version, SPACE, rest);
    SplitFirstAt(digits, SPACE, text);
    pieces := SplitTwice(version + [SPACE] + rest, SPACE);
  }

  lemma NoGetInStatusLine(prefix: Bytes, text: Bytes)
    requires forall i :: 0 <= i < |prefix| ==> prefix[i] != 71 && prefix[i] != 103
    requires FirstCI(text, Str("get "), 0).None?
    ensures FirstCI(prefix + text, Str("get "), 0).None?
  {
    var line := prefix + text;
    var pat := Str("get ");
    assert pat[0] == 103;
    forall j | 0 <= j
      ensures !OccursAtCI(line, pat, j)
    {
      if j + 4 <= |line| {
        if j < |prefix| {
          assert LowerByte(line[j]) != pat[0];
        } else {
          assert !OccursAtCI(text, pat, j - |prefix|);
          var t := j - |prefix|;
          assert line[j..j + 4] == text[t..t + 4];
        }
      }
    }
  }

  lemma StatusLineMatches(line: Bytes, digits: Bytes)
    requires digits != [] && forall i :: 0 <= i < |digits| ==> IsDigit(digits[i])
    requires 10 + |digits| <= |line| && line[..10 + |digits|] == Str("HTTP/1.1 ") + digits + [SPACE]
    ensures StatusFrom(line, 0)
  {
    assert Str("HTTP/1.1 ") == [72, 84, 84, 80, 47, 49, 46, 49, 32];
    assert line[..5] == Str("HTTP/");
    assert line[5] == 49 && line[6] == 46 && line[7] == 49 && line[8] == SPACE && line[9] == digits[0];
    assert DigitRun(line, 6) == 0;
    assert DigitRun(line, 5) == 1;
    assert DigitRun(line, 8) == 0;
    assert DigitRun(line, 7) == 1;
    assert StatusAt(line, 0);
  }
}
