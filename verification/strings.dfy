// The PHP string functions the handshake code relies on, on byte strings:
// strpos/stripos, explode/implode, trim, strtolower and intval.

module PhpStrings {
  import opened Wrappers
  import opened Bytes

  const LF: byte := 10
  const CR: byte := 13
  const SPACE: byte := 32
  const COLON: byte := 58
  const CRLF: Bytes := [13, 10]

  const PHP_INT_MAX: int := 0x7FFF_FFFF_FFFF_FFFF
  const PHP_INT_MIN: int := -0x8000_0000_0000_0000

  /** strpos for a single byte: the first index holding `b`. */
  function IndexOf(s: Bytes, b: byte): (r: Option<nat>)
    ensures r.None? <==> b !in s
    ensures r.Some? ==> r.value < |s| && s[r.value] == b && b !in s[..r.value]
  {
    if s == [] then None
    else if s[0] == b then Some(0)
    else
      match IndexOf(s[1..], b)
      case None => None
      case Some(i) =>
        assert s[..i + 1] == [s[0]] + s[1..][..i];
        Some(i + 1)
  }

  /** strrpos for a single byte: the last index holding `b`. */
  function LastIndexOf(s: Bytes, b: byte): (r: Option<nat>)
    ensures r.None? <==> b !in s
    ensures r.Some? ==> r.value < |s| && s[r.value] == b
    ensures r.Some? ==> forall j :: r.value < j < |s| ==> s[j] != b
  {
    LastBefore(s, b, |s|)
  }

  function LastBefore(s: Bytes, b: byte, n: nat): (r: Option<nat>)
    requires n <= |s|
    ensures r.None? <==> forall j :: 0 <= j < n ==> s[j] != b
    ensures r.Some? ==> r.value < n && s[r.value] == b
    ensures r.Some? ==> forall j :: r.value < j < n ==> s[j] != b
  {
    if n == 0 then None
    else if s[n - 1] == b then Some(n - 1)
    else LastBefore(s, b, n - 1)
  }

  lemma LastIndexOfBeforeSuffix(a: Bytes, b: byte, rest: Bytes)
    requires b !in rest
    ensures LastIndexOf(a + [b] + rest, b) == Some(|a|)
  {
    var s := a + [b] + rest;
    assert s[|a|] == b;
    assert forall j :: |a| < j < |s| ==> s[j] == rest[j - |a| - 1];
  }

  /** explode($sep, $s) for a one-byte separator: the pieces between
      separators, in order. */
  function Explode(s: Bytes, sep: byte): (parts: seq<Bytes>)
    ensures |parts| >= 1
    ensures forall i :: 0 <= i < |parts| ==> sep !in parts[i]
    decreases |s|
  {
    match IndexOf(s, sep)
    case None => [s]
    case Some(i) => [s[..i]] + Explode(s[i + 1..], sep)
  }

  /** implode($sep, $parts). */
  function Implode(parts: seq<Bytes>, sep: Bytes): Bytes
  {
    if |parts| == 0 then []
    else if |parts| == 1 then parts[0]
    else parts[0] + sep + Implode(parts[1..], sep)
  }

  lemma IndexOfAfterPrefix(a: Bytes, b: byte, rest: Bytes)
    requires b !in a
    ensures IndexOf(a + [b] + rest, b) == Some(|a|)
  {
    var s := a + [b] + rest;
    assert s[|a|] == b;
    assert s[..|a|] == a;
  }

  /** Exploding a joined list gives the list back when no piece holds the
      separator. */
  lemma {:induction false} ExplodeImplode(parts: seq<Bytes>, sep: byte)
    requires |parts| >= 1
    requires forall i :: 0 <= i < |parts| ==> sep !in parts[i]
    ensures Explode(Implode(parts, [sep]), sep) == parts
  {
    if |parts| > 1 {
      var rest := Implode(parts[1..], [sep]);
      ExplodeCons(parts[0], sep, rest);
      ExplodeImplode(parts[1..], sep);
      assert parts == [parts[0]] + parts[1..];
    }
  }

  lemma ExplodeCons(a: Bytes, sep: byte, rest: Bytes)
    requires sep !in a
    ensures Explode(a + [sep] + rest, sep) == [a] + Explode(rest, sep)
  {
    var s := a + [sep] + rest;
    IndexOfAfterPrefix(a, sep, rest);
    assert s[..|a|] == a;
    assert s[|a| + 1..] == rest;
  }

  /** Joining the pieces of an explode with the separator restores the
      string. */
  lemma {:induction false} ImplodeExplode(s: Bytes, sep: byte)
    ensures Implode(Explode(s, sep), [sep]) == s
    decreases |s|
  {
    match IndexOf(s, sep)
    case None =>
    case Some(i) =>
      ImplodeExplode(s[i + 1..], sep);
      var tail := Explode(s[i + 1..], sep);
      assert Explode(s, sep) == [s[..i]] + tail;
      assert ([s[..i]] + tail)[1..] == tail;
      assert s == s[..i] + [sep] + s[i + 1..];
  }

  /** explode($sep, $s, 2): the text before the first separator and, when
      there is one, the text after it. */
  function SplitFirst(s: Bytes, sep: byte): (parts: seq<Bytes>)
    ensures 1 <= |parts| <= 2
    ensures |parts| == 1 <==> sep !in s
    ensures |parts| == 1 ==> parts[0] == s
    ensures |parts| == 2 ==> s == parts[0] + [sep] + parts[1] && sep !in parts[0]
  {
    match IndexOf(s, sep)
    case None => [s]
    case Some(i) =>
      assert s == s[..i] + [sep] + s[i + 1..];
      [s[..i], s[i + 1..]]
  }

  /** The first separator splits a string in only one way. */
  lemma SplitFirstAt(a: Bytes, sep: byte, b: Bytes)
    requires sep !in a
    ensures SplitFirst(a + [sep] + b, sep) == [a, b]
  {
    IndexOfAfterPrefix(a, sep, b);
    var s := a + [sep] + b;
    assert s[..|a|] == a;
    assert s[|a| + 1..] == b;
  }

  /** explode($sep, $s, 3). */
  function SplitTwice(s: Bytes, sep: byte): (parts: seq<Bytes>)
    ensures 1 <= |parts| <= 3
    ensures |parts| >= 2 <==> sep in s
  {
    var first := SplitFirst(s, sep);
    if |first| == 1 then first else [first[0]] + SplitFirst(first[1], sep)
  }

  /** The bytes trim() removes by default: space, tab, LF, CR, NUL, VT. */
  predicate IsTrimmable(b: byte) { b in {32, 9, 10, 13, 0, 11} }

  function TrimLeft(s: Bytes): (r: Bytes)
    ensures |r| <= |s|
    ensures r == s[|s| - |r|..]
    ensures r != [] ==> !IsTrimmable(r[0])
    decreases |s|
  {
    if s != [] && IsTrimmable(s[0]) then TrimLeft(s[1..]) else s
  }

  function TrimRight(s: Bytes): (r: Bytes)
    ensures |r| <= |s|
    ensures r == s[..|r|]
    ensures r != [] ==> !IsTrimmable(r[|r| - 1])
    decreases |s|
  {
    if s != [] && IsTrimmable(s[|s| - 1]) then TrimRight(s[..|s| - 1]) else s
  }

  /** trim(): the string without trimmable bytes at either end. */
  function Trim(s: Bytes): (r: Bytes)
    ensures |r| <= |s|
    ensures r != [] ==> !IsTrimmable(r[0]) && !IsTrimmable(r[|r| - 1])
  {
    TrimLeft(TrimRight(s))
  }

  predicate AllTrimmable(s: Bytes) { forall i :: 0 <= i < |s| ==> IsTrimmable(s[i]) }

  /** A string that neither starts nor ends with a trimmable byte. */
  predicate IsTrimmed(s: Bytes) { s == [] || (!IsTrimmable(s[0]) && !IsTrimmable(s[|s| - 1])) }

  lemma {:induction false} TrimLeftPadding(pre: Bytes, s: Bytes)
    requires AllTrimmable(pre) && (s == [] || !IsTrimmable(s[0]))
    ensures TrimLeft(pre + s) == s
    decreases |pre|
  {
    if pre == [] {
      assert pre + s == s;
    } else {
      assert (pre + s)[1..] == pre[1..] + s;
      TrimLeftPadding(pre[1..], s);
    }
  }

  lemma {:induction false} TrimRightPadding(s: Bytes, post: Bytes)
    requires AllTrimmable(post) && (s == [] || !IsTrimmable(s[|s| - 1]))
    ensures TrimRight(s + post) == s
    decreases |post|
  {
    if post == [] {
      assert s + post == s;
    } else {
      var shorter := post[..|post| - 1];
      assert (s + post)[..|s + post| - 1] == s + shorter;
      TrimRightPadding(s, shorter);
    }
  }

  /** trim() removes exactly the padding around a trimmed string. */
  lemma TrimPadding(pre: Bytes, s: Bytes, post: Bytes)
    requires AllTrimmable(pre) && AllTrimmable(post) && IsTrimmed(s)
    ensures Trim(pre + s + post) == s
  {
    assert pre + s + post == pre + (s + post);
    if s == [] {
      assert pre + s + post == pre + post;
      TrimRightAll(pre + post);
    } else {
      TrimRightPadding(pre + s, post);
      TrimLeftPadding(pre, s);
    }
  }

  lemma {:induction false} TrimRightAll(s: Bytes)
    requires AllTrimmable(s)
    ensures TrimRight(s) == []
    decreases |s|
  {
    if s != [] {
      TrimRightAll(s[..|s| - 1]);
    }
  }

  function LowerByte(b: byte): byte
  {
    if 65 <= b <= 90 then b + 32 else b
  }

  /** strtolower() on ASCII letters. */
  function Lower(s: Bytes): (r: Bytes)
    ensures |r| == |s|
    ensures forall i :: 0 <= i < |s| ==> r[i] == LowerByte(s[i])
  {
    seq(|s|, i requires 0 <= i < |s| => LowerByte(s[i]))
  }

  predicate IsLower(s: Bytes) { forall i :: 0 <= i < |s| ==> !(65 <= s[i] <= 90) }

  lemma LowerOfLower(s: Bytes)
    requires IsLower(s)
    ensures Lower(s) == s
  {
  }

  /** Whether `pat` (lower case) occurs at index `i` of `s`, ignoring case. */
  predicate OccursAtCI(s: Bytes, pat: Bytes, i: nat)
  {
    i + |pat| <= |s| && forall k :: 0 <= k < |pat| ==> LowerByte(s[i + k]) == pat[k]
  }

  /** stripos: the first index at or after `from` where `pat` occurs. */
  function FirstCI(s: Bytes, pat: Bytes, from: nat): (r: Option<nat>)
    ensures r.Some? ==> from <= r.value && OccursAtCI(s, pat, r.value)
    ensures r.Some? ==> forall j :: from <= j < r.value ==> !OccursAtCI(s, pat, j)
    ensures r.None? ==> forall j :: from <= j ==> !OccursAtCI(s, pat, j)
    decreases |s| - from
  {
    if from + |pat| > |s| then None
    else if OccursAtCI(s, pat, from) then Some(from)
    else FirstCI(s, pat, from + 1)
  }

  /** The last index at or after `from` where `pat` occurs, ignoring case. */
  function LastCI(s: Bytes, pat: Bytes, from: nat): (r: Option<nat>)
    ensures r.Some? ==> from <= r.value && OccursAtCI(s, pat, r.value)
    ensures r.Some? ==> forall j :: r.value < j ==> !OccursAtCI(s, pat, j)
    ensures r.None? ==> forall j :: from <= j ==> !OccursAtCI(s, pat, j)
    decreases |s| - from
  {
    if from + |pat| > |s| then None
    else
      match LastCI(s, pat, from + 1)
      case Some(j) => Some(j)
      case None => if OccursAtCI(s, pat, from) then Some(from) else None
  }

  /** Whether `pat` occurs at index `i` of `s`. */
  predicate OccursAt(s: Bytes, pat: Bytes, i: nat)
  {
    i + |pat| <= |s| && s[i..i + |pat|] == pat
  }

  /** strpos: the first index at or after `from` where `pat` occurs. */
  function Find(s: Bytes, pat: Bytes, from: nat): (r: Option<nat>)
    ensures r.Some? ==> from <= r.value && OccursAt(s, pat, r.value)
    ensures r.Some? ==> forall j :: from <= j < r.value ==> !OccursAt(s, pat, j)
    ensures r.None? ==> forall j :: from <= j ==> !OccursAt(s, pat, j)
    decreases |s| - from
  {
    if from + |pat| > |s| then None
    else if OccursAt(s, pat, from) then Some(from)
    else Find(s, pat, from + 1)
  }

  /** The bytes intval() skips before the number. */
  predicate IsSpace(b: byte) { b in {32, 9, 10, 13, 11, 12} }

  function SkipSpaces(s: Bytes): (r: Bytes)
    ensures |r| <= |s|
    decreases |s|
  {
    if s != [] && IsSpace(s[0]) then SkipSpaces(s[1..]) else s
  }

  /** The longest prefix of decimal digits. */
  function LeadingDigits(s: Bytes): (r: Bytes)
    ensures |r| <= |s| && r == s[..|r|]
    ensures forall i :: 0 <= i < |r| ==> IsDigit(r[i])
    ensures |r| < |s| ==> !IsDigit(s[|r|])
    decreases |s|
  {
    if s != [] && IsDigit(s[0]) then [s[0]] + LeadingDigits(s[1..]) else []
  }

  function Clamp(n: int): (r: int)
    ensures PHP_INT_MIN <= r <= PHP_INT_MAX
    ensures PHP_INT_MIN <= n <= PHP_INT_MAX ==> r == n
  {
    if n > PHP_INT_MAX then PHP_INT_MAX else if n < PHP_INT_MIN then PHP_INT_MIN else n
  }

  /** intval() of a string: optional leading whitespace and sign, then the
      leading digits; 0 when there are none; saturated to the 64-bit range. */
  function IntVal(s: Bytes): (r: int)
    ensures PHP_INT_MIN <= r <= PHP_INT_MAX
  {
    var t := SkipSpaces(s);
    if t != [] && t[0] == 45 then Clamp(-(DigitsValue(LeadingDigits(t[1..])) as int))
    else if t != [] && t[0] == 43 then Clamp(DigitsValue(LeadingDigits(t[1..])))
    else Clamp(DigitsValue(LeadingDigits(t)))
  }

  lemma {:induction false} LeadingDigitsAll(s: Bytes)
    requires forall i :: 0 <= i < |s| ==> IsDigit(s[i])
    ensures LeadingDigits(s) == s
    decreases |s|
  {
    if s != [] {
      LeadingDigitsAll(s[1..]);
    }
  }

  /** intval() reads back the decimal rendering of any integer in range. */
  lemma IntValDecimal(n: nat)
    requires n <= PHP_INT_MAX
    ensures IntVal(Decimal(n)) == n
  {
    DecimalDigits(n);
    LeadingDigitsAll(Decimal(n));
  }

  /** intval() reads back the decimal rendering of every 64-bit integer,
      negative ones included. */
  lemma IntValDecimalSigned(n: int)
    requires PHP_INT_MIN <= n <= PHP_INT_MAX
    ensures IntVal(Decimal(n)) == n
  {
    if n >= 0 {
      IntValDecimal(n);
    } else {
      assert Decimal(n) == [45] + Decimal(-n);
      IntValNegated(-n);
    }
  }

  /** intval() of a minus sign followed by the rendering of `m`. */
  lemma IntValNegated(m: nat)
    requires m <= -PHP_INT_MIN
    ensures IntVal([45] + Decimal(m)) == -(m as int)
  {
    DecimalDigits(m);
    LeadingDigitsAll(Decimal(m));
    var d := [45] + Decimal(m);
    assert d[1..] == Decimal(m);
    assert SkipSpaces(d) == d;
  }

  /** A decimal rendering holds digits and at most a leading minus sign, so
      never a space. */
  lemma DecimalNoSpace(n: int)
    ensures SPACE !in Decimal(n)
  {
    if n < 0 {
      DecimalDigits(-n);
      assert Decimal(n) == [45] + Decimal(-n);
    } else {
      DecimalDigits(n);
    }
  }

  /** intval() stops at the first byte that is not a digit. */
  lemma IntValPrefix(n: nat, rest: Bytes)
    requires n <= PHP_INT_MAX
    requires rest == [] || !IsDigit(rest[0])
    ensures IntVal(Decimal(n) + rest) == n
  {
    DecimalDigits(n);
    var d := Decimal(n);
    var s := d + rest;
    assert s[0] == d[0] && IsDigit(s[0]);
    assert SkipSpaces(s) == s;
    LeadingDigitsSplit(d, rest);
  }

  lemma {:induction false} LeadingDigitsSplit(d: Bytes, rest: Bytes)
    requires forall i :: 0 <= i < |d| ==> IsDigit(d[i])
    requires rest == [] || !IsDigit(rest[0])
    ensures LeadingDigits(d + rest) == d
    decreases |d|
  {
    if d == [] {
      assert d + rest == rest;
    } else {
      assert (d + rest)[1..] == d[1..] + rest;
      LeadingDigitsSplit(d[1..], rest);
    }
  }
}
