// Byte strings and the handful of PHP string primitives the protocol code
// relies on (substr, big-endian pack/unpack, ASCII text, decimal rendering).

module Wrappers {

  datatype Option<T> = None | Some(value: T)

  /** The exception classes the modelled code throws, and the two PHP
      errors it runs into: TypeError, for an argument of the wrong type
      under strict typing, and the Error thrown on reading a class constant
      that is not defined. */
  datatype Exception =
    | RangeException
    | LogicException
    | InvalidArgumentException
    | RuntimeException
    | TypeError
    | UndefinedConstant

  /** A value, or the exception the source would throw instead. */
  datatype Result<T> = Ok(value: T) | Fail(error: Exception)
}

module Bytes {
  import opened Wrappers

  /** One octet. PHP strings are byte strings, so a PHP string is a `Bytes`. */
  type byte = x: int | 0 <= x < 256
  type Bytes = seq<byte>

  /** The bytes of an ASCII literal (each character taken modulo 256). */
  function Str(s: string): (r: Bytes)
    ensures |r| == |s|
    ensures forall i :: 0 <= i < |s| ==> r[i] == s[i] as int % 256
  {
    seq(|s|, i requires 0 <= i < |s| => s[i] as int % 256)
  }

  function Pow256(width: nat): (p: nat)
    ensures p >= 1
  {
    if width == 0 then 1 else 256 * Pow256(width - 1)
  }

  /** The unsigned big-endian value of a byte string (unpack 'n' / 'J'). */
  function FromBE(s: Bytes): (n: nat)
    ensures n < Pow256(|s|)
  {
    if s == [] then 0 else FromBE(s[..|s| - 1]) * 256 + s[|s| - 1]
  }

  /** `n` as `width` big-endian bytes (pack 'n' for width 2, pack 'J' for width 8). */
  function ToBE(n: nat, width: nat): (r: Bytes)
    requires n < Pow256(width)
    ensures |r| == width
  {
    if width == 0 then [] else ToBE(n / 256, width - 1) + [n % 256]
  }

  lemma FromBESnoc(s: Bytes, b: byte)
    ensures FromBE(s + [b]) == FromBE(s) * 256 + b
  {
    assert (s + [b])[..|s|] == s;
  }

  lemma {:induction false} FromBEToBE(n: nat, width: nat)
    requires n < Pow256(width)
    ensures FromBE(ToBE(n, width)) == n
  {
    if width > 0 {
      var q := n / 256;
      var low := n % 256;
      FromBEToBE(q, width - 1);
      FromBESnoc(ToBE(q, width - 1), low);
    }
  }

  lemma {:induction false} ToBEFromBE(s: Bytes)
    ensures ToBE(FromBE(s), |s|) == s
  {
    if s != [] {
      var init := s[..|s| - 1];
      ToBEFromBE(init);
      assert s == init + [s[|s| - 1]];
    }
  }

  /** Bitwise exclusive or of two naturals, bit by bit from the lowest. */
  function Xor(a: nat, b: nat): nat
    decreases a + b
  {
    if a == 0 then b
    else if b == 0 then a
    else 2 * Xor(a / 2, b / 2) + (if a % 2 == b % 2 then 0 else 1)
  }

  function Pow2(k: nat): (p: nat)
    ensures p >= 1
  {
    if k == 0 then 1 else 2 * Pow2(k - 1)
  }

  /** Xor never sets a bit above the operands' highest. */
  lemma {:induction false} XorBound(a: nat, b: nat, k: nat)
    requires a < Pow2(k) && b < Pow2(k)
    ensures Xor(a, b) < Pow2(k)
    decreases a + b
  {
    if a != 0 && b != 0 {
      XorBound(a / 2, b / 2, k - 1);
    }
  }

  lemma {:induction false} XorSelf(b: nat)
    ensures Xor(b, b) == 0
    decreases b
  {
    if b != 0 {
      XorSelf(b / 2);
    }
  }

  /** Xor-ing the same value twice gives the original back. */
  lemma {:induction false} XorInvolution(a: nat, b: nat)
    ensures Xor(Xor(a, b), b) == a
    decreases a + b
  {
    if a != 0 && b != 0 {
      XorInvolution(a / 2, b / 2);
      var x := Xor(a, b);
      assert x / 2 == Xor(a / 2, b / 2);
      assert x % 2 == (if a % 2 == b % 2 then 0 else 1);
    } else if a == 0 {
      XorSelf(b);
    }
  }

  /** The `^` of two bytes. */
  function XorByte(a: byte, b: byte): (r: byte)
    ensures Xor(r, b) == a
  {
    XorBound(a, b, 8);
    XorInvolution(a, b);
    Xor(a, b)
  }

  /** `substr($s, $start, $length)` of PHP 8.0 and later, for a
      non-negative start: an empty string when the start lies at or past the
      end; a negative length drops that many bytes from the end. */
  function Substr(s: Bytes, start: nat, length: int): (r: Bytes)
    ensures |r| <= |s|
    ensures 0 <= length ==> |r| <= length
    ensures start + length <= |s| && 0 <= length ==> r == s[start..start + length]
  {
    if start >= |s| then []
    else
      var end := if length >= 0 then (if start + length < |s| then start + length else |s|) else |s| + length;
      if end <= start then [] else s[start..end]
  }

  /** `substr($s, $start)` of PHP 8.0 and later for a non-negative start. */
  function SubstrFrom(s: Bytes, start: nat): (r: Bytes)
    ensures start <= |s| ==> r == s[start..]
    ensures start >= |s| ==> r == []
  {
    if start >= |s| then [] else s[start..]
  }

  /** The decimal rendering of an integer, as PHP's string conversion gives it. */
  function Decimal(n: int): (r: Bytes)
    ensures |r| > 0
    decreases if n < 0 then 1 - n else n
  {
    if n < 0 then Str("-") + Decimal(-n)
    else if n < 10 then [DigitByte(n)]
    else Decimal(n / 10) + [DigitByte(n % 10)]
  }

  predicate IsDigit(b: byte) { 48 <= b <= 57 }

  function DigitValue(b: byte): (d: nat)
    requires IsDigit(b)
    ensures d < 10
  {
    b - 48
  }

  function DigitByte(d: nat): (b: byte)
    requires d < 10
    ensures IsDigit(b) && DigitValue(b) == d
  {
    48 + d
  }

  /** The value of a string of decimal digits. */
  function DigitsValue(s: Bytes): (n: nat)
    requires forall i :: 0 <= i < |s| ==> IsDigit(s[i])
  {
    if s == [] then 0 else DigitsValue(s[..|s| - 1]) * 10 + DigitValue(s[|s| - 1])
  }

  lemma {:induction false} DecimalDigits(n: nat)
    ensures forall i :: 0 <= i < |Decimal(n)| ==> IsDigit(Decimal(n)[i])
    ensures DigitsValue(Decimal(n)) == n
  {
    var d := Decimal(n);
    if n >= 10 {
      DecimalDigits(n / 10);
      assert d[..|d| - 1] == Decimal(n / 10);
    }
  }

  /** The bytes of a list of strings, one after the other (implode with ''). */
  function Flatten(parts: seq<Bytes>): (r: Bytes)
    ensures parts == [] ==> r == []
  {
    if parts == [] then [] else parts[0] + Flatten(parts[1..])
  }

  lemma {:induction false} FlattenSnoc(parts: seq<Bytes>, last: Bytes)
    ensures Flatten(parts + [last]) == Flatten(parts) + last
  {
    if parts != [] {
      assert (parts + [last])[1..] == parts[1..] + [last];
      FlattenSnoc(parts[1..], last);
    }
  }
}
