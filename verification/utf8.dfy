// The incremental UTF-8 validator: a deterministic automaton over byte
// classes whose state survives between calls, so that a text message split
// over several frames is checked piece by piece.

module Utf8 {
  import opened Bytes
  import opened Protocol

  /** The automaton's states: ACCEPT (0), REJECT (1), and seven states inside
      a multi-byte sequence. */
  type State = s: int | 0 <= s <= 8

  /** The class of a byte, as the first 256 entries of the validator's table
      give it. */
  function CharClass(b: byte): (c: int)
    ensures 0 <= c <= 11
  {
    if b <= 0x7F then 0
    else if b <= 0x8F then 1
    else if b <= 0x9F then 9
    else if b <= 0xBF then 7
    else if b <= 0xC1 then 8
    else if b <= 0xDF then 2
    else if b == 0xE0 then 10
    else if b <= 0xEC then 3
    else if b == 0xED then 4
    else if b <= 0xEF then 3
    else if b == 0xF0 then 11
    else if b <= 0xF3 then 6
    else if b == 0xF4 then 5
    else 8
  }

  /** The remaining 144 entries of the table, row by row: the next state from
      `state` on a byte of class `c`. Every entry not listed is REJECT. */
  function Transition(state: State, c: int): (next: State)
  {
    match state
    case 0 =>
      if c == 0 then 0 else if c == 2 then 2 else if c == 3 then 3 else if c == 4 then 5
      else if c == 5 then 8 else if c == 6 then 7 else if c == 10 then 4 else if c == 11 then 6
      else UTF8_REJECT
    case 2 => if c in {1, 7, 9} then 0 else UTF8_REJECT
    case 3 => if c in {1, 7, 9} then 2 else UTF8_REJECT
    case 4 => if c == 7 then 2 else UTF8_REJECT
    case 5 => if c in {1, 9} then 2 else UTF8_REJECT
    case 6 => if c in {7, 9} then 3 else UTF8_REJECT
    case 7 => if c in {1, 7, 9} then 3 else UTF8_REJECT
    case 8 => if c == 1 then 3 else UTF8_REJECT
    case _ => UTF8_REJECT
  }

  /** One step of the automaton. */
  function Step(state: State, b: byte): State
  {
    Transition(state, CharClass(b))
  }

  /** The state after feeding every byte of `s`, starting in `state`. */
  function Run(state: State, s: Bytes): State
    decreases |s|
  {
    if s == [] then state else Run(Step(state, s[0]), s[1..])
  }

  lemma {:induction false} RunSnoc(state: State, s: Bytes, b: byte)
    ensures Run(state, s + [b]) == Step(Run(state, s), b)
    decreases |s|
  {
    if s != [] {
      assert (s + [b])[1..] == s[1..] + [b];
      RunSnoc(Step(state, s[0]), s[1..], b);
    }
  }

  /** Running over a concatenation is running over the second part from the
      state the first part left: this is what lets a fragmented text message
      be validated frame by frame. */
  lemma {:induction false} RunConcat(state: State, a: Bytes, b: Bytes)
    ensures Run(state, a + b) == Run(Run(state, a), b)
    decreases |a|
  {
    if a == [] {
      assert a + b == b;
    } else {
      assert (a + b)[1..] == a[1..] + b;
      RunConcat(Step(state, a[0]), a[1..], b);
    }
  }

  /** REJECT is a trap: no input leaves it. */
  lemma {:induction false} RejectAbsorbs(s: Bytes)
    ensures Run(UTF8_REJECT, s) == UTF8_REJECT
    decreases |s|
  {
    if s != [] {
      RejectAbsorbs(s[1..]);
    }
  }

  /** ValidateUTF8: feeds `s` to the automaton from `state`, stopping at the
      first byte that rejects. The returned state is the one to pass with the
      next fragment. */
  method ValidateUtf8(s: Bytes, state0: State) returns (ok: bool, state: State)
    ensures state == Run(state0, s)
    ensures !ok <==> s != [] && state == UTF8_REJECT
  {
    state := state0;
    var i := 0;
    while i < |s|
      invariant 0 <= i <= |s|
      invariant state == Run(state0, s[..i])
      invariant i > 0 ==> state != UTF8_REJECT
    {
      assert s[..i + 1] == s[..i] + [s[i]];
      RunSnoc(state0, s[..i], s[i]);
      state := Step(state, s[i]);
      if state == UTF8_REJECT {
        assert s == s[..i + 1] + s[i + 1..];
        RunConcat(state0, s[..i + 1], s[i + 1..]);
        RejectAbsorbs(s[i + 1..]);
        return false, state;
      }
      i := i + 1;
    }
    assert s[..i] == s;
    return true, state;
  }

  // An independent reference: the UTF-8 syntax of section 4 of RFC 3629.

  predicate IsTail(b: byte) { 0x80 <= b <= 0xBF }

  /** The length of the character a lead byte starts, or 0 for a byte that
      cannot start one (a tail byte, C0, C1, F5-FF). */
  function LeadLength(b: byte): nat
  {
    if b <= 0x7F then 1
    else if 0xC2 <= b <= 0xDF then 2
    else if 0xE0 <= b <= 0xEF then 3
    else if 0xF0 <= b <= 0xF4 then 4
    else 0
  }

  /** The range the second byte of a character must lie in, given its lead:
      narrower after E0, ED, F0 and F4 so as to exclude overlong forms,
      surrogates and code points above U+10FFFF. */
  predicate SecondOk(lead: byte, b: byte)
  {
    if lead == 0xE0 then 0xA0 <= b <= 0xBF
    else if lead == 0xED then 0x80 <= b <= 0x9F
    else if lead == 0xF0 then 0x90 <= b <= 0xBF
    else if lead == 0xF4 then 0x80 <= b <= 0x8F
    else IsTail(b)
  }

  /** One encoded character. */
  predicate IsUtf8Char(c: Bytes)
  {
    |c| >= 1 && |c| == LeadLength(c[0])
    && (|c| >= 2 ==> SecondOk(c[0], c[1]))
    && (forall j :: 2 <= j < |c| ==> IsTail(c[j]))
  }

  /** A sequence of encoded characters. UTF-8 is prefix-free, so the lead
      byte fixes where the first character ends. */
  predicate WellFormedUtf8(s: Bytes)
    decreases |s|
  {
    s == [] ||
      (var n := LeadLength(s[0]);
       0 < n <= |s| && IsUtf8Char(s[..n]) && WellFormedUtf8(s[n..]))
  }

  /** The automaton run from ACCEPT ends in ACCEPT exactly on well-formed
      UTF-8. */
  lemma {:induction false} AcceptsExactlyWellFormed(s: Bytes)
    ensures Run(UTF8_ACCEPT, s) == UTF8_ACCEPT <==> WellFormedUtf8(s)
    decreases |s|
  {
    if s != [] {
      var n := LeadLength(s[0]);
      if n == 0 {
        RejectAbsorbs(s[1..]);
      } else {
        FirstCharacter(s);
        if n <= |s| {
          AcceptsExactlyWellFormed(s[n..]);
        }
      }
    }
  }

  /** After the lead byte of an n-byte character, the automaton ends in
      ACCEPT exactly when the next n-1 bytes complete a valid character and
      the rest is accepted from ACCEPT. */
  lemma FirstCharacter(s: Bytes)
    requires s != [] && LeadLength(s[0]) > 0
    ensures var n := LeadLength(s[0]);
      (Run(UTF8_ACCEPT, s) == UTF8_ACCEPT)
        <==> (n <= |s| && IsUtf8Char(s[..n]) && Run(UTF8_ACCEPT, s[n..]) == UTF8_ACCEPT)
  {
    var n := LeadLength(s[0]);
    var st := Step(UTF8_ACCEPT, s[0]);
    if n == 1 {
      assert s[..1] == [s[0]];
    } else if n == 2 {
      Pending(st, s[1..], 1);
      if 2 <= |s| {
        assert s[1..][1..] == s[2..];
      }
      TailChar2(s);
    } else if n == 3 {
      Pending(st, s[1..], 2);
      if 3 <= |s| {
        assert s[1..][2..] == s[3..];
      }
      TailChar3(s);
    } else {
      Pending(st, s[1..], 3);
      if 4 <= |s| {
        assert s[1..][3..] == s[4..];
      }
      TailChar4(s);
    }
  }

  /** The bytes a state in the middle of a character still waits for: how
      many, and the range allowed for the first of them. */
  function Needed(st: State): nat
  {
    if st == 2 then 1 else if st in {3, 4, 5} then 2 else if st in {6, 7, 8} then 3 else 0
  }

  predicate NextOk(st: State, b: byte)
  {
    if st == 4 then 0xA0 <= b <= 0xBF
    else if st == 5 then 0x80 <= b <= 0x9F
    else if st == 6 then 0x90 <= b <= 0xBF
    else if st == 8 then 0x80 <= b <= 0x8F
    else IsTail(b)
  }

  /** From a state waiting for k more bytes, the run reaches ACCEPT exactly
      when those k bytes are there and in range and the rest is accepted. */
  lemma {:induction false} Pending(st: State, s: Bytes, k: nat)
    requires k == Needed(st) && k > 0
    ensures (Run(st, s) == UTF8_ACCEPT)
      <==> (k <= |s| && NextOk(st, s[0]) && (forall j :: 1 <= j < k ==> IsTail(s[j])) && Run(UTF8_ACCEPT, s[k..]) == UTF8_ACCEPT)
    decreases k
  {
    if s == [] {
    } else {
      var next := Step(st, s[0]);
      if !NextOk(st, s[0]) {
        assert next == UTF8_REJECT;
        RejectAbsorbs(s[1..]);
      } else if k == 1 {
        assert next == UTF8_ACCEPT;
      } else {
        assert Needed(next) == k - 1;
        Pending(next, s[1..], k - 1);
        if k <= |s| {
          assert s[1..][k - 1..] == s[k..];
        }
      }
    }
  }

  lemma TailChar2(s: Bytes)
    requires |s| >= 1 && LeadLength(s[0]) == 2
    ensures 2 <= |s| && NextOk(Step(UTF8_ACCEPT, s[0]), s[1]) <==> 2 <= |s| && IsUtf8Char(s[..2])
  {
  }

  lemma TailChar3(s: Bytes)
    requires |s| >= 1 && LeadLength(s[0]) == 3
    ensures (3 <= |s| && NextOk(Step(UTF8_ACCEPT, s[0]), s[1]) && IsTail(s[2]))
      <==> 3 <= |s| && IsUtf8Char(s[..3])
  {
  }

  lemma TailChar4(s: Bytes)
    requires |s| >= 1 && LeadLength(s[0]) == 4
    ensures (4 <= |s| && NextOk(Step(UTF8_ACCEPT, s[0]), s[1]) && IsTail(s[2]) && IsTail(s[3]))
      <==> 4 <= |s| && IsUtf8Char(s[..4])
  {
  }

  /** preg_match('//u'): whether a whole string is valid UTF-8. */
  predicate IsValidUtf8(s: Bytes)
  {
    Run(UTF8_ACCEPT, s) == UTF8_ACCEPT
  }

  /** Validating a message in two fragments, passing the state along, agrees
      with validating it in one piece. */
  lemma FragmentedValidation(a: Bytes, b: Bytes)
    ensures Run(Run(UTF8_ACCEPT, a), b) == UTF8_ACCEPT <==> WellFormedUtf8(a + b)
  {
    RunConcat(UTF8_ACCEPT, a, b);
    AcceptsExactlyWellFormed(a + b);
  }

  /** Worked examples: the overlong C0 80 is refused at its first byte, a
      lone E2 leaves the automaton waiting for two more bytes, and the euro
      sign E2 82 AC is accepted. */
  lemma Examples()
    ensures Step(UTF8_ACCEPT, 0xC0) == UTF8_REJECT
    ensures Run(UTF8_ACCEPT, [0xE2]) == 3
    ensures Run(UTF8_ACCEPT, [0xE2, 0x82, 0xAC]) == UTF8_ACCEPT
  {
    assert [0xE2, 0x82, 0xAC][1..] == [0x82, 0xAC];
    assert [0x82, 0xAC][1..] == [0xAC];
  }
}
