/**
 The two UTF-8 validators of src/KernelHttpLib/client/WebSocketClient.cpp:304-430: one reads a whole
 buffer, one advances over fragments. Both are proved against the encoding of RFC 3629.

 `ch & 0xc0 == 0x80` is written ch / 64 == 2, and `(c << 6) | (ch & 0x3f)` is 64 * c + ch % 64.
 */
module Utf8 {
  import opened Bytes

  // ---- The encoding: RFC 3629, section 3 ----

  /** Unicode scalar values: no surrogates. */
  type Scalar = c: int | 0 <= c < 0xd800 || 0xe000 <= c <= 0x10ffff

  predicate IsScalar(c: int)
  {
    0 <= c < 0xd800 || 0xe000 <= c <= 0x10ffff
  }

  /** A continuation byte: six bits behind the prefix 10. */
  function Tail(d: nat): byte
    requires d < 64
  {
    0x80 + d
  }

  function Encode(c: Scalar): (s: seq<byte>)
    ensures 1 <= |s| <= 4
  {
    var n: nat := c;
    if n < 0x80 then [n]
    else if n < 0x800 then [0xc0 + n / 64, Tail(n % 64)]
    else if n < 0x1_0000 then [0xe0 + n / 4096, Tail(n / 64 % 64), Tail(n % 64)]
    else [0xf0 + n / 0x4_0000, Tail(n / 4096 % 64), Tail(n / 64 % 64), Tail(n % 64)]
  }

  function EncodeAll(text: seq<Scalar>): seq<byte>
  {
    if text == [] then [] else Encode(text[0]) + EncodeAll(text[1..])
  }

  ghost predicate IsUtf8(s: seq<byte>)
  {
    exists text :: EncodeAll(text) == s
  }

  // ---- The automaton: its state is the client's three fields ----

  datatype State = State(codePoint: nat, remaining: nat, expected: nat)

  const START := State(0, 0, 0)

  datatype Outcome = Invalid | Valid(state: State)

  /** `FinishUtf8CodePoint`: shortest form, in range and no surrogate. */
  predicate FinishUtf8CodePoint(codePoint: nat, expected: nat)
  {
    !((expected == 2 && codePoint < 0x800) ||
      (expected == 3 && codePoint < 0x1_0000) ||
      codePoint > 0x10ffff ||
      (codePoint >= 0xd800 && codePoint <= 0xdfff))
  }

  /** `ch & 0x3f`, `& 0x1f`, `& 0x0f` and `& 0x07` */
  function LowBits(ch: byte, modulus: nat): (d: nat)
    requires modulus > 0
    ensures d < modulus
  {
    var n: nat := ch;
    n % modulus
  }

  predicate IsContinuation(ch: byte)
  {
    ch / 64 == 2
  }

  function Lead(ch: byte): Outcome
  {
    if ch <= 0x7f then Valid(START)
    else if 0xc2 <= ch <= 0xdf then Valid(State(LowBits(ch, 32), 1, 1))
    else if 0xe0 <= ch <= 0xef then Valid(State(LowBits(ch, 16), 2, 2))
    else if 0xf0 <= ch <= 0xf4 then Valid(State(LowBits(ch, 8), 3, 3))
    else Invalid
  }

  function Step(st: State, ch: byte): Outcome
  {
    if st.remaining == 0 then Lead(ch)
    else if !IsContinuation(ch) then Invalid
    else
      var codePoint := st.codePoint * 64 + LowBits(ch, 64);
      if st.remaining > 1 then Valid(State(codePoint, st.remaining - 1, st.expected))
      else if FinishUtf8CodePoint(codePoint, st.expected) then Valid(START)
      else Invalid
  }

  function Run(st: State, s: seq<byte>): Outcome
    decreases s
  {
    if s == [] then Valid(st)
    else match Step(st, s[0])
      case Invalid => Invalid
      case Valid(next) => Run(next, s[1..])
  }

  /** What a call with the final fragment accepts. */
  predicate Ended(o: Outcome)
  {
    o.Valid? && o.state.remaining == 0
  }

  predicate Accepts(s: seq<byte>)
  {
    Ended(Run(START, s))
  }

  /** Fragments may be cut anywhere, inside a code point as well. */
  function RunAll(st: State, fragments: seq<seq<byte>>): Outcome
    decreases fragments
  {
    if fragments == [] then Valid(st)
    else match Run(st, fragments[0])
      case Invalid => Invalid
      case Valid(next) => RunAll(next, fragments[1..])
  }

  function Concat(fragments: seq<seq<byte>>): seq<byte>
  {
    if fragments == [] then [] else fragments[0] + Concat(fragments[1..])
  }

  // ---- Splitting ----

  lemma {:induction false} RunConcat(st: State, s: seq<byte>, t: seq<byte>)
    ensures Run(st, s + t) == match Run(st, s) case Invalid => Invalid case Valid(next) => Run(next, t)
    decreases s
  {
    if s == [] {
      assert s + t == t;
    } else {
      assert (s + t)[0] == s[0] && (s + t)[1..] == s[1..] + t;
      match Step(st, s[0])
      case Invalid =>
      case Valid(next) => RunConcat(next, s[1..], t);
    }
  }

  /** Feeding fragments is feeding their concatenation. */
  lemma {:induction false} SplitsAgree(st: State, fragments: seq<seq<byte>>)
    ensures RunAll(st, fragments) == Run(st, Concat(fragments))
    decreases fragments
  {
    if fragments != [] {
      RunConcat(st, fragments[0], Concat(fragments[1..]));
      match Run(st, fragments[0])
      case Invalid =>
      case Valid(next) => SplitsAgree(next, fragments[1..]);
    }
  }

  // ---- The automaton accepts exactly the encodings ----

  lemma Continue(st: State, d: nat, rest: seq<byte>)
    requires st.remaining > 1 && d < 64
    ensures Run(st, [Tail(d)] + rest) == Run(State(st.codePoint * 64 + d, st.remaining - 1, st.expected), rest)
  {
    var s := [Tail(d)] + rest;
    assert s[1..] == rest;
  }

  lemma Finish(st: State, d: nat, rest: seq<byte>)
    requires st.remaining == 1 && d < 64 && FinishUtf8CodePoint(st.codePoint * 64 + d, st.expected)
    ensures Run(st, [Tail(d)] + rest) == Run(START, rest)
  {
    var s := [Tail(d)] + rest;
    assert s[1..] == rest;
  }

  lemma Begin(lead: byte, next: State, rest: seq<byte>)
    requires Lead(lead) == Valid(next)
    ensures Run(START, [lead] + rest) == Run(next, rest)
  {
    var s := [lead] + rest;
    assert s[1..] == rest;
  }

  /** The six-bit digits of a code point, least significant first. */
  lemma Digits(c: nat)
    ensures c == c / 64 * 64 + c % 64
    ensures c / 64 == c / 4096 * 64 + c / 64 % 64
    ensures c / 4096 == c / 0x4_0000 * 64 + c / 4096 % 64
  {
  }

  /** An encoded scalar value brings the automaton back to its start. */
  lemma OneScalar(c: Scalar, rest: seq<byte>)
    ensures Run(START, Encode(c) + rest) == Run(START, rest)
  {
    if c < 0x80 {
      Begin(c, START, rest);
    } else {
      hide Run, FinishUtf8CodePoint, Encode;
      if c < 0x800 {
        TwoBytes(c, rest);
      } else if c < 0x1_0000 {
        ThreeBytes(c, rest);
      } else {
        FourBytes(c, rest);
      }
    }
  }

  lemma TwoBytes(c: nat, rest: seq<byte>)
    requires 0x80 <= c < 0x800
    ensures Run(START, Encode(c) + rest) == Run(START, rest)
  {
    hide Run;
    Digits(c);
    var d0 := [Tail(c % 64)] + rest;
    assert Encode(c) + rest == [0xc0 + c / 64] + d0;
    Begin(0xc0 + c / 64, State(c / 64, 1, 1), d0);
    Finish(State(c / 64, 1, 1), c % 64, rest);
  }

  lemma ThreeBytes(c: nat, rest: seq<byte>)
    requires 0x800 <= c < 0x1_0000 && IsScalar(c)
    ensures Run(START, Encode(c) + rest) == Run(START, rest)
  {
    hide Run;
    Digits(c);
    var d0 := [Tail(c % 64)] + rest;
    var d1 := [Tail(c / 64 % 64)] + d0;
    assert Encode(c) + rest == [0xe0 + c / 4096] + d1;
    Begin(0xe0 + c / 4096, State(c / 4096, 2, 2), d1);
    Continue(State(c / 4096, 2, 2), c / 64 % 64, d0);
    Finish(State(c / 64, 1, 2), c % 64, rest);
  }

  lemma FourBytes(c: nat, rest: seq<byte>)
    requires 0x1_0000 <= c && IsScalar(c)
    ensures Run(START, Encode(c) + rest) == Run(START, rest)
  {
    hide Run;
    Digits(c);
    var d0 := [Tail(c % 64)] + rest;
    var d1 := [Tail(c / 64 % 64)] + d0;
    var d2 := [Tail(c / 4096 % 64)] + d1;
    assert Encode(c) + rest == [0xf0 + c / 0x4_0000] + d2;
    Begin(0xf0 + c / 0x4_0000, State(c / 0x4_0000, 3, 3), d2);
    Continue(State(c / 0x4_0000, 3, 3), c / 4096 % 64, d1);
    Continue(State(c / 4096, 2, 3), c / 64 % 64, d0);
    Finish(State(c / 64, 1, 3), c % 64, rest);
  }

  /** Examples of section 7 of RFC 3629, one scalar value for each length, and what its section 3 forbids. */
  lemma Examples()
    ensures Encode(0x41) == [0x41] && Encode(0x391) == [0xce, 0x91] && Encode(0x2262) == [0xe2, 0x89, 0xa2]
    ensures Encode(0x2_33b4) == [0xf0, 0xa3, 0x8e, 0xb4]
    ensures !Accepts([0xc0, 0x80]) && !Accepts([0xed, 0xa0, 0x80]) && !Accepts([0xf4, 0x90, 0x80, 0x80])
    ensures !Accepts([0x80]) && !Accepts([0xe2, 0x89])
  {
  }

  lemma {:induction false} EncodedTextIsAccepted(text: seq<Scalar>)
    ensures Accepts(EncodeAll(text))
  {
    hide Encode;
    if text != [] {
      OneScalar(text[0], EncodeAll(text[1..]));
      EncodedTextIsAccepted(text[1..]);
    }
  }

  predicate EncodedFront(s: seq<byte>, c: int)
  {
    IsScalar(c) && |Encode(c)| <= |s| && Encode(c) == s[..|Encode(c)|] && Accepts(s[|Encode(c)|..])
  }

  /** Inside a code point there must be another byte, and it must be a continuation. */
  lemma NextTail(st: State, s: seq<byte>) returns (d: nat, rest: seq<byte>)
    requires st.remaining > 0 && Ended(Run(st, s))
    ensures d < 64 && s == [Tail(d)] + rest
    ensures st.remaining > 1 ==> Ended(Run(State(st.codePoint * 64 + d, st.remaining - 1, st.expected), rest))
    ensures st.remaining == 1 ==> FinishUtf8CodePoint(st.codePoint * 64 + d, st.expected) && Ended(Run(START, rest))
  {
    hide FinishUtf8CodePoint;
    d, rest := LowBits(s[0], 64), s[1..];
    TailOf(s[0]);
  }

  lemma TailOf(ch: byte)
    ensures IsContinuation(ch) ==> ch == Tail(LowBits(ch, 64))
  {
  }

  lemma FirstOf(s: seq<byte>)
    requires s != [] && Accepts(s) && s[0] > 0x7f
    ensures Lead(s[0]).Valid? && Ended(Run(Lead(s[0]).state, s[1..]))
  {
  }

  lemma FrontFrom(s: seq<byte>, c: int, front: seq<byte>, rest: seq<byte>)
    requires s == front + rest && Accepts(rest) && IsScalar(c) && Encode(c) == front
    ensures EncodedFront(s, c)
  {
    hide Run;
    assert s[|front|..] == rest;
  }

  lemma TwoByteFront(s: seq<byte>) returns (c: Scalar)
    requires s != [] && Accepts(s) && 0x7f < s[0] <= 0xdf
    ensures EncodedFront(s, c)
  {
    FirstOf(s);
    hide Run, Encode, Tail, EncodedFront;
    var a: nat := s[0] - 0xc0;
    var b, rest := NextTail(State(a, 1, 1), s[1..]);
    c := a * 64 + b;
    TwoBytesOf(a, b);
    assert s == [0xc0 + a, Tail(b)] + rest;
    FrontFrom(s, c, [0xc0 + a, Tail(b)], rest);
  }

  lemma LastDigit(a: nat, d: nat)
    requires d < 64
    ensures (a * 64 + d) / 64 == a && (a * 64 + d) % 64 == d
  {
  }

  lemma TwoDigits(a: nat, b: nat, d: nat)
    requires b < 64 && d < 64
    ensures var c := (a * 64 + b) * 64 + d; c / 4096 == a && c / 64 % 64 == b && c % 64 == d
  {
    LastDigit(a * 64 + b, d);
    LastDigit(a, b);
  }

  lemma TwoBytesOf(a: nat, b: nat)
    requires 2 <= a < 32 && b < 64
    ensures Encode(a * 64 + b) == [0xc0 + a, Tail(b)]
  {
    LastDigit(a, b);
  }

  lemma ThreeBytesOf(a: nat, b: nat, d: nat)
    requires a < 16 && b < 64 && d < 64 && (a * 64 + b) * 64 + d >= 0x800
    ensures var c := (a * 64 + b) * 64 + d;
            c < 0x1_0000 && (IsScalar(c) ==> Encode(c) == [0xe0 + a, Tail(b), Tail(d)])
  {
    TwoDigits(a, b, d);
  }

  lemma FourBytesOf(a: nat, b: nat, d: nat, e: nat)
    requires a < 8 && b < 64 && d < 64 && e < 64 && ((a * 64 + b) * 64 + d) * 64 + e >= 0x1_0000
    ensures var c := ((a * 64 + b) * 64 + d) * 64 + e;
            IsScalar(c) ==> Encode(c) == [0xf0 + a, Tail(b), Tail(d), Tail(e)]
  {
    TwoDigits(a * 64 + b, d, e);
    LastDigit(a, b);
    assert (((a * 64 + b) * 64 + d) * 64 + e) / 0x4_0000 == (((a * 64 + b) * 64 + d) * 64 + e) / 4096 / 64;
  }

  lemma ThreeByteFront(s: seq<byte>) returns (c: Scalar)
    requires s != [] && Accepts(s) && 0xdf < s[0] <= 0xef
    ensures EncodedFront(s, c)
  {
    FirstOf(s);
    hide Run, Encode, Tail, EncodedFront;
    var a: nat := s[0] - 0xe0;
    var b, rest := NextTail(State(a, 2, 2), s[1..]);
    var d, rest' := NextTail(State(a * 64 + b, 1, 2), rest);
    c := (a * 64 + b) * 64 + d;
    ThreeBytesOf(a, b, d);
    assert s == [0xe0 + a, Tail(b), Tail(d)] + rest';
    FrontFrom(s, c, [0xe0 + a, Tail(b), Tail(d)], rest');
  }

  lemma FourByteFront(s: seq<byte>) returns (c: Scalar)
    requires s != [] && Accepts(s) && 0xef < s[0]
    ensures EncodedFront(s, c)
  {
    FirstOf(s);
    hide Run, Encode, Tail, EncodedFront;
    var a: nat := s[0] - 0xf0;
    var b, rest := NextTail(State(a, 3, 3), s[1..]);
    var d, rest' := NextTail(State(a * 64 + b, 2, 3), rest);
    var e, rest'' := NextTail(State((a * 64 + b) * 64 + d, 1, 3), rest');
    c := ((a * 64 + b) * 64 + d) * 64 + e;
    FourBytesOf(a, b, d, e);
    assert s == [0xf0 + a, Tail(b), Tail(d), Tail(e)] + rest'';
    FrontFrom(s, c, [0xf0 + a, Tail(b), Tail(d), Tail(e)], rest'');
  }

  /** An accepted, non-empty string starts with the encoding of a scalar value. */
  lemma FrontIsEncoded(s: seq<byte>) returns (c: Scalar)
    requires s != [] && Accepts(s)
    ensures EncodedFront(s, c)
  {
    if s[0] <= 0x7f {
      c := s[0];
    } else if s[0] <= 0xdf {
      c := TwoByteFront(s);
    } else if s[0] <= 0xef {
      c := ThreeByteFront(s);
    } else {
      c := FourByteFront(s);
    }
  }

  lemma {:induction false} AcceptedIsEncoded(s: seq<byte>) returns (text: seq<Scalar>)
    requires Accepts(s)
    ensures EncodeAll(text) == s
  {
    hide Accepts, Encode;
    if s == [] {
      text := [];
    } else {
      var c := FrontIsEncoded(s);
      var rest := AcceptedIsEncoded(s[|Encode(c)|..]);
      text := [c] + rest;
      assert text[1..] == rest;
    }
  }

  /** Section 4 of RFC 3629: exactly the concatenations of encoded scalar values are accepted. */
  lemma AcceptsExactlyUtf8(s: seq<byte>)
    ensures Accepts(s) <==> IsUtf8(s)
  {
    if Accepts(s) {
      var text := AcceptedIsEncoded(s);
    }
    if IsUtf8(s) {
      var text :| EncodeAll(text) == s;
      EncodedTextIsAccepted(text);
    }
  }

  /** Any split, the last piece final, is accepted exactly when the whole is UTF-8. */
  lemma StreamingAgrees(fragments: seq<seq<byte>>)
    ensures Ended(RunAll(START, fragments)) <==> IsUtf8(Concat(fragments))
  {
    SplitsAgree(START, fragments);
    AcceptsExactlyUtf8(Concat(fragments));
  }

  // ---- The code ----

  /** Between code points the three fields are zero. */
  predicate Reachable(st: State)
  {
    st.remaining == 0 ==> st == START
  }

  /** One byte of the loop: the three fields, or a refusal. */
  method AdvanceByte(ch: byte, codePoint: nat, remaining: nat, expected: nat)
    returns (valid: bool, codePoint': nat, remaining': nat, expected': nat)
    requires Reachable(State(codePoint, remaining, expected))
    ensures valid == Step(State(codePoint, remaining, expected), ch).Valid?
    ensures valid ==> Step(State(codePoint, remaining, expected), ch) == Valid(State(codePoint', remaining', expected'))
  {
    codePoint', remaining', expected' := codePoint, remaining, expected;
    if remaining != 0 {
      if !IsContinuation(ch) {
        return false, codePoint', remaining', expected';
      }
      codePoint' := codePoint' * 64 + LowBits(ch, 64);
      remaining' := remaining' - 1;
      if remaining' == 0 {
        if !FinishUtf8CodePoint(codePoint', expected') {
          return false, codePoint', remaining', expected';
        }
        codePoint' := 0;
        expected' := 0;
      }
      return true, codePoint', remaining', expected';
    }
    if ch <= 0x7f {
      return true, codePoint', remaining', expected';
    }
    if ch >= 0xc2 && ch <= 0xdf {
      codePoint', remaining', expected' := LowBits(ch, 32), 1, 1;
    } else if ch >= 0xe0 && ch <= 0xef {
      codePoint', remaining', expected' := LowBits(ch, 16), 2, 2;
    } else if ch >= 0xf0 && ch <= 0xf4 {
      codePoint', remaining', expected' := LowBits(ch, 8), 3, 3;
    } else {
      return false, codePoint', remaining', expected';
    }
    return true, codePoint', remaining', expected';
  }

  method AdvanceUtf8State(data: seq<byte>, finalFragment: bool, st: State) returns (status: Status, st': State)
    requires Reachable(st)
    ensures status == if Run(st, data).Valid? && (finalFragment ==> Ended(Run(st, data))) then Success
                      else InvalidParameter
    ensures status == Success ==> Valid(st') == Run(st, data) && Reachable(st')
  {
    var codePoint, remaining, expected := st.codePoint, st.remaining, st.expected;
    for index := 0 to |data|
      invariant Reachable(State(codePoint, remaining, expected))
      invariant Run(st, data) == Run(State(codePoint, remaining, expected), data[index..])
    {
      var valid;
      assert data[index..][1..] == data[index + 1..];
      valid, codePoint, remaining, expected := AdvanceByte(data[index], codePoint, remaining, expected);
      if !valid {
        return InvalidParameter, State(codePoint, remaining, expected);
      }
    }
    st' := State(codePoint, remaining, expected);
    if finalFragment && remaining != 0 {
      return InvalidParameter, st';
    }
    return Success, st';
  }

  /** The continuation bytes of one code point. */
  method ReadContinuation(data: seq<byte>, start: nat, codePoint: nat, continuation: nat)
    returns (valid: bool, index: nat)
    requires 1 <= continuation <= 3 && start + continuation <= |data|
    ensures valid ==> index == start + continuation
    ensures valid == Run(State(codePoint, continuation, continuation), data[start..start + continuation]).Valid?
    ensures valid ==> Run(State(codePoint, continuation, continuation), data[start..start + continuation]) == Valid(START)
  {
    ghost var piece := data[start..start + continuation];
    ghost var st := State(codePoint, continuation, continuation);
    var value: nat := codePoint;
    index := start;
    for next := 0 to continuation - 1
      invariant index == start + next
      invariant Run(st, piece) == Run(State(value, continuation - next, continuation), piece[next..])
    {
      var ch := data[index];
      index := index + 1;
      assert piece[next..][0] == ch && piece[next..][1..] == piece[next + 1..];
      if !IsContinuation(ch) {
        return false, index;
      }
      value := value * 64 + LowBits(ch, 64);
    }
    var last := data[index];
    assert piece[continuation - 1..] == [last];
    assert Run(State(value, 1, continuation), [last]) == match Step(State(value, 1, continuation), last)
                                                         case Invalid => Invalid case Valid(n) => Run(n, []);
    index := index + 1;
    if !IsContinuation(last) {
      return false, index;
    }
    value := value * 64 + LowBits(last, 64);
    valid := FinishUtf8CodePoint(value, continuation);
  }

  /** The whole-buffer validator. */
  method IsValidUtf8(data: seq<byte>) returns (valid: bool)
    ensures valid <==> IsUtf8(data)
  {
    hide Run, IsUtf8;
    AcceptsExactlyUtf8(data);
    NothingLeft();
    var index := 0;
    assert data[0..] == data;
    while index < |data|
      invariant 0 <= index <= |data| && Run(START, data) == Run(START, data[index..])
      decreases |data| - index
    {
      var first := data[index];
      Unfold(data, index);
      index := index + 1;
      if first <= 0x7f {
        continue;
      }
      var codePoint, continuation: nat := 0, 0;
      if first >= 0xc2 && first <= 0xdf {
        codePoint := LowBits(first, 32);
        continuation := 1;
      } else if first >= 0xe0 && first <= 0xef {
        codePoint := LowBits(first, 16);
        continuation := 2;
      } else if first >= 0xf0 && first <= 0xf4 {
        codePoint := LowBits(first, 8);
        continuation := 3;
      } else {
        return false;
      }
      ghost var st := State(codePoint, continuation, continuation);
      if continuation > |data| - index {
        TooShort(st, data[index..]);
        return false;
      }
      assert data[index..] == data[index..index + continuation] + data[index + continuation..];
      RunConcat(st, data[index..index + continuation], data[index + continuation..]);
      valid, index := ReadContinuation(data, index, codePoint, continuation);
      if !valid {
        return false;
      }
    }
    assert data[index..] == [];
    return true;
  }

  lemma Unfold(data: seq<byte>, index: nat)
    requires index < |data|
    ensures Run(START, data[index..]) ==
            match Lead(data[index]) case Invalid => Invalid case Valid(next) => Run(next, data[index + 1..])
  {
    assert data[index..][1..] == data[index + 1..];
  }

  lemma NothingLeft()
    ensures Run(START, []) == Valid(START)
  {
  }

  /** A code point cut short by the end of the buffer does not end. */
  lemma {:induction false} TooShort(st: State, s: seq<byte>)
    requires |s| < st.remaining
    ensures !Ended(Run(st, s))
    decreases s
  {
    if s != [] && Step(st, s[0]).Valid? {
      TooShort(Step(st, s[0]).state, s[1..]);
    }
  }
}
