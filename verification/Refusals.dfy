/** Which bytes the request parser refuses, and which leave it waiting for more. */
module Refusals {
  import opened Collections
  import opened Protocol
  import opened RequestParser
  import opened Replies

  // ---------------------------------------------------------------- numbers

  lemma {:induction false} RunThen(digits: bytes, rest: bytes)
    requires forall i :: 0 <= i < |digits| ==> IsDigit(digits[i])
    requires rest == [] || !IsDigit(rest[0])
    ensures DigitRun(digits + rest) == |digits|
  {
    if digits == [] {
      assert digits + rest == rest;
    } else {
      RunThen(digits[1..], rest);
      assert (digits + rest)[1..] == digits[1..] + rest;
    }
  }

  function Held(v: int): Option<int> {
    if INT32_MIN <= v <= INT32_MAX then Some(v) else None
  }

  lemma FromCharsIs(s: bytes, text: bytes, negative: bool, digits: bytes)
    requires negative == (s != [] && s[0] == MINUS) && text == if negative then s[1..] else s
    requires 0 < DigitRun(text) && digits == text[..DigitRun(text)]
    requires forall i :: 0 <= i < |digits| ==> IsDigit(digits[i])
    ensures FromChars(s) == Held(if negative then 0 - Value(digits) else Value(digits))
  {
    hide Value;
    hide DigitRun;
    hide IsDigit;
  }

  /** What the digits in front of `rest` are read as. */
  lemma MagnitudeRead(digits: bytes, rest: bytes, negative: bool)
    requires digits != [] && (forall i :: 0 <= i < |digits| ==> IsDigit(digits[i]))
    requires rest == [] || !IsDigit(rest[0])
    ensures FromChars((if negative then [MINUS] + digits else digits) + rest) ==
            Held(if negative then 0 - Value(digits) else Value(digits))
  {
    hide Value;
    hide FromChars;
    RunThen(digits, rest);
    hide DigitRun;
    var text := digits + rest;
    var s := (if negative then [MINUS] + digits else digits) + rest;
    assert IsDigit(digits[0]) && text[0] == digits[0];
    assert text[..|digits|] == digits;
    assert negative ==> s[1..] == text;
    FromCharsIs(s, text, negative, digits);
  }

  /** A printed number is read back, sign included, if 32 bits hold it; what follows its digits is ignored. */
  lemma NumberReadBack(v: int, rest: bytes)
    requires rest == [] || !IsDigit(rest[0])
    ensures FromChars(IntText(v) + rest) == if INT32_MIN <= v <= INT32_MAX then Some(v) else None
  {
    hide FromChars;
    hide Value;
    hide Digits;
    var n := if v < 0 then -v else v;
    DigitsValue(n);
    MagnitudeRead(Digits(n), rest, v < 0);
  }

  /** A line that does not start with a digit, but for a sign, is no number. */
  lemma NoNumber(line: bytes)
    requires line == [] || (!IsDigit(line[0]) && line[0] != MINUS)
               || (line[0] == MINUS && (|line| == 1 || !IsDigit(line[1])))
    ensures FromChars(line) == None
  {
  }

  // ---------------------------------------------------------------- the array header

  /** A count that is negative or too large is refused, whatever follows it. */
  lemma BadCountRefused(v: int, rest: bytes)
    requires v < 0 || v > INT32_MAX
    ensures Decode([STAR] + IntText(v) + CRLF + rest) == Malformed
  {
    hide FromChars;
    hide FindCrlf;
    hide IntText;
    var line := IntText(v);
    var t := [STAR] + line + CRLF + rest;
    NumberHasNoCr(v);
    NoCrlfInLine(STAR, line, rest, 1);
    assert t[1..1 + |line|] == line;
    NumberReadBack(v, []);
    assert line + [] == line;
  }

  // ---------------------------------------------------------------- a bulk string

  /** How a bulk string can be wrong: no dollar sign, no length, a length that is negative or too large, or no
      line end behind as many bytes as the length says. */
  datatype Fault =
    | NoDollar(start: byte)
    | NoLength
    | BadLength(v: int)
    | NoEnd(text: bytes, end: bytes)

  predicate IsFault(f: Fault) {
    match f
    case NoDollar(start) => start != DOLLAR
    case NoLength => true
    case BadLength(v) => v < 0 || v > INT32_MAX
    case NoEnd(text, end) => |text| <= INT32_MAX && |end| == 2 && end != CRLF
  }

  function Spoilt(f: Fault): bytes {
    match f
    case NoDollar(start) => [start]
    case NoLength => [DOLLAR] + CRLF
    case BadLength(v) => [DOLLAR] + IntText(v) + CRLF
    case NoEnd(text, end) => [DOLLAR] + IntText(|text|) + CRLF + text + end
  }

  lemma BadLengthRead(v: int, rest: bytes)
    requires v < 0 || v > INT32_MAX
    ensures ReadBulk([DOLLAR] + IntText(v) + CRLF + rest, 0) == BulkBad
  {
    hide FromChars;
    hide FindCrlf;
    hide IntText;
    var line := IntText(v);
    var t := [DOLLAR] + line + CRLF + rest;
    NumberHasNoCr(v);
    NoCrlfInLine(DOLLAR, line, rest, 0);
    assert t[1..1 + |line|] == line;
    NumberReadBack(v, []);
    assert line + [] == line;
  }

  lemma NoEndRead(text: bytes, end: bytes, rest: bytes)
    requires |text| <= INT32_MAX && |end| == 2 && end != CRLF
    ensures ReadBulk([DOLLAR] + IntText(|text|) + CRLF + text + end + rest, 0) == BulkBad
  {
    hide FromChars;
    hide FindCrlf;
    hide ReadBulk;
    hide Digits;
    var line, tail := IntText(|text|), text + end + rest;
    NumberHasNoCr(|text|);
    FromCharsDigits(|text|);
    LineThenBody(line, tail, |text|);
    assert [tail[|text|], tail[|text| + 1]] == end;
    assert [DOLLAR] + line + CRLF + text + end + rest == [DOLLAR] + line + CRLF + tail;
  }

  lemma FaultRead(f: Fault, rest: bytes)
    requires IsFault(f)
    ensures ReadBulk(Spoilt(f) + rest, 0) == BulkBad
  {
    match f
    case NoDollar(_) =>
    case NoLength =>
      var t := Spoilt(f) + rest;
      assert CrlfAt(t, 1) && !CrlfAt(t, 0);
      FindCrlfIs(t, 0, 1);
    case BadLength(v) => BadLengthRead(v, rest);
    case NoEnd(text, end) => NoEndRead(text, end, rest);
  }

  lemma {:induction false} BulksThenFault(done: bytes, strings: seq<Option<bytes>>, left: nat, args: seq<bytes>,
                                          f: Fault, rest: bytes)
    requires |strings| < left && IsFault(f)
    requires forall i :: 0 <= i < |strings| ==> strings[i].Some? && |strings[i].value| <= INT32_MAX
    ensures ReadBulks(done + EncodeBulks(strings) + Spoilt(f) + rest, |done|, left, args) == Malformed
    decreases |strings|
  {
    hide ReadBulk;
    hide EncodeBulk;
    hide Spoilt;
    var t := done + EncodeBulks(strings) + Spoilt(f) + rest;
    if strings == [] {
      FaultRead(f, rest);
      ReadBulkShift(done, Spoilt(f) + rest, 0);
      assert t == done + (Spoilt(f) + rest);
    } else {
      var s, one := strings[0].value, EncodeBulk(strings[0]);
      var later := EncodeBulks(strings[1..]) + Spoilt(f) + rest;
      BulkRoundTrip(s, later);
      ReadBulkShift(done, one + later, 0);
      BulksThenFault(done + one, strings[1..], left - 1, args + [s], f, rest);
      assert t == done + (one + later);
      assert t == done + one + EncodeBulks(strings[1..]) + Spoilt(f) + rest;
    }
  }

  /** A faulty bulk string is refused wherever it stands in a request, whatever follows it. */
  lemma FaultRefused(count: nat, strings: seq<Option<bytes>>, f: Fault, rest: bytes)
    requires |strings| < count <= INT32_MAX && Fits(strings) && IsFault(f)
    ensures Decode(EncodeHeader(count) + EncodeBulks(strings) + Spoilt(f) + rest) == Malformed
  {
    hide ReadHeader;
    hide ReadBulks;
    hide EncodeHeader;
    hide EncodeBulks;
    hide Spoilt;
    var more := EncodeBulks(strings) + Spoilt(f) + rest;
    HeaderRoundTrip(count, more);
    BulksThenFault(EncodeHeader(count), strings, count, [], f, rest);
    assert EncodeHeader(count) + EncodeBulks(strings) + Spoilt(f) + rest == EncodeHeader(count) + more;
  }

  // ---------------------------------------------------------------- waiting for more

  lemma {:induction false} BulksUseNoMore(s: bytes, at: nat, left: nat, args: seq<bytes>)
    requires at <= |s| && ReadBulks(s, at, left, args).Request?
    ensures ReadBulks(s, at, left, args).used <= |s|
    decreases left
  {
    hide ReadBulk;
    if left > 0 {
      var r := ReadBulk(s, at);
      BulksUseNoMore(s, r.next, left - 1, args + [r.text]);
    }
  }

  /** A request of which the last byte is still to come is neither accepted nor refused, however it is cut. */
  lemma CutRequestIsUndecided(strings: seq<Option<bytes>>, n: nat)
    requires Fits(strings) && n < |Encode(strings)|
    ensures Decode(Encode(strings)[..n]) == NeedMore
  {
    hide ReadHeader;
    hide ReadBulks;
    hide Encode;
    var whole := Encode(strings);
    var s := whole[..n];
    PrintParse(strings);
    assert whole == s + whole[n..];
    if !Decode(s).NeedMore? {
      DecisionStable(s, whole[n..]);
      var h := ReadHeader(s);
      BulksUseNoMore(s, h.next, h.count, []);
      assert false;
    }
  }

  // ---------------------------------------------------------------- replies are told apart

  /** A nil is printed as a length line of -1, a length the parser refuses. */
  lemma NilIsNoLength()
    ensures NIL_TEXT == [DOLLAR] + IntText(-1) + CRLF
  {
    assert Digits(1) == [ZERO + 1];
  }

  /** Lengths and count that are printed as they are. */
  predicate Short(strings: seq<Option<bytes>>) {
    |strings| <= INT32_MAX && forall i :: 0 <= i < |strings| && strings[i].Some? ==> |strings[i].value| <= INT32_MAX
  }

  lemma NilIsNoString(s: bytes, a: bytes, b: bytes)
    requires |s| <= INT32_MAX
    ensures NIL_TEXT + a != EncodeBulk(Some(s)) + b
  {
    var d := Digits(|s|);
    assert IsDigit(d[0]);
    assert (EncodeBulk(Some(s)) + b)[1] == d[0];
    assert (NIL_TEXT + a)[1] == MINUS;
  }

  /** Two printed strings with what follows them are the same only if both are. */
  lemma BulkToldApart(x: Option<bytes>, y: Option<bytes>, a: bytes, b: bytes)
    requires x.Some? ==> |x.value| <= INT32_MAX
    requires y.Some? ==> |y.value| <= INT32_MAX
    requires EncodeBulk(x) + a == EncodeBulk(y) + b
    ensures x == y && a == b
  {
    hide ReadBulk;
    if x.Some? && y.Some? {
      BulkRoundTrip(x.value, a);
      BulkRoundTrip(y.value, b);
    } else if x.Some? {
      NilIsNoString(x.value, b, a);
    } else if y.Some? {
      NilIsNoString(y.value, a, b);
    }
    hide EncodeBulk;
    var one := EncodeBulk(x);
    assert x == y;
    assert a == (one + a)[|one|..] && b == (one + b)[|one|..];
  }

  lemma {:induction false} BulksToldApart(a: seq<Option<bytes>>, b: seq<Option<bytes>>)
    requires |a| == |b| && Short(a) && Short(b) && EncodeBulks(a) == EncodeBulks(b)
    ensures a == b
  {
    hide EncodeBulk;
    if a != [] {
      BulkToldApart(a[0], b[0], EncodeBulks(a[1..]), EncodeBulks(b[1..]));
      BulksToldApart(a[1..], b[1..]);
      assert a == [a[0]] + a[1..] && b == [b[0]] + b[1..];
    }
  }

  /** Printed array replies are the same only if the lists are, nils included, as long as 32 bits hold their
      lengths. */
  lemma RepliesToldApart(a: seq<Option<bytes>>, b: seq<Option<bytes>>)
    requires Short(a) && Short(b)
    ensures Encode(a) == Encode(b) <==> a == b
  {
    hide ReadHeader;
    hide EncodeHeader;
    hide EncodeBulks;
    if Encode(a) == Encode(b) {
      HeaderRoundTrip(|a|, EncodeBulks(a));
      HeaderRoundTrip(|b|, EncodeBulks(b));
      var h := EncodeHeader(|a|);
      assert EncodeBulks(a) == (h + EncodeBulks(a))[|h|..] && EncodeBulks(b) == (h + EncodeBulks(b))[|h|..];
      BulksToldApart(a, b);
    }
  }
}
