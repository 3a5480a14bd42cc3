/** The request format: arrays of bulk strings, as a function from the bytes received so far. */
module Protocol {
  import opened Collections

  newtype byte = x: int | 0 <= x < 256
  type bytes = seq<byte>

  const STAR: byte := 42
  const DOLLAR: byte := 36
  const MINUS: byte := 45
  const ZERO: byte := 48
  const CR: byte := 13
  const LF: byte := 10

  const INT32_MAX: int := 0x7FFF_FFFF
  const INT32_MIN: int := -0x8000_0000

  // ---------------------------------------------------------------- searching a line end

  predicate CrlfAt(s: bytes, i: int) {
    0 <= i && i + 1 < |s| && s[i] == CR && s[i + 1] == LF
  }

  /** The first line end at or after `from`. */
  function FindCrlf(s: bytes, from: nat): (r: Option<nat>)
    ensures r.Some? ==> from <= r.value && CrlfAt(s, r.value) && forall i :: from <= i < r.value ==> !CrlfAt(s, i)
    ensures r.None? ==> forall i :: from <= i ==> !CrlfAt(s, i)
    decreases |s| - from
  {
    if from + 1 >= |s| then None
    else if s[from] == CR && s[from + 1] == LF then Some(from)
    else FindCrlf(s, from + 1)
  }

  lemma FindCrlfIs(s: bytes, from: nat, i: nat)
    requires from <= i && CrlfAt(s, i) && forall j :: from <= j < i ==> !CrlfAt(s, j)
    ensures FindCrlf(s, from) == Some(i)
  {
  }

  lemma FindCrlfStable(s: bytes, more: bytes, from: nat)
    requires FindCrlf(s, from).Some?
    ensures FindCrlf(s + more, from) == FindCrlf(s, from)
  {
    var i := FindCrlf(s, from).value;
    forall j | from <= j < i ensures !CrlfAt(s + more, j) {
      assert !CrlfAt(s, j);
    }
    assert CrlfAt(s + more, i);
    FindCrlfIs(s + more, from, i);
  }

  // ---------------------------------------------------------------- numbers

  predicate IsDigit(b: byte) {
    ZERO <= b < ZERO + 10
  }

  /** How many digits `s` starts with. */
  function DigitRun(s: bytes): (n: nat)
    ensures n <= |s|
  {
    if s == [] || !IsDigit(s[0]) then 0 else 1 + DigitRun(s[1..])
  }

  function Value(digits: bytes): nat
    requires forall i :: 0 <= i < |digits| ==> IsDigit(digits[i])
  {
    if digits == [] then 0
    else
      assert IsDigit(digits[|digits| - 1]);
      10 * Value(digits[..|digits| - 1]) + (digits[|digits| - 1] as int - ZERO as int)
  }

  lemma {:induction false} DigitRunDigits(s: bytes)
    ensures forall i :: 0 <= i < DigitRun(s) ==> IsDigit(s[i])
    ensures DigitRun(s) < |s| ==> !IsDigit(s[DigitRun(s)])
  {
    if s != [] && IsDigit(s[0]) {
      DigitRunDigits(s[1..]);
    }
  }

  /** Reads a 32-bit signed number from the front of `s`, ignoring what follows it. */
  function FromChars(s: bytes): Option<int> {
    var negative := s != [] && s[0] == MINUS;
    var digits := if negative then s[1..] else s;
    var n := DigitRun(digits);
    DigitRunDigits(digits);
    if n == 0 then None
    else
      var v: int := if negative then 0 - Value(digits[..n]) else Value(digits[..n]);
      if INT32_MIN <= v <= INT32_MAX then Some(v) else None
  }

  // ---------------------------------------------------------------- bulk strings and requests

  datatype Bulk = BulkMore | BulkBad | BulkGot(text: bytes, next: nat)

  /** Reads one bulk string starting at `at`. */
  function ReadBulk(s: bytes, at: nat): (r: Bulk)
    requires at <= |s|
    ensures r.BulkGot? ==> at < r.next <= |s|
  {
    if at == |s| then BulkMore
    else if s[at] != DOLLAR then BulkBad
    else
      match FindCrlf(s, at)
      case None => BulkMore
      case Some(crlf) =>
        if crlf == at + 1 then BulkBad
        else
          assert crlf != at;
          match FromChars(s[at + 1..crlf])
          case None => BulkBad
          case Some(length) => if length < 0 then BulkBad else ReadBody(s, crlf + 2, length)
  }

  /** Reads `length` bytes from `body` and the line end behind them. */
  function ReadBody(s: bytes, body: nat, length: nat): (r: Bulk)
    ensures r.BulkGot? ==> r.next == body + length + 2 <= |s|
  {
    if body + length + 2 > |s| then BulkMore
    else if s[body + length] != CR || s[body + length + 1] != LF then BulkBad
    else BulkGot(s[body..body + length], body + length + 2)
  }

  datatype Outcome = NeedMore | Malformed | Request(args: seq<bytes>, used: nat)

  function ReadBulks(s: bytes, at: nat, left: nat, args: seq<bytes>): Outcome
    requires at <= |s|
    decreases left
  {
    if left == 0 then Request(args, at)
    else
      match ReadBulk(s, at)
      case BulkMore => NeedMore
      case BulkBad => Malformed
      case BulkGot(text, next) => ReadBulks(s, next, left - 1, args + [text])
  }

  datatype Header = HeaderMore | HeaderBad | HeaderGot(count: nat, next: nat)

  function ReadHeader(s: bytes): (r: Header)
    ensures r.HeaderGot? ==> r.next <= |s|
  {
    if s == [] then HeaderMore
    else if s[0] != STAR then HeaderBad
    else
      match FindCrlf(s, 1)
      case None => HeaderMore
      case Some(crlf) =>
        match FromChars(s[1..crlf])
        case None => HeaderBad
        case Some(count) => if count < 0 then HeaderBad else HeaderGot(count, crlf + 2)
  }

  /** What the bytes received so far decide. */
  function Decode(s: bytes): Outcome {
    match ReadHeader(s)
    case HeaderMore => NeedMore
    case HeaderBad => Malformed
    case HeaderGot(count, next) => ReadBulks(s, next, count, [])
  }

  lemma {:induction false} BulksAreCounted(s: bytes, at: nat, left: nat, args: seq<bytes>)
    requires at <= |s| && ReadBulks(s, at, left, args).Request?
    ensures |ReadBulks(s, at, left, args).args| == |args| + left
    decreases left
  {
    hide ReadBulk;
    if left > 0 {
      var r := ReadBulk(s, at);
      BulksAreCounted(s, r.next, left - 1, args + [r.text]);
    }
  }

  /** A decided request has as many arguments as its header says: it has one exactly when that is not 0. */
  lemma ArgumentsAreCounted(s: bytes)
    requires Decode(s).Request?
    ensures ReadHeader(s).HeaderGot? && |Decode(s).args| == ReadHeader(s).count
    ensures Decode(s).args != [] <==> ReadHeader(s).count != 0
  {
    var h := ReadHeader(s);
    BulksAreCounted(s, h.next, h.count, []);
  }

  /** The client asserts that a decided request has an argument; the array of length 0 has none. */
  lemma EmptyArrayIsDecided()
    ensures Decode([STAR, ZERO, CR, LF]) == Request([], 4)
  {
    var s := [STAR, ZERO, CR, LF];
    assert CrlfAt(s, 2);
    FindCrlfIs(s, 1, 2);
    assert s[1..2] == [ZERO];
    var zero := [ZERO];
    assert zero[1..] == [] && zero[..1] == zero && zero[..0] == [];
    assert DigitRun(zero) == 1 && Value(zero) == 0;
  }

  // ---------------------------------------------------------------- later bytes do not change a decision

  lemma ReadBulkStable(s: bytes, more: bytes, at: nat)
    requires at <= |s| && !ReadBulk(s, at).BulkMore?
    ensures ReadBulk(s + more, at) == ReadBulk(s, at)
  {
    var t := s + more;
    if s[at] == DOLLAR {
      FindCrlfStable(s, more, at);
      var crlf := FindCrlf(s, at).value;
      if crlf != at + 1 {
        assert t[at + 1..crlf] == s[at + 1..crlf];
        var length := FromChars(s[at + 1..crlf]);
        if length.Some? && length.value >= 0 {
          var body := crlf + 2;
          assert t[body..body + length.value] == s[body..body + length.value];
        }
      }
    }
  }

  lemma ReadHeaderStable(s: bytes, more: bytes)
    requires !ReadHeader(s).HeaderMore?
    ensures ReadHeader(s + more) == ReadHeader(s)
  {
    var t := s + more;
    if s[0] == STAR {
      FindCrlfStable(s, more, 1);
      var crlf := FindCrlf(s, 1).value;
      assert t[1..crlf] == s[1..crlf];
    }
  }

  lemma {:induction false} ReadBulksStable(s: bytes, more: bytes, at: nat, left: nat, args: seq<bytes>)
    requires at <= |s| && !ReadBulks(s, at, left, args).NeedMore?
    ensures ReadBulks(s + more, at, left, args) == ReadBulks(s, at, left, args)
    decreases left
  {
    if left > 0 {
      ReadBulkStable(s, more, at);
      var r := ReadBulk(s, at);
      if r.BulkGot? {
        ReadBulksStable(s, more, r.next, left - 1, args + [r.text]);
      }
    }
  }

  /** A decision made on a prefix is the decision on the whole. */
  lemma DecisionStable(s: bytes, more: bytes)
    requires !Decode(s).NeedMore?
    ensures Decode(s + more) == Decode(s)
  {
    ReadHeaderStable(s, more);
    var h := ReadHeader(s);
    if h.HeaderGot? {
      ReadBulksStable(s, more, h.next, h.count, []);
    }
  }
}
