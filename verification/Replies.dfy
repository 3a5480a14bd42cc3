/** The reply printer: scatter/gather pieces that share bytes of one scratch buffer. */
module Replies {
  import opened Collections
  import opened Protocol
  import opened RequestParser

  // ---------------------------------------------------------------- numbers as text

  function Digits(n: nat): (d: bytes)
    ensures |d| >= 1 && forall i :: 0 <= i < |d| ==> IsDigit(d[i])
  {
    if n < 10 then [(n as int + ZERO as int) as byte]
    else Digits(n / 10) + [((n % 10) as int + ZERO as int) as byte]
  }

  function IntText(v: int): (t: bytes)
    ensures |t| >= 1
  {
    if v < 0 then [MINUS] + Digits(-v) else Digits(v)
  }

  lemma {:induction false} DigitsValue(n: nat)
    ensures Value(Digits(n)) == n
  {
    if n >= 10 {
      DigitsValue(n / 10);
      var d := Digits(n);
      assert d[..|d| - 1] == Digits(n / 10);
    } else {
      var d := Digits(n);
      assert d[..0] == [];
    }
  }

  lemma {:induction false} AllDigitsRun(s: bytes)
    requires forall i :: 0 <= i < |s| ==> IsDigit(s[i])
    ensures DigitRun(s) == |s|
  {
    if s != [] {
      AllDigitsRun(s[1..]);
    }
  }

  /** Reading a printed length back. */
  lemma FromCharsDigits(n: nat)
    ensures FromChars(Digits(n)) == if n <= INT32_MAX then Some(n) else None
  {
    var d := Digits(n);
    assert IsDigit(d[0]);
    AllDigitsRun(d);
    assert d[..|d|] == d;
    DigitsValue(n);
  }

  /** The conversion to a 32-bit signed number that lengths go through. */
  function AsInt32(n: nat): (v: int)
    ensures INT32_MIN <= v <= INT32_MAX
    ensures n <= INT32_MAX ==> v == n
    ensures (n - v) % 0x1_0000_0000 == 0
  {
    var low := n % 0x1_0000_0000;
    if low <= INT32_MAX then low else low - 0x1_0000_0000
  }

  lemma {:induction false} DigitsShort(n: nat, places: nat)
    requires places >= 1 && n < Power10(places)
    ensures |Digits(n)| <= places
  {
    if n >= 10 {
      DigitsShort(n / 10, places - 1);
    }
  }

  function Power10(k: nat): nat {
    if k == 0 then 1 else 10 * Power10(k - 1)
  }

  lemma Int32TextShort(v: int)
    requires INT32_MIN <= v <= INT32_MAX
    ensures |IntText(v)| <= 11
  {
    assert Power10(10) == 10_000_000_000;
    DigitsShort(if v < 0 then -v else v, 10);
  }

  lemma {:induction false} DigitsLinear(n: nat)
    requires n >= 1
    ensures |Digits(n)| <= n
  {
    if n >= 10 {
      DigitsLinear(n / 10);
    }
  }

  // ---------------------------------------------------------------- what a reply looks like

  const CRLF: bytes := [CR, LF]
  const NIL_TEXT: bytes := [DOLLAR, MINUS, ZERO + 1, CR, LF]

  function EncodeBulk(str: Option<bytes>): bytes {
    match str
    case None => NIL_TEXT
    case Some(s) => [DOLLAR] + IntText(AsInt32(|s|)) + CRLF + s + CRLF
  }

  function EncodeBulks(strings: seq<Option<bytes>>): bytes {
    if strings == [] then [] else EncodeBulk(strings[0]) + EncodeBulks(strings[1..])
  }

  function EncodeHeader(count: nat): bytes {
    [STAR] + Digits(count) + CRLF
  }

  function Encode(strings: seq<Option<bytes>>): bytes {
    EncodeHeader(|strings|) + EncodeBulks(strings)
  }

  // ---------------------------------------------------------------- the round trip

  lemma NoCrlfInLine(prefix: byte, line: bytes, rest: bytes, from: nat)
    requires prefix != CR && forall i :: 0 <= i < |line| ==> line[i] != CR
    requires from <= 1
    ensures FindCrlf([prefix] + line + CRLF + rest, from) == Some(1 + |line|)
  {
    var t := [prefix] + line + CRLF + rest;
    assert t[1 + |line|] == CR && t[2 + |line|] == LF;
    forall j | from <= j < 1 + |line| ensures !CrlfAt(t, j) {
      assert t[j] == if j == 0 then prefix else line[j - 1];
    }
    FindCrlfIs(t, from, 1 + |line|);
  }

  lemma NumberHasNoCr(v: int)
    ensures forall i :: 0 <= i < |IntText(v)| ==> IntText(v)[i] != CR
  {
    forall i | 0 <= i < |IntText(v)| ensures IntText(v)[i] != CR {
      if v < 0 {
        assert i > 0 ==> IsDigit(Digits(-v)[i - 1]);
      } else {
        assert IsDigit(Digits(v)[i]);
      }
    }
  }

  lemma BodyRoundTrip(s: bytes, rest: bytes)
    ensures ReadBody(s + CRLF + rest, 0, |s|) == BulkGot(s, |s| + 2)
  {
    var t := s + CRLF + rest;
    assert t[0..|s|] == s && t[|s|] == CR && t[|s| + 1] == LF;
  }

  /** Reading a bulk string whose length line is `line`. */
  lemma LineThenBody(line: bytes, tail: bytes, length: nat)
    requires line != [] && (forall i :: 0 <= i < |line| ==> line[i] != CR) && FromChars(line) == Some(length)
    ensures ReadBulk([DOLLAR] + line + CRLF + tail, 0) == ShiftBulk(|line| + 3, ReadBody(tail, 0, length))
  {
    hide FromChars;
    hide FindCrlf;
    hide ReadBody;
    var head := [DOLLAR] + line + CRLF;
    var t := head + tail;
    NoCrlfInLine(DOLLAR, line, tail, 0);
    assert t[1..1 + |line|] == line;
    ReadBodyShift(head, tail, 0, length);
  }

  /** A printed string is read back, whatever follows it. */
  lemma BulkRoundTrip(s: bytes, rest: bytes)
    requires |s| <= INT32_MAX
    ensures ReadBulk(EncodeBulk(Some(s)) + rest, 0) == BulkGot(s, |EncodeBulk(Some(s))|)
  {
    hide FromChars;
    hide ReadBulk;
    hide ReadBody;
    hide Digits;
    var line, tail := IntText(|s|), s + CRLF + rest;
    NumberHasNoCr(|s|);
    FromCharsDigits(|s|);
    LineThenBody(line, tail, |s|);
    BodyRoundTrip(s, rest);
    assert EncodeBulk(Some(s)) + rest == [DOLLAR] + line + CRLF + tail;
  }

  predicate Fits(strings: seq<Option<bytes>>) {
    |strings| <= INT32_MAX && forall i :: 0 <= i < |strings| ==> strings[i].Some? && |strings[i].value| <= INT32_MAX
  }

  function Texts(strings: seq<Option<bytes>>): seq<bytes>
    requires forall i :: 0 <= i < |strings| ==> strings[i].Some?
  {
    seq(|strings|, i requires 0 <= i < |strings| => strings[i].value)
  }

  lemma {:induction false} BulksRoundTrip(done: bytes, strings: seq<Option<bytes>>, args: seq<bytes>)
    requires forall i :: 0 <= i < |strings| ==> strings[i].Some? && |strings[i].value| <= INT32_MAX
    ensures ReadBulks(done + EncodeBulks(strings), |done|, |strings|, args)
         == Request(args + Texts(strings), |done| + |EncodeBulks(strings)|)
    decreases |strings|
  {
    hide ReadBulk;
    hide EncodeBulk;
    if strings != [] {
      var s, rest := strings[0].value, EncodeBulks(strings[1..]);
      var one := EncodeBulk(strings[0]);
      BulkRoundTrip(s, rest);
      ReadBulkShift(done, one + rest, 0);
      BulksRoundTrip(done + one, strings[1..], args + [s]);
      assert done + one + rest == done + EncodeBulks(strings) == done + (one + rest);
      assert args + [s] + Texts(strings[1..]) == args + Texts(strings);
    } else {
      assert args + Texts(strings) == args;
    }
  }

  lemma HeaderRoundTrip(count: nat, rest: bytes)
    requires count <= INT32_MAX
    ensures ReadHeader(EncodeHeader(count) + rest) == HeaderGot(count, |EncodeHeader(count)|)
  {
    hide FromChars;
    hide FindCrlf;
    var line := Digits(count);
    var t := EncodeHeader(count) + rest;
    NumberHasNoCr(count);
    NoCrlfInLine(STAR, line, rest, 1);
    assert t == [STAR] + line + CRLF + rest;
    assert t[1..1 + |line|] == line;
    FromCharsDigits(count);
  }

  /** Whatever is decoded has a count and lengths that a 32-bit signed number can hold. */
  lemma {:induction false} DecodedFits(s: bytes, at: nat, left: nat, args: seq<bytes>)
    requires at <= |s| && ReadBulks(s, at, left, args).Request?
    requires forall i :: 0 <= i < |args| ==> |args[i]| <= INT32_MAX
    ensures var r := ReadBulks(s, at, left, args);
            |r.args| == |args| + left && forall i :: 0 <= i < |r.args| ==> |r.args[i]| <= INT32_MAX
    decreases left
  {
    if left > 0 {
      var b := ReadBulk(s, at);
      DecodedFits(s, b.next, left - 1, args + [b.text]);
    }
  }

  /** The list that `strings` is, when none of them is nil. */
  predicate Same(strings: seq<Option<bytes>>, args: seq<bytes>) {
    |args| == |strings| && forall i :: 0 <= i < |args| ==> strings[i] == Some(args[i])
  }

  lemma FittingIsReadBack(strings: seq<Option<bytes>>)
    requires Fits(strings)
    ensures Decode(Encode(strings)) == Request(Texts(strings), |Encode(strings)|)
  {
    hide ReadHeader;
    hide ReadBulks;
    hide EncodeHeader;
    hide EncodeBulks;
    HeaderRoundTrip(|strings|, EncodeBulks(strings));
    BulksRoundTrip(EncodeHeader(|strings|), strings, []);
    assert [] + Texts(strings) == Texts(strings);
  }

  lemma DecodedAnyFits(s: bytes, args: seq<bytes>, used: nat)
    requires Decode(s) == Request(args, used)
    ensures |args| <= INT32_MAX && forall i :: 0 <= i < |args| ==> |args[i]| <= INT32_MAX
  {
    hide ReadBulks;
    var h := ReadHeader(s);
    DecodedFits(s, h.next, h.count, []);
  }

  /** Printing and parsing undo each other exactly for lists without nil whose count and lengths fit
      a 32-bit signed number; then the whole reply is consumed. */
  lemma PrintParse(strings: seq<Option<bytes>>)
    ensures (exists args, used :: Decode(Encode(strings)) == Request(args, used) && Same(strings, args)) <==>
              Fits(strings)
    ensures Fits(strings) ==> Decode(Encode(strings)) == Request(Texts(strings), |Encode(strings)|)
  {
    hide Decode;
    hide Encode;
    if Fits(strings) {
      FittingIsReadBack(strings);
      assert Same(strings, Texts(strings));
    }
    if args, used :| Decode(Encode(strings)) == Request(args, used) && Same(strings, args) {
      DecodedAnyFits(Encode(strings), args, used);
    }
  }

  // ---------------------------------------------------------------- printing

  /** A piece of output: bytes of the scratch buffer, or memory the printer does not own. */
  datatype Iovec = InScratch(offset: nat, length: nat) | Foreign(text: bytes)

  ghost predicate Inside(v: Iovec, from: nat, to: nat) {
    v.InScratch? ==> from <= v.offset && v.offset + v.length <= to
  }

  function PieceOf(v: Iovec, scratch: bytes): bytes
    requires v.InScratch? ==> v.offset + v.length <= |scratch|
  {
    match v
    case InScratch(offset, length) => scratch[offset..offset + length]
    case Foreign(text) => text
  }

  ghost predicate AllInside(iovecs: seq<Iovec>, to: nat) {
    forall i :: 0 <= i < |iovecs| ==> Inside(iovecs[i], 0, to)
  }

  /** What a vectored write of the pieces sends. */
  ghost function Gather(iovecs: seq<Iovec>, scratch: bytes): bytes
    requires AllInside(iovecs, |scratch|)
  {
    if iovecs == [] then [] else Gather(iovecs[..|iovecs| - 1], scratch) + PieceOf(iovecs[|iovecs| - 1], scratch)
  }

  /** Bytes behind the pieces do not matter. */
  lemma {:induction false} GatherPrefix(iovecs: seq<Iovec>, a: bytes, b: bytes, n: nat)
    requires n <= |a| && n <= |b| && a[..n] == b[..n] && AllInside(iovecs, n)
    ensures Gather(iovecs, a) == Gather(iovecs, b)
  {
    if iovecs != [] {
      var v := iovecs[|iovecs| - 1];
      GatherPrefix(iovecs[..|iovecs| - 1], a, b, n);
      assert Inside(v, 0, n);
      PiecePrefix(v, a, b, n);
    }
  }

  lemma PiecePrefix(v: Iovec, a: bytes, b: bytes, n: nat)
    requires n <= |a| && n <= |b| && a[..n] == b[..n] && Inside(v, 0, n)
    ensures PieceOf(v, a) == PieceOf(v, b)
  {
    if v.InScratch? {
      assert a[v.offset..v.offset + v.length] == a[..n][v.offset..v.offset + v.length];
      assert b[v.offset..v.offset + v.length] == b[..n][v.offset..v.offset + v.length];
    }
  }

  lemma GatherOne(iovecs: seq<Iovec>, v: Iovec, scratch: bytes)
    requires AllInside(iovecs, |scratch|) && Inside(v, 0, |scratch|)
    ensures AllInside(iovecs + [v], |scratch|)
    ensures Gather(iovecs + [v], scratch) == Gather(iovecs, scratch) + PieceOf(v, scratch)
  {
    assert (iovecs + [v])[..|iovecs|] == iovecs;
  }

  /** Writes a number and a line end at `at`. */
  method IntToChars(v: int, sink: array<byte>, at: nat) returns (length: nat)
    requires at + |IntText(v)| + 2 <= sink.Length && at + 13 <= sink.Length
    modifies sink
    ensures length == |IntText(v)| + 2
    ensures sink[..at] == old(sink[..at]) && sink[at..at + length] == IntText(v) + CRLF
  {
    var text := IntText(v);
    for i := 0 to |text|
      invariant sink[..at] == old(sink[..at])
      invariant sink[at..at + i] == text[..i]
    {
      sink[at + i] := text[i];
    }
    assert sink[at..at + |text|] == text;
    sink[at + |text|] := CR;
    sink[at + |text| + 1] := LF;
    length := |text| + 2;
    assert sink[at..at + length] == sink[at..at + |text|] + CRLF;
  }

  /** The three pieces of a string: its length line, its bytes, and again the end of the length line. */
  lemma ThreePieces(iovecs: seq<Iovec>, before: bytes, scratch: bytes, at: nat, line: bytes, text: bytes)
    requires |before| == |scratch| && at + |line| + 3 <= |scratch| && scratch[..at] == before[..at]
    requires AllInside(iovecs, at)
    requires scratch[at..at + |line| + 3] == [DOLLAR] + line + CRLF
    ensures var out := iovecs + [InScratch(at, |line| + 3)] + [Foreign(text)] + [InScratch(at + |line| + 1, 2)];
            && AllInside(out, at + |line| + 3)
            && Gather(out, scratch) == Gather(iovecs, before) + ([DOLLAR] + line + CRLF + text + CRLF)
  {
    hide Gather;
    var n := |line| + 3;
    var a, b, c := InScratch(at, n), Foreign(text), InScratch(at + n - 2, 2);
    GatherPrefix(iovecs, before, scratch, at);
    GatherOne(iovecs, a, scratch);
    GatherOne(iovecs + [a], b, scratch);
    GatherOne(iovecs + [a] + [b], c, scratch);
    assert scratch[at + n - 2..at + n] == scratch[at..at + n][n - 2..] == CRLF;
    Regroup(Gather(iovecs, before), [DOLLAR] + line + CRLF, text, CRLF);
  }

  lemma Regroup(a: bytes, b: bytes, c: bytes, d: bytes)
    ensures a + b + c + d == a + (b + c + d)
  {
  }

  /** The pieces of one string, using the scratch buffer from `at`. */
  method StrToIovecs(str: Option<bytes>, sink: array<byte>, at: nat, iovecs: seq<Iovec>)
      returns (used: nat, out: seq<Iovec>)
    requires at + 14 <= sink.Length && AllInside(iovecs, at)
    modifies sink
    ensures used <= 14 && sink[..at] == old(sink[..at])
    ensures AllInside(out, at + used)
    ensures Gather(out, sink[..]) == old(Gather(iovecs, sink[..])) + EncodeBulk(str)
    ensures str.None? ==> used == 0
  {
    hide Gather;
    hide IntText;
    if str.None? {
      out, used := iovecs + [Foreign(NIL_TEXT)], 0;
      GatherOne(iovecs, Foreign(NIL_TEXT), sink[..]);
      return;
    }
    ghost var before := sink[..];
    var length := AsInt32(|str.value|);
    Int32TextShort(length);
    sink[at] := DOLLAR;
    var offset := IntToChars(length, sink, at + 1);
    offset := offset + 1;
    Marked(before, sink[..], at, IntText(length) + CRLF);
    ThreePieces(iovecs, before, sink[..], at, IntText(length), str.value);
    out := iovecs + [InScratch(at, offset)] + [Foreign(str.value)] + [InScratch(at + offset - 2, 2)];
    used := offset;
  }

  lemma Marked(before: bytes, scratch: bytes, at: nat, rest: bytes)
    requires |before| == |scratch| && at + 1 + |rest| <= |scratch|
    requires scratch[..at + 1] == before[at := DOLLAR][..at + 1] && scratch[at + 1..at + 1 + |rest|] == rest
    ensures scratch[..at] == before[..at]
    ensures scratch[at..at + 1 + |rest|] == [DOLLAR] + rest
  {
    assert scratch[..at] == scratch[..at + 1][..at];
    assert before[..at] == before[at := DOLLAR][..at + 1][..at];
    assert scratch[at] == scratch[..at + 1][at] == DOLLAR;
  }

  lemma {:induction false} EncodeSnoc(strings: seq<Option<bytes>>, i: nat)
    requires i < |strings|
    ensures EncodeBulks(strings[..i + 1]) == EncodeBulks(strings[..i]) + EncodeBulk(strings[i])
    decreases |strings|
  {
    hide EncodeBulk;
    if i == 0 {
      assert strings[..0] == [] && strings[..1][1..] == [] && strings[..1][0] == strings[0];
    } else {
      EncodeSnoc(strings[1..], i - 1);
      assert strings[..i][1..] == strings[1..][..i - 1] && strings[..i + 1][1..] == strings[1..][..i];
    }
  }

  /** The pieces of an array reply. The scratch buffer has 32 bytes per string and never fewer than the 13
      that the number writer asks for behind the star; no write touches a byte an earlier piece shows. */
  method ResultToIovecs(strings: seq<Option<bytes>>, sink: array<byte>) returns (iovecs: seq<Iovec>)
    requires sink.Length >= |strings| * 32 && sink.Length >= 14
    modifies sink
    ensures AllInside(iovecs, sink.Length)
    ensures Gather(iovecs, sink[..]) == Encode(strings)
  {
    hide Digits;
    hide Gather;
    hide EncodeBulk;
    hide EncodeHeader;
    var count := |strings|;
    CountShort(count);
    assert count >= 1 ==> |Digits(count)| + 3 + 14 * count <= 32 * count;
    var cursor;
    cursor, iovecs := WriteHeader(count, sink);
    assert strings[..0] == [];
    for i := 0 to count
      invariant 0 <= cursor <= |Digits(count)| + 3 + 14 * i && cursor <= sink.Length && AllInside(iovecs, cursor)
      invariant Gather(iovecs, sink[..]) == EncodeHeader(count) + EncodeBulks(strings[..i])
    {
      var used;
      used, iovecs := StrToIovecs(strings[i], sink, cursor, iovecs);
      cursor := cursor + used;
      EncodeSnoc(strings, i);
      Regroup3(EncodeHeader(count), EncodeBulks(strings[..i]), EncodeBulk(strings[i]));
    }
    assert strings[..count] == strings;
  }

  method WriteHeader(count: nat, sink: array<byte>) returns (cursor: nat, iovecs: seq<Iovec>)
    requires |Digits(count)| + 3 <= sink.Length && 14 <= sink.Length
    modifies sink
    ensures cursor == |Digits(count)| + 3 && AllInside(iovecs, cursor)
    ensures Gather(iovecs, sink[..]) == EncodeHeader(count)
  {
    hide Digits;
    sink[0] := STAR;
    cursor := IntToChars(count, sink, 1);
    cursor := cursor + 1;
    iovecs := [InScratch(0, cursor)];
    assert sink[..1] == [STAR] && sink[..cursor] == sink[..1] + sink[1..cursor];
    GatherOne([], iovecs[0], sink[..]);
    assert [] + iovecs == iovecs && sink[..][0..cursor] == sink[..cursor];
  }

  lemma Regroup3(a: bytes, b: bytes, c: bytes)
    ensures a + b + c == a + (b + c)
  {
  }

  lemma CountShort(n: nat)
    ensures |Digits(n)| <= if n == 0 then 1 else n
  {
    if n >= 1 {
      DigitsLinear(n);
    }
  }
}
