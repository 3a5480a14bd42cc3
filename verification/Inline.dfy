/** Inline requests: one line of words. */
module InlineRequests {
  import opened Collections
  import opened Protocol
  import opened RequestParser

  const MAX_INLINE: nat := 1024 * 16

  predicate IsSpace(b: byte) {
    b == 32 || 9 <= b <= 13
  }

  datatype Range = Range(from: nat, to: nat)

  predicate Covers(ranges: seq<Range>, i: nat) {
    exists k :: 0 <= k < |ranges| && ranges[k].from <= i < ranges[k].to
  }

  /** `ranges` are the words of `line` at or after `from`: runs without a space, apart from each other, in
      order, that leave out nothing but spaces. */
  ghost predicate Words(line: bytes, from: nat, ranges: seq<Range>) {
    && (forall k :: 0 <= k < |ranges| ==> from <= ranges[k].from < ranges[k].to <= |line|)
    && (forall k, i :: 0 <= k < |ranges| && ranges[k].from <= i < ranges[k].to <= |line| ==> !IsSpace(line[i]))
    && (forall j, k :: 0 <= j < k < |ranges| ==> ranges[j].to < ranges[k].from)
    && (forall i :: from <= i < |line| && !IsSpace(line[i]) ==> Covers(ranges, i))
  }

  /** The first word starts at the first character that is no space and ends before the next space. */
  lemma FirstWord(line: bytes, from: nat, ranges: seq<Range>)
    requires Words(line, from, ranges) && ranges != []
    ensures var r := ranges[0];
            && !IsSpace(line[r.from]) && (forall i :: from <= i < r.from ==> IsSpace(line[i]))
            && (forall i :: r.from <= i < r.to ==> !IsSpace(line[i])) && (r.to < |line| ==> IsSpace(line[r.to]))
  {
    var r := ranges[0];
    assert forall i :: from <= i < r.from ==> !Covers(ranges, i);
    assert !Covers(ranges, r.to);
  }

  lemma OtherWords(line: bytes, from: nat, ranges: seq<Range>)
    requires Words(line, from, ranges) && ranges != []
    ensures Words(line, ranges[0].to, ranges[1..])
  {
    var r, rest := ranges[0], ranges[1..];
    forall i | r.to <= i < |line| && !IsSpace(line[i]) ensures Covers(rest, i) {
      assert Covers(ranges, i);
      var k :| 0 <= k < |ranges| && ranges[k].from <= i < ranges[k].to;
      assert rest[k - 1] == ranges[k];
    }
  }

  /** A line has one division into words. */
  lemma {:induction false} OneDivision(line: bytes, from: nat, a: seq<Range>, b: seq<Range>)
    requires Words(line, from, a) && Words(line, from, b)
    ensures a == b
    decreases |a|
  {
    hide Words;
    if b != [] {
      SameFirst(line, from, b, a);
    }
    if a != [] {
      SameFirst(line, from, a, b);
      OtherWords(line, from, a);
      OtherWords(line, from, b);
      OneDivision(line, a[0].to, a[1..], b[1..]);
      assert a == [a[0]] + a[1..] && b == [b[0]] + b[1..];
    }
  }

  lemma SameFirst(line: bytes, from: nat, a: seq<Range>, b: seq<Range>)
    requires Words(line, from, a) && Words(line, from, b) && a != []
    ensures b != [] && a[0] == b[0]
  {
    FirstWord(line, from, a);
    assert Covers(b, a[0].from);
    FirstWord(line, from, b);
  }

  // ---------------------------------------------------------------- lines made of words

  /** The blank, and the five control characters from the tab to the carriage return. */
  const BLANKS: set<byte> := {9, 10, 11, 12, 13, 32}

  predicate IsGap(gap: bytes) {
    forall i :: 0 <= i < |gap| ==> gap[i] in BLANKS
  }

  predicate IsWord(word: bytes) {
    word != [] && forall i :: 0 <= i < |word| ==> word[i] !in BLANKS
  }

  /** Words, with blanks between any two of them and perhaps before the first and after the last. */
  predicate Spaced(gaps: seq<bytes>, words: seq<bytes>) {
    && |gaps| == |words| + 1
    && (forall k :: 0 <= k < |gaps| ==> IsGap(gaps[k]) && (0 < k < |words| ==> gaps[k] != []))
    && (forall k :: 0 <= k < |words| ==> IsWord(words[k]))
  }

  /** The first gap, then each word with the gap behind it. */
  function LineOf(gaps: seq<bytes>, words: seq<bytes>): bytes
    requires |gaps| == |words| + 1
  {
    if words == [] then gaps[0]
    else LineOf(gaps[..|words|], words[..|words| - 1]) + words[|words| - 1] + gaps[|words|]
  }

  /** The bytes that a division shows. */
  ghost predicate Shows(line: bytes, ranges: seq<Range>, words: seq<bytes>) {
    && |ranges| == |words|
    && forall k :: 0 <= k < |ranges| ==>
        ranges[k].from <= ranges[k].to <= |line| && line[ranges[k].from..ranges[k].to] == words[k]
  }

  lemma {:induction false} SkipGap(line: bytes, i: nat, to: nat, ranges: seq<Range>)
    requires i <= to <= |line| && IsGap(line[i..to]) && Words(line[..i], 0, ranges)
    ensures Words(line[..to], 0, ranges)
    decreases |line| - i
  {
    hide Words;
    if i < to {
      assert line[i] == line[i..to][0];
      SkipSpace(line, i, ranges);
      assert line[i + 1..to] == line[i..to][1..];
      SkipGap(line, i + 1, to, ranges);
    }
  }

  /** What a division shows, with a word and a gap behind it. */
  lemma ShowsMore(front: bytes, word: bytes, gap: bytes, ranges: seq<Range>, words: seq<bytes>)
    requires Shows(front, ranges, words)
    ensures Shows(front + word + gap, ranges + [Range(|front|, |front| + |word|)], words + [word])
  {
    var line, more := front + word + gap, ranges + [Range(|front|, |front| + |word|)];
    forall k | 0 <= k < |more|
      ensures more[k].from <= more[k].to <= |line| && line[more[k].from..more[k].to] == (words + [word])[k]
    {
      if k < |ranges| {
        assert line[more[k].from..more[k].to] == front[ranges[k].from..ranges[k].to];
      } else {
        assert line[|front|..|front| + |word|] == word;
      }
    }
  }

  /** A word and a gap behind what was divided before. */
  lemma WordAndGap(front: bytes, word: bytes, gap: bytes, ranges: seq<Range>)
    requires Words(front, 0, ranges) && IsWord(word) && IsGap(gap)
    requires ranges != [] ==> ranges[|ranges| - 1].to < |front|
    ensures Words(front + word + gap, 0, ranges + [Range(|front|, |front| + |word|)])
  {
    hide Words;
    var line, at := front + word + gap, |front|;
    var to := at + |word|;
    assert line[..at] == front && line[to..|line|] == gap && line[..|line|] == line;
    forall j | at <= j < to ensures !IsSpace(line[j]) {
      assert line[j] == word[j - at];
    }
    AddWord(line, at, to, ranges);
    SkipGap(line, to, |line|, ranges + [Range(at, to)]);
  }

  lemma SpacedFront(gaps: seq<bytes>, words: seq<bytes>)
    requires Spaced(gaps, words) && words != []
    ensures var n := |words| - 1;
            && Spaced(gaps[..n + 1], words[..n]) && IsWord(words[n]) && IsGap(gaps[n + 1])
            && (n > 0 ==> gaps[n] != []) && gaps[..n + 1][n] == gaps[n]
            && LineOf(gaps, words) == LineOf(gaps[..n + 1], words[..n]) + words[n] + gaps[n + 1]
            && words == words[..n] + [words[n]]
  {
    hide IsGap;
    hide IsWord;
  }

  lemma {:induction false} Divided(gaps: seq<bytes>, words: seq<bytes>) returns (ranges: seq<Range>)
    requires Spaced(gaps, words)
    ensures Words(LineOf(gaps, words), 0, ranges) && Shows(LineOf(gaps, words), ranges, words)
    ensures ranges != [] ==> ranges[|ranges| - 1].to == |LineOf(gaps, words)| - |gaps[|words|]|
    decreases |words|
  {
    hide Words;
    if words == [] {
      ranges := [];
      var line := gaps[0];
      NoWords(line[..0]);
      assert line[0..|line|] == line;
      SkipGap(line, 0, |line|, []);
      assert line[..|line|] == line;
    } else {
      var n := |words| - 1;
      SpacedFront(gaps, words);
      hide *;
      var before := Divided(gaps[..n + 1], words[..n]);
      var front := LineOf(gaps[..n + 1], words[..n]);
      DividedEnds(front, before, words[..n]);
      WordAndGap(front, words[n], gaps[n + 1], before);
      ShowsMore(front, words[n], gaps[n + 1], before, words[..n]);
      ranges := before + [Range(|front|, |front| + |words[n]|)];
    }
  }

  lemma DividedEnds(line: bytes, ranges: seq<Range>, words: seq<bytes>)
    requires Shows(line, ranges, words)
    ensures |ranges| == |words|
  {
  }

  /** A line made of words is divided into exactly these words. */
  lemma WordsComeBack(gaps: seq<bytes>, words: seq<bytes>, ranges: seq<Range>)
    requires Spaced(gaps, words) && Words(LineOf(gaps, words), 0, ranges)
    ensures Shows(LineOf(gaps, words), ranges, words)
  {
    hide Words;
    hide Shows;
    hide LineOf;
    var divided := Divided(gaps, words);
    OneDivision(LineOf(gaps, words), 0, divided, ranges);
  }

  // ---------------------------------------------------------------- the parser

  method WordEnd(src: bytes, i: nat, crlf: nat) returns (nextSpace: nat)
    requires i < crlf <= |src| && !IsSpace(src[i])
    ensures i < nextSpace <= crlf && forall j :: i <= j < nextSpace ==> !IsSpace(src[j])
    ensures nextSpace < crlf ==> IsSpace(src[nextSpace])
  {
    nextSpace := i + 1;
    while nextSpace < crlf && !IsSpace(src[nextSpace])
      invariant i < nextSpace <= crlf && forall j :: i <= j < nextSpace ==> !IsSpace(src[j])
    {
      nextSpace := nextSpace + 1;
    }
  }

  method SplitLine(src: bytes, crlf: nat) returns (ranges: seq<Range>)
    requires crlf <= |src|
    ensures Words(src[..crlf], 0, ranges)
    ensures forall k :: 0 <= k < |ranges| ==> ranges[k].from <= ranges[k].to
  {
    ghost var line := src[..crlf];
    ranges := [];
    var i := 0;
    hide Words;
    NoWords(line[..0]);
    while i < crlf
      invariant i <= crlf && Words(line[..i], 0, ranges)
      invariant ranges != [] ==> ranges[|ranges| - 1].to <= i
      invariant forall k :: 0 <= k < |ranges| ==> ranges[k].from <= ranges[k].to
      invariant i < crlf && ranges != [] && ranges[|ranges| - 1].to == i ==> IsSpace(src[i])
    {
      if IsSpace(src[i]) {
        SkipSpace(line, i, ranges);
        i := i + 1;
      } else {
        var nextSpace := WordEnd(src, i, crlf);
        AddWord(line, i, nextSpace, ranges);
        ranges := ranges + [Range(i, nextSpace)];
        i := nextSpace;
      }
    }
    assert line[..crlf] == line;
  }

  lemma NoWords(line: bytes)
    requires line == []
    ensures Words(line, 0, [])
  {
  }

  lemma SkipSpace(line: bytes, i: nat, ranges: seq<Range>)
    requires i < |line| && IsSpace(line[i]) && Words(line[..i], 0, ranges)
    ensures Words(line[..i + 1], 0, ranges)
    ensures ranges != [] ==> ranges[|ranges| - 1].to <= i
  {
    assert forall j :: 0 <= j < i ==> line[..i + 1][j] == line[..i][j];
  }

  lemma AddWord(line: bytes, i: nat, to: nat, ranges: seq<Range>)
    requires i < to <= |line| && (forall j :: i <= j < to ==> !IsSpace(line[j])) && Words(line[..i], 0, ranges)
    requires ranges != [] ==> ranges[|ranges| - 1].to < i
    ensures Words(line[..to], 0, ranges + [Range(i, to)])
  {
    var more := ranges + [Range(i, to)];
    assert forall j :: 0 <= j < i ==> line[..to][j] == line[..i][j];
    forall j | 0 <= j < to && !IsSpace(line[..to][j]) ensures Covers(more, j) {
      if j < i {
        assert Covers(ranges, j);
        var k :| 0 <= k < |ranges| && ranges[k].from <= j < ranges[k].to;
        assert more[k] == ranges[k];
      } else {
        assert more[|ranges|] == Range(i, to);
      }
    }
  }

  /** Puts the words, by address, in front of the results. */
  method Record(words: seq<Range>, base: int, views: seq<View>) returns (out: seq<View>)
    requires forall k :: 0 <= k < |words| ==> words[k].from <= words[k].to
    ensures ShownAt(out, base, words)
  {
    out := views;
    for k := 0 to |words|
      invariant k <= |out| && ShownAt(out, base, words[..k])
    {
      var view := View(base + words[k].from, words[k].to - words[k].from);
      out := if |out| == k then out + [view] else out[k := view];
    }
    assert words[..|words|] == words;
  }

  /** What parsing `src`, which lies at `base`, as one line gives: without a line end nothing happens unless
      the limit is reached; with one, the line is consumed and its words are the results. */
  ghost predicate LineResult(src: bytes, base: int, views: seq<View>, st: ParserState, out: seq<View>,
                             ranges: seq<Range>, consumed: int) {
    match FindCrlf(src, 0)
    case None => consumed == 0 && out == views && st == if src == [] || |src| >= MAX_INLINE then Error else Parsing
    case Some(crlf) =>
      && Words(src[..crlf], 0, ranges) && consumed == crlf + 2
      && st == (if ranges == [] then Parsing else Done) && ShownAt(out, base, ranges)
  }

  /** Parses the unread bytes of the buffer as one line. Results overwrite earlier ones. */
  method ParseInline(buffer: Buffer, views: seq<View>)
      returns (st: ParserState, out: seq<View>, ghost ranges: seq<Range>)
    requires buffer.Valid()
    modifies buffer`readIndex
    ensures buffer.Valid()
    ensures LineResult(old(buffer.Source()), buffer.start + old(buffer.readIndex), views, st, out, ranges,
                       buffer.readIndex - old(buffer.readIndex))
  {
    ranges := [];
    var src := buffer.Source();
    if |src| == 0 {
      return Error, views, [];
    }
    var found := FindCrlf(src, 0);
    if found.None? {
      return if |src| >= MAX_INLINE then Error else Parsing, views, [];
    }
    hide Words;
    hide ShownAt;
    var words := SplitLine(src, found.value);
    ranges := words;
    out := Record(words, buffer.start + buffer.readIndex, views);
    buffer.Consume(found.value + 2);
    st := if |words| == 0 then Parsing else Done;
  }

  /** The first results are the words, by address. */
  predicate ShownAt(views: seq<View>, base: int, ranges: seq<Range>) {
    && |ranges| <= |views|
    && forall k :: 0 <= k < |ranges| ==>
        views[k].address == base + ranges[k].from && views[k].length == ranges[k].to - ranges[k].from
  }

  /** One receive: room is made and what is ready, up to the room, is read. */
  method ReceiveSome(buffer: Buffer, stream: bytes, received: nat, ready: nat, elsewhere: int) returns (total: nat)
    requires buffer.Valid() && buffer.readIndex == 0 && received <= |stream| && buffer.Written() == stream[..received]
    modifies buffer
    ensures buffer.Valid() && buffer.readIndex == 0
    ensures (total, |buffer.data|) == Next((received, old(|buffer.data|)), ready, |stream|)
    ensures buffer.Source() == buffer.Written() == stream[..total]
  {
    var _ := buffer.EnsureAvailable(IO_BUFFER_SIZE, |buffer.data| < IO_BUFFER_SIZE, elsewhere);
    var n := Min(ready, Min(|stream| - received, |buffer.data| - buffer.writeIndex));
    buffer.Receive(stream[received..received + n]);
    total := received + n;
    assert stream[..received] + stream[received..total] == stream[..total];
  }

  /** Some receive stops inside the line, which ends after `crlf + 2` bytes, with the size limit reached. */
  ghost predicate StopsInside(size: nat, sizes: seq<nat>, length: nat, crlf: nat) {
    exists k :: 0 < k <= |sizes| && MAX_INLINE <= Total(size, sizes[..k], length) < crlf + 2
  }

  /** The receives bring the whole line and none stops inside it with the size limit reached. */
  ghost predicate Accepts(size: nat, sizes: seq<nat>, length: nat, crlf: nat) {
    Total(size, sizes, length) >= crlf + 2 && !StopsInside(size, sizes, length, crlf)
  }

  /** Receives one line in pieces and parses after each. For a line with a word, ended by the line end at
      `crlf`, the outcome is that of the whole line at once exactly when no receive stops inside the line
      with the size limit reached; otherwise it is an error. */
  method ReceiveLine(buffer: Buffer, views: seq<View>, stream: bytes, crlf: nat, sizes: seq<nat>, moves: seq<int>)
      returns (st: ParserState, out: seq<View>, ghost ranges: seq<Range>)
    requires buffer.Valid() && buffer.readIndex == buffer.writeIndex == 0
    requires FindCrlf(stream, 0) == Some(crlf) && exists i :: 0 <= i < crlf && !IsSpace(stream[i])
    requires |moves| == |sizes| && forall i :: 0 <= i < |sizes| ==> sizes[i] > 0
    modifies buffer
    ensures st == Error <==> StopsInside(old(|buffer.data|), sizes, |stream|, crlf)
    ensures st == Done <==> Accepts(old(|buffer.data|), sizes, |stream|, crlf)
    ensures st == Done ==>
              && buffer.Valid() && buffer.readIndex == crlf + 2
              && Words(stream[..crlf], 0, ranges) && ShownAt(out, buffer.start, ranges)
  {
    hide Words;
    hide ShownAt;
    hide StopsInside;
    hide Next;
    assert crlf + 2 <= |stream|;
    hide FindCrlf;
    st, out, ranges := Init, views, [];
    var received: nat := 0;
    ghost var size := |buffer.data|;
    assert sizes[..|sizes|] == sizes;
    NothingStops(size, sizes[..0], |stream|, crlf);
    for i := 0 to |sizes|
      invariant buffer.Valid() && buffer.readIndex == 0 && received <= |stream|
      invariant buffer.Written() == stream[..received]
      invariant (st == Init || st == Parsing) && received < crlf + 2
      invariant (received, |buffer.data|) == Progress(size, sizes[..i], |stream|)
      invariant !StopsInside(size, sizes[..i], |stream|, crlf)
    {
      received := ReceiveSome(buffer, stream, received, sizes[i], moves[i]);
      assert sizes[..i + 1][..i] == sizes[..i];
      StopsOrNot(size, sizes[..i + 1], |stream|, crlf);
      LineSeen(stream, received, crlf);
      st, out, ranges := ParseInline(buffer, out);
      if received >= crlf + 2 {
        HasWord(stream[..crlf], ranges);
      }
      if st == Error || st == Done {
        DecidedBy(size, sizes, |stream|, crlf, i + 1);
        return;
      }
    }
  }

  lemma NothingStops(size: nat, sizes: seq<nat>, length: nat, crlf: nat)
    requires sizes == []
    ensures !StopsInside(size, sizes, length, crlf)
  {
  }

  lemma StopsOrNot(size: nat, sizes: seq<nat>, length: nat, crlf: nat)
    requires sizes != []
    ensures StopsInside(size, sizes, length, crlf) <==>
              || StopsInside(size, sizes[..|sizes| - 1], length, crlf)
              || MAX_INLINE <= Total(size, sizes, length) < crlf + 2
  {
    hide Progress;
    hide Total;
    var front := sizes[..|sizes| - 1];
    assert sizes[..|sizes|] == sizes;
    assert forall k :: 0 <= k <= |front| ==> front[..k] == sizes[..k];
  }

  /** Once the line is complete or rejected, later receives change nothing. */
  lemma DecidedBy(size: nat, sizes: seq<nat>, length: nat, crlf: nat, n: nat)
    requires 0 < n <= |sizes|
    ensures StopsInside(size, sizes[..n], length, crlf) ==> StopsInside(size, sizes, length, crlf)
    ensures Total(size, sizes[..n], length) >= crlf + 2 ==>
              && Total(size, sizes, length) >= crlf + 2
              && (StopsInside(size, sizes, length, crlf) ==> StopsInside(size, sizes[..n], length, crlf))
  {
    hide Progress;
    hide Total;
    TotalGrows(size, sizes, length, n);
    assert forall k :: 0 <= k <= n ==> sizes[..n][..k] == sizes[..k];
    forall k | n <= k <= |sizes| ensures Total(size, sizes[..n], length) <= Total(size, sizes[..k], length) {
      assert sizes[..k][..n] == sizes[..n];
      TotalGrows(size, sizes[..k], length, n);
    }
  }

  // ---------------------------------------------------------------- where the limit bites

  /** The longest line, with its line end, that a buffer of this size can ever take. */
  function Reach(size: nat): nat {
    var first, later := Grown(size, 0), MAX_INLINE - 1 + IO_BUFFER_SIZE;
    if first < later then later else first
  }

  predicate Positive(sizes: seq<nat>) {
    forall i :: 0 <= i < |sizes| ==> sizes[i] > 0
  }

  /** A line within the limit is accepted however it is cut; a longer one can be rejected; and it can be
      accepted exactly when the buffer can reach its end before the limit is looked at. */
  lemma LimitMatters(size: nat, length: nat, crlf: nat)
    requires crlf + 2 <= length
    ensures crlf + 2 <= MAX_INLINE <==> forall sizes :: Positive(sizes) ==> !StopsInside(size, sizes, length, crlf)
    ensures crlf + 2 <= Reach(size) <==> exists sizes :: Positive(sizes) && Accepts(size, sizes, length, crlf)
  {
    RejectingCut(size, length, crlf);
    AcceptingCut(size, length, crlf);
    forall sizes | crlf + 2 > Reach(size) ensures !Accepts(size, sizes, length, crlf) {
      if !StopsInside(size, sizes, length, crlf) {
        OutOfReach(size, sizes, length, crlf);
      }
    }
  }

  lemma OneReceive(size: nat, ready: nat, length: nat)
    ensures Progress(size, [ready], length) == Next((0, size), ready, length)
  {
    assert [ready][..0] == [];
  }

  lemma RejectingCut(size: nat, length: nat, crlf: nat)
    requires crlf + 2 <= length
    ensures crlf + 2 > MAX_INLINE ==> StopsInside(size, [MAX_INLINE], length, crlf) && Positive([MAX_INLINE])
  {
    OneReceive(size, MAX_INLINE, length);
    assert [MAX_INLINE][..1] == [MAX_INLINE];
  }

  function CutWithin(size: nat, crlf: nat): seq<nat> {
    if crlf + 2 <= Grown(size, 0) then [crlf + 2] else [MAX_INLINE - 1, IO_BUFFER_SIZE]
  }

  lemma AcceptingCut(size: nat, length: nat, crlf: nat)
    requires crlf + 2 <= length
    ensures crlf + 2 <= Reach(size) ==>
              Positive(CutWithin(size, crlf)) && Accepts(size, CutWithin(size, crlf), length, crlf)
  {
    var sizes := CutWithin(size, crlf);
    OneReceive(size, sizes[0], length);
    if |sizes| == 1 {
      assert sizes == [sizes[0]] == sizes[..1];
    } else {
      assert sizes[..2] == sizes && sizes[..1] == [sizes[0]];
    }
  }

  /** Without a stop inside the line, the totals stay below the limit as long as the line is out of reach. */
  lemma {:induction false} OutOfReach(size: nat, sizes: seq<nat>, length: nat, crlf: nat)
    requires crlf + 2 > Reach(size) && !StopsInside(size, sizes, length, crlf)
    ensures Total(size, sizes, length) < MAX_INLINE
    ensures sizes != [] ==> IO_BUFFER_SIZE <= Progress(size, sizes, length).1 <= Reach(size)
    decreases |sizes|
  {
    hide StopsInside;
    if sizes != [] {
      StopsOrNot(size, sizes, length, crlf);
      OutOfReach(size, sizes[..|sizes| - 1], length, crlf);
    }
  }

  /** The same line, one byte over the limit, is rejected or accepted by where the receives stop. */
  method CutDecides(stream: bytes, crlf: nat, views: seq<View>) returns (short: ParserState, long: ParserState)
    requires FindCrlf(stream, 0) == Some(crlf) && exists i :: 0 <= i < crlf && !IsSpace(stream[i])
    requires MAX_INLINE < crlf + 2 < MAX_INLINE + IO_BUFFER_SIZE
    ensures short == Error && long == Done
  {
    hide StopsInside;
    assert crlf + 2 <= |stream|;
    RejectingCut(IO_BUFFER_SIZE, |stream|, crlf);
    AcceptingCut(IO_BUFFER_SIZE, |stream|, crlf);
    var one := new Buffer(0, IO_BUFFER_SIZE);
    var two := new Buffer(0, IO_BUFFER_SIZE);
    var a, _, _ := ReceiveLine(one, views, stream, crlf, [MAX_INLINE], [0]);
    var b, _, _ := ReceiveLine(two, views, stream, crlf, [MAX_INLINE - 1, IO_BUFFER_SIZE], [0, 0]);
    short, long := a, b;
  }

  lemma HasWord(line: bytes, ranges: seq<Range>)
    requires Words(line, 0, ranges) && exists i :: 0 <= i < |line| && !IsSpace(line[i])
    ensures ranges != []
  {
    var i :| 0 <= i < |line| && !IsSpace(line[i]);
    assert Covers(ranges, i);
  }

  lemma LineSeen(stream: bytes, received: nat, crlf: nat)
    requires FindCrlf(stream, 0) == Some(crlf) && received <= |stream|
    ensures FindCrlf(stream[..received], 0) == if received >= crlf + 2 then Some(crlf) else None
    ensures received >= crlf + 2 ==> stream[..received][..crlf] == stream[..crlf]
  {
    var s := stream[..received];
    if received >= crlf + 2 {
      assert forall j :: 0 <= j < crlf ==> CrlfAt(s, j) == CrlfAt(stream, j);
      FindCrlfIs(s, 0, crlf);
      assert s[..crlf] == stream[..crlf];
    } else {
      forall i | 0 <= i ensures !CrlfAt(s, i) {
        assert CrlfAt(s, i) ==> CrlfAt(stream, i);
      }
    }
  }

  // ---------------------------------------------------------------- which parser runs

  /** The client's choice: the request parser while it is in progress or when the first unread byte is a
      star, the line parser otherwise. */
  method Dispatch(parser: MultiBulkParser, views: seq<View>)
      returns (st: ParserState, out: seq<View>, ghost ranges: seq<Range>)
    requires parser.Valid(views) && parser.buffer.Source() != []
    modifies parser, parser.buffer`readIndex
    ensures parser.Valid(out)
    ensures if old(parser.state == Parsing || parser.buffer.Source()[0] == STAR)
            then st == parser.state && parser.origin <= parser.buffer.readIndex && parser.Reports(out)
            else && parser.state == old(parser.state)
                 && LineResult(old(parser.buffer.Source()), parser.buffer.start + old(parser.buffer.readIndex), views,
                               st, out, ranges, parser.buffer.readIndex - old(parser.buffer.readIndex))
  {
    hide LineResult;
    hide ShowAll;
    ranges := [];
    if parser.state == Parsing || parser.buffer.Source()[0] == STAR {
      st, out := parser.Parse(views);
    } else {
      st, out, ranges := ParseInline(parser.buffer, views);
    }
  }

  /** A line arrives in an empty buffer with room for it. It is answered if it has a word; otherwise it is
      consumed and the client goes back to receiving. What came after the line stays unread. */
  method FeedLine(parser: MultiBulkParser, views: seq<View>, chunk: bytes, crlf: nat)
      returns (st: ParserState, out: seq<View>)
    requires parser.Valid(views) && parser.state == Init && parser.buffer.Source() == []
    requires parser.buffer.writeIndex + |chunk| <= |parser.buffer.data|
    requires FindCrlf(chunk, 0) == Some(crlf) && chunk[0] != STAR
    modifies parser, parser.buffer
    ensures parser.Valid(out) && parser.state == Init && parser.buffer.Source() == chunk[crlf + 2..]
    ensures |parser.buffer.data| == old(|parser.buffer.data|)
    ensures parser.buffer.writeIndex == old(parser.buffer.writeIndex) + |chunk|
    ensures st == if exists i :: 0 <= i < crlf && !IsSpace(chunk[i]) then Done else Parsing
  {
    hide Words;
    hide ShownAt;
    var buffer := parser.buffer;
    buffer.Receive(chunk);
    assert buffer.Source() == chunk;
    hide FindCrlf;
    ghost var ranges: seq<Range>;
    st, out, ranges := Dispatch(parser, views);
    WordOrNot(chunk, crlf, ranges);
  }

  lemma WordOrNot(src: bytes, crlf: nat, ranges: seq<Range>)
    requires crlf <= |src| && Words(src[..crlf], 0, ranges)
    ensures ranges != [] <==> exists i :: 0 <= i < crlf && !IsSpace(src[i])
  {
    if ranges != [] {
      FirstWord(src[..crlf], 0, ranges);
    }
    if i :| 0 <= i < crlf && !IsSpace(src[i]) {
      assert src[..crlf][i] == src[i];
      HasWord(src[..crlf], ranges);
    }
  }

  /** A line that arrives together with a blank line before it is left waiting for the next receive; when it
      arrives after the blank line, it is answered. */
  method BlankLineWaits(line: bytes, crlf: nat) returns (together: ParserState, apart: ParserState)
    requires FindCrlf(line, 0) == Some(crlf) && exists i :: 0 <= i < crlf && !IsSpace(line[i])
    requires line[0] != STAR && |line| + 2 <= IO_BUFFER_SIZE
    ensures together == Parsing && apart == Done
  {
    var blank: bytes := [CR, LF];
    BlankLine(blank, line);
    hide FindCrlf;
    var first := new Buffer(0, IO_BUFFER_SIZE);
    var one := new MultiBulkParser(first);
    var out: seq<View>;
    together, out := FeedLine(one, [], blank + line, 0);
    var second := new Buffer(0, IO_BUFFER_SIZE);
    var two := new MultiBulkParser(second);
    apart, out := FeedLine(two, [], blank, 0);
    apart, out := FeedLine(two, out, line, crlf);
  }

  lemma BlankLine(blank: bytes, line: bytes)
    requires blank == [CR, LF]
    ensures FindCrlf(blank + line, 0) == Some(0) && FindCrlf(blank, 0) == Some(0)
  {
    assert CrlfAt(blank + line, 0);
  }
}
