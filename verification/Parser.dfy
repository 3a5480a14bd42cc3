/** The resumable request parser over a buffer that grows and moves. */
module RequestParser {
  import opened Collections
  import opened Protocol

  // ---------------------------------------------------------------- the query buffer

  const RESIZE_THRESHOLD: nat := 1024 * 1024

  /** A greedy size adds as much again as is needed, up to the threshold. */
  function MakeRoomFor(expected: nat, greedy: bool): (size: nat)
    ensures size == expected + if greedy then Min(expected, RESIZE_THRESHOLD) else 0
  {
    if !greedy then expected
    else if expected < RESIZE_THRESHOLD then expected * 2
    else expected + RESIZE_THRESHOLD
  }

  /** The size of a buffer after room for `needed` bytes was made. */
  function SizeFor(size: nat, needed: nat, greedy: bool): (r: nat)
    ensures r >= size && r >= needed
  {
    if size >= needed then size else MakeRoomFor(needed, greedy)
  }

  /** A piece of memory, by address. */
  datatype View = View(address: int, length: nat)

  class Buffer {
    /** Where the first byte of `data` lies in memory. */
    var start: int
    var data: bytes
    var readIndex: nat
    var writeIndex: nat

    ghost predicate Valid()
      reads this
    {
      readIndex <= writeIndex <= |data|
    }

    constructor (start: int, capacity: nat)
      ensures Valid() && Written() == [] && readIndex == 0 && |data| == capacity && this.start == start
    {
      this.start := start;
      data := seq(capacity, _ => 0);
      readIndex, writeIndex := 0, 0;
    }

    /** All bytes received since the last reset. */
    ghost function Written(): bytes
      requires Valid()
      reads this
    {
      data[..writeIndex]
    }

    function Source(): (src: bytes)
      requires Valid()
      reads this
    {
      data[readIndex..writeIndex]
    }

    /** Makes room for `n` more bytes. If the memory moves, to `elsewhere`, returns where it was. */
    method EnsureAvailable(n: nat, greedy: bool, elsewhere: int) returns (original: Option<int>)
      requires Valid()
      modifies this`data, this`start
      ensures Valid() && |data| == SizeFor(old(|data|), n + writeIndex, greedy)
      ensures Written() == old(Written())
      ensures forall i, j :: 0 <= i <= j <= writeIndex ==> data[i..j] == old(data)[i..j]
      ensures original.None? ==> start == old(start)
      ensures original.Some? ==> original.value == old(start) && start == elsewhere
    {
      var needed := n + writeIndex;
      if |data| >= needed {
        return None;
      }
      original := Some(start);
      var size := MakeRoomFor(needed, greedy);
      data := data + seq(size - |data|, _ => 0);
      start := elsewhere;
    }

    /** The effect of a receive: `chunk` lands in the sink and is produced. */
    method Receive(chunk: bytes)
      requires Valid() && writeIndex + |chunk| <= |data|
      modifies this`data, this`writeIndex
      ensures Valid() && |data| == old(|data|) && Written() == old(Written()) + chunk
      ensures writeIndex == old(writeIndex) + |chunk|
      ensures forall i, j :: 0 <= i <= j <= old(writeIndex) ==> data[i..j] == old(data)[i..j]
    {
      data := data[..writeIndex] + chunk + data[writeIndex + |chunk|..];
      writeIndex := writeIndex + |chunk|;
    }

    method Consume(n: nat)
      requires Valid() && readIndex + n <= writeIndex
      modifies this`readIndex
      ensures Valid() && readIndex == old(readIndex) + n
    {
      readIndex := readIndex + n;
    }
  }

  /** `view` lies in the first `|written|` bytes of memory starting at `start` and shows `text`. */
  ghost predicate Shows(start: int, written: bytes, view: View, text: bytes) {
    && start <= view.address && view.address + view.length <= start + |written|
    && written[view.address - start..view.address - start + view.length] == text
  }

  ghost predicate ShowAll(start: int, written: bytes, views: seq<View>, texts: seq<bytes>) {
    && |texts| <= |views|
    && forall i :: 0 <= i < |texts| ==> Shows(start, written, views[i], texts[i])
  }

  // ---------------------------------------------------------------- where parsing can resume

  /** With `consumed` eaten, `left` bulk strings to come and `args` read, any continuation is decided
      as if parsing had started over. */
  ghost predicate Resumes(consumed: bytes, left: nat, args: seq<bytes>) {
    forall more: bytes :: Decode(consumed + more) == ReadBulks(consumed + more, |consumed|, left, args)
  }

  lemma ResumeAfterHeader(consumed: bytes, count: nat)
    requires ReadHeader(consumed) == HeaderGot(count, |consumed|)
    ensures Resumes(consumed, count, [])
  {
    forall more: bytes ensures Decode(consumed + more) == ReadBulks(consumed + more, |consumed|, count, []) {
      ReadHeaderStable(consumed, more);
    }
  }

  lemma ResumeAfterBulk(consumed: bytes, piece: bytes, left: nat, args: seq<bytes>, text: bytes)
    requires Resumes(consumed, left, args) && left > 0
    requires ReadBulk(consumed + piece, |consumed|) == BulkGot(text, |consumed| + |piece|)
    ensures Resumes(consumed + piece, left - 1, args + [text])
  {
    hide Decode;
    hide ReadBulk;
    forall more: bytes
      ensures Decode(consumed + piece + more) ==
                ReadBulks(consumed + piece + more, |consumed| + |piece|, left - 1, args + [text])
    {
      ReadBulkStable(consumed + piece, more, |consumed|);
      assert consumed + (piece + more) == consumed + piece + more;
    }
  }

  // ---------------------------------------------------------------- reading in the middle of a buffer

  lemma FindCrlfShift(p: bytes, s: bytes, from: nat)
    ensures FindCrlf(p + s, |p| + from) ==
            match FindCrlf(s, from) case None => None case Some(i) => Some(|p| + i)
  {
    var t := p + s;
    var r := FindCrlf(s, from);
    if r.Some? {
      assert CrlfAt(t, |p| + r.value);
      forall j | |p| + from <= j < |p| + r.value ensures !CrlfAt(t, j) {
        assert !CrlfAt(s, j - |p|);
      }
      FindCrlfIs(t, |p| + from, |p| + r.value);
    } else {
      forall j | |p| + from <= j ensures !CrlfAt(t, j) {
        assert !CrlfAt(s, j - |p|);
      }
    }
  }

  function ShiftBulk(n: nat, b: Bulk): Bulk {
    match b case BulkGot(text, next) => BulkGot(text, n + next) case _ => b
  }

  lemma ReadBodyShift(p: bytes, s: bytes, body: nat, length: nat)
    ensures ReadBody(p + s, |p| + body, length) == ShiftBulk(|p|, ReadBody(s, body, length))
  {
    if body + length + 2 <= |s| {
      assert (p + s)[|p| + body..|p| + body + length] == s[body..body + length];
    }
  }

  lemma ReadBulkShift(p: bytes, s: bytes, at: nat)
    requires at <= |s|
    ensures ReadBulk(p + s, |p| + at) == ShiftBulk(|p|, ReadBulk(s, at))
  {
    hide FromChars;
    hide ReadBody;
    hide FindCrlf;
    var t := p + s;
    FindCrlfShift(p, s, at);
    var r := FindCrlf(s, at);
    if at < |s| && s[at] == DOLLAR && r.Some? && r.value != at + 1 {
      var crlf := r.value;
      assert t[|p| + at + 1..|p| + crlf] == s[at + 1..crlf];
      var length := FromChars(s[at + 1..crlf]);
      if length.Some? && length.value >= 0 {
        ReadBodyShift(p, s, crlf + 2, length.value);
      }
    }
  }

  // ---------------------------------------------------------------- the parser

  datatype ParserState = Init | Error | Parsing | Done

  class MultiBulkParser {
    const buffer: Buffer
    var state: ParserState
    var args: nat
    var cur: nat

    /** Where the request starts in the buffer, and the arguments read so far. */
    ghost var origin: nat
    ghost var texts: seq<bytes>

    ghost predicate Valid(views: seq<View>)
      reads this, buffer
    {
      && buffer.Valid()
      && (state == Init ==> cur == 0 && texts == [])
      && (state == Parsing ==> InProgress() && cur < args && ShowAll(buffer.start, buffer.Written(), views, texts))
    }

    ghost predicate InProgress()
      requires buffer.Valid()
      reads this, buffer
    {
      && origin <= buffer.readIndex
      && cur <= args && |texts| == cur
      && Resumes(buffer.data[origin..buffer.readIndex], args - cur, texts)
    }

    /** The bytes of the request received so far. */
    ghost function Received(): bytes
      requires buffer.Valid() && origin <= buffer.writeIndex
      reads this, buffer
    {
      buffer.data[origin..buffer.writeIndex]
    }

    constructor (buffer: Buffer)
      requires buffer.Valid()
      ensures this.buffer == buffer && state == Init && Valid([])
    {
      this.buffer := buffer;
      state, args, cur := Init, 0, 0;
      origin, texts := buffer.readIndex, [];
    }

    method Reset()
      modifies this
      ensures state == Init && args == 0 && cur == 0 && texts == [] && origin == old(origin)
    {
      state, args, cur := Init, 0, 0;
      texts := [];
    }

    /** Reads the header of a request. Returns how many bytes it took, 0 if it is incomplete or bad. */
    method ParseArgNum(src: bytes) returns (cursor: nat)
      requires buffer.Valid() && state == Init && cur == 0 && texts == [] && origin == buffer.readIndex
      requires src == buffer.Source() && src != []
      modifies this`state, this`args, buffer`readIndex
      ensures buffer.Valid() && origin <= buffer.readIndex == origin + cursor
      ensures match ReadHeader(src)
              case HeaderMore => cursor == 0 && state == Init
              case HeaderBad => cursor == 0 && state == Error
              case HeaderGot(count, next) => cursor == next > 0 && state == Parsing && args == count
    {
      cursor := 0;
      if src[0] != STAR {
        state := Error;
        return;
      }
      var crlf := FindCrlf(src, 1);
      if crlf.None? {
        return;
      }
      var count := FromChars(src[1..crlf.value]);
      if count.None? || count.value < 0 {
        state := Error;
        return;
      }
      args := count.value;
      state := Parsing;
      cursor := crlf.value + 2;
      buffer.Consume(cursor);
    }

    /** Records the bulk string that ends at `next` of the unread bytes and consumes it. */
    method TakeBulk(src: bytes, base: nat, cursor: nat, views: seq<View>, text: bytes, next: nat)
        returns (out: seq<View>)
      requires buffer.Valid() && InProgress() && cur < args && ShowAll(buffer.start, buffer.Written(), views, texts)
      requires base + cursor == buffer.readIndex && base + |src| == buffer.writeIndex
      requires src == buffer.data[base..buffer.writeIndex]
      requires cursor <= |src| && ReadBulk(src, cursor) == BulkGot(text, next)
      modifies this`cur, this`texts, buffer`readIndex
      ensures buffer.Valid() && InProgress() && ShowAll(buffer.start, buffer.Written(), out, texts)
      ensures cur == old(cur) + 1 && buffer.readIndex == base + next && cursor < next <= |src|
    {
      hide Resumes;
      hide Decode;
      hide ReadBulk;
      hide ShowAll;
      BulkConsumed(buffer.data[origin..buffer.readIndex], src, cursor, args - cur, texts, text, next);
      Rejoin(buffer.data, origin, base, buffer.writeIndex, cursor, next);
      var view := View(buffer.start + base + next - 2 - |text|, |text|);
      Resliced(buffer.data, base, buffer.writeIndex, next - 2 - |text|, next - 2);
      ShowMore(buffer.start, buffer.Written(), views, texts, view, text);
      out := if |views| <= cur then views + [view] else views[cur := view];
      cur := cur + 1;
      texts := texts + [text];
      buffer.Consume(next - cursor);
    }

    /** Reads the bulk strings of the request from the unread bytes. */
    method ParseBulks(src: bytes, start: nat, views: seq<View>) returns (st: ParserState, out: seq<View>)
      requires buffer.Valid() && state == Parsing && InProgress()
      requires ShowAll(buffer.start, buffer.Written(), views, texts)
      requires start <= |src| && start <= buffer.readIndex
      requires src == buffer.data[buffer.readIndex - start..buffer.writeIndex]
      modifies this`state, this`cur, this`texts, buffer`readIndex
      ensures Valid(out) && st == state != Init && origin <= buffer.readIndex
      ensures Reports(out)
    {
      hide Resumes;
      hide Decode;
      hide ReadBulk;
      hide ShowAll;
      out := views;
      var base := buffer.readIndex - start;
      var cursor := start;
      while cur < args
        invariant buffer.Valid() && state == Parsing && InProgress()
        invariant ShowAll(buffer.start, buffer.Written(), out, texts)
        invariant 0 <= cursor <= |src| && buffer.readIndex == base + cursor
        decreases args - cur
      {
        ghost var consumed := buffer.data[origin..buffer.readIndex];
        Rejoin(buffer.data, origin, base, buffer.writeIndex, cursor, |src|);
        BulkDecides(consumed, src, cursor, args - cur, texts);
        match ReadBulk(src, cursor)
        case BulkMore =>
          return state, out;
        case BulkBad =>
          state := Error;
          return state, out;
        case BulkGot(text, next) =>
          out := TakeBulk(src, base, cursor, out, text, next);
          cursor := next;
      }
      Rejoin(buffer.data, origin, base, buffer.writeIndex, cursor, |src|);
      AllRead(buffer.data[origin..buffer.readIndex], src[cursor..], texts);
      state := Done;
      st := Done;
    }

    /** The parser's state says what the bytes received so far decide. */
    ghost predicate Reports(views: seq<View>)
      requires buffer.Valid() && origin <= buffer.readIndex
      reads this, buffer
    {
      match state
      case Done =>
        && Decode(Received()) == Request(texts, buffer.readIndex - origin)
        && |texts| == args && ShowAll(buffer.start, buffer.Written(), views, texts)
      case Error => Decode(Received()) == Malformed
      case _ => Decode(Received()) == NeedMore
    }

    /** Continues parsing. `views` are the arguments found by earlier calls (possibly more, left over
        from earlier requests). */
    method Parse(views: seq<View>) returns (st: ParserState, out: seq<View>)
      requires Valid(views)
      modifies this, buffer`readIndex
      ensures Valid(out) && st == state && origin <= buffer.readIndex
      ensures origin == if old(state) == Parsing then old(origin) else old(buffer.readIndex)
      ensures st == Init ==> buffer.readIndex == origin
      ensures Reports(out)
    {
      if state == Error || state == Done {
        Reset();
      }
      if state == Init {
        origin := buffer.readIndex;
      }
      out := views;
      var src := buffer.Source();
      if src == [] {
        AtEnd();
        return state, out;
      }
      var cursor := 0;
      if state == Init {
        cursor := ParseArgNum(src);
        if cursor == 0 {
          return state, out;
        }
        HeaderDone(src, cursor);
      }
      st, out := ParseBulks(src, cursor, out);
    }

    /** The buffer moved from `original` to `updated`: the views found so far follow it. */
    method BufferUpdate(original: int, updated: int, views: seq<View>) returns (out: seq<View>)
      requires cur == |texts|
      requires exists written :: ShowAll(original, written, views, texts)
      ensures forall written :: ShowAll(original, written, views, texts) ==> ShowAll(updated, written, out, texts)
    {
      out := views;
      for i := 0 to cur
        invariant |out| == |views| >= cur
        invariant forall k :: i <= k < |out| ==> out[k] == views[k]
        invariant forall k :: 0 <= k < i ==> out[k] == View(views[k].address - original + updated, views[k].length)
      {
        var offset := out[i].address - original;
        out := out[i := View(updated + offset, out[i].length)];
      }
    }

    lemma HeaderDone(src: bytes, cursor: nat)
      requires buffer.Valid() && cur == 0 && texts == [] && origin + cursor == buffer.readIndex
      requires src == buffer.data[origin..buffer.writeIndex]
      requires ReadHeader(src) == HeaderGot(args, cursor)
      ensures InProgress()
    {
      hide Resumes;
      hide ReadHeader;
      assert buffer.data[origin..buffer.readIndex] == src[..cursor];
      HeaderPrefix(src, args, cursor);
      ResumeAfterHeader(src[..cursor], args);
    }

    lemma AtEnd()
      requires buffer.Valid() && origin <= buffer.readIndex == buffer.writeIndex
      requires state == Init ==> origin == buffer.readIndex
      requires state == Parsing ==> InProgress() && cur < args
      requires state == Init || state == Parsing
      ensures Decode(Received()) == NeedMore
    {
      if state == Parsing {
        assert buffer.data[origin..buffer.readIndex] + [] == Received();
      }
    }
  }

  /** The bytes after the header line do not matter to it. */
  lemma HeaderPrefix(s: bytes, count: nat, n: nat)
    requires ReadHeader(s) == HeaderGot(count, n)
    ensures ReadHeader(s[..n]) == HeaderGot(count, n)
  {
    var p := s[..n];
    var crlf := FindCrlf(s, 1).value;
    assert CrlfAt(p, crlf);
    forall j | 1 <= j < crlf ensures !CrlfAt(p, j) {
      assert !CrlfAt(s, j);
    }
    FindCrlfIs(p, 1, crlf);
    assert p[1..crlf] == s[1..crlf];
  }

  /** Reading in the unread bytes is reading in the whole request. */
  lemma BulkInContext(consumed: bytes, src: bytes, cursor: nat)
    requires cursor <= |src|
    ensures ReadBulk(consumed + src[cursor..], |consumed|) ==
            match ReadBulk(src, cursor)
            case BulkGot(text, next) => BulkGot(text, |consumed| + next - cursor)
            case b => b
  {
    hide ReadBulk;
    ReadBulkShift(consumed, src[cursor..], 0);
    ReadBulkShift(src[..cursor], src[cursor..], 0);
    assert src[..cursor] + src[cursor..] == src;
  }

  lemma Rejoin(data: bytes, origin: nat, base: nat, end: nat, cursor: nat, next: nat)
    requires origin <= base + cursor <= base + next <= end <= |data|
    ensures data[origin..base + cursor] + data[base..end][cursor..next] == data[origin..base + next]
    ensures next == end - base ==> data[base..end][cursor..] == data[base..end][cursor..next]
  {
    Resliced(data, base, end, cursor, next);
    assert data[..end][base + cursor..base + next] == data[base + cursor..base + next];
  }

  lemma Resliced(data: bytes, base: nat, end: nat, i: nat, j: nat)
    requires base + i <= base + j <= end <= |data|
    ensures data[..end][base + i..base + j] == data[base..end][i..j]
  {
  }

  /** What the unread bytes decide when a bulk string is next. */
  lemma BulkDecides(consumed: bytes, src: bytes, cursor: nat, left: nat, args: seq<bytes>)
    requires cursor <= |src| && left > 0 && Resumes(consumed, left, args)
    ensures ReadBulk(src, cursor).BulkMore? ==> Decode(consumed + src[cursor..]) == NeedMore
    ensures ReadBulk(src, cursor).BulkBad? ==> Decode(consumed + src[cursor..]) == Malformed
  {
    hide ReadBulk;
    hide Decode;
    BulkInContext(consumed, src, cursor);
  }

  lemma AllRead(consumed: bytes, rest: bytes, args: seq<bytes>)
    requires Resumes(consumed, 0, args)
    ensures Decode(consumed + rest) == Request(args, |consumed|)
  {
    hide Decode;
  }

  lemma ShowMore(start: int, written: bytes, views: seq<View>, texts: seq<bytes>, view: View, text: bytes)
    requires ShowAll(start, written, views, texts) && Shows(start, written, view, text)
    ensures ShowAll(start, written, if |views| <= |texts| then views + [view]
              else views[|texts| := view], texts + [text])
  {
  }

  lemma BulkPrefix(s: bytes, at: nat, text: bytes, next: nat)
    requires at <= |s| && ReadBulk(s, at) == BulkGot(text, next)
    ensures ReadBulk(s[..next], at) == BulkGot(text, next)
  {
    var p := s[..next];
    var crlf := FindCrlf(s, at).value;
    assert CrlfAt(p, crlf);
    forall j | at <= j < crlf ensures !CrlfAt(p, j) {
      assert !CrlfAt(s, j);
    }
    FindCrlfIs(p, at, crlf);
    assert p[at + 1..crlf] == s[at + 1..crlf];
    var length := FromChars(s[at + 1..crlf]).value;
    assert p[crlf + 2..crlf + 2 + length] == s[crlf + 2..crlf + 2 + length];
  }

  lemma BulkText(src: bytes, cursor: nat, text: bytes, next: nat)
    requires cursor <= |src| && ReadBulk(src, cursor) == BulkGot(text, next)
    ensures cursor < next - 2 - |text| && next <= |src| && src[next - 2 - |text|..next - 2] == text
  {
  }

  lemma BulkConsumed(consumed: bytes, src: bytes, cursor: nat, left: nat, args: seq<bytes>, text: bytes, next: nat)
    requires cursor <= |src| && ReadBulk(src, cursor) == BulkGot(text, next)
    requires Resumes(consumed, left, args) && left > 0
    ensures Resumes(consumed + src[cursor..next], left - 1, args + [text])
    ensures cursor < next - 2 - |text| && next <= |src| && src[next - 2 - |text|..next - 2] == text
  {
    hide Resumes;
    hide Decode;
    hide ReadBulk;
    BulkText(src, cursor, text, next);
    BulkInContext(consumed, src, cursor);
    var all := consumed + src[cursor..];
    BulkPrefix(all, |consumed|, text, |consumed| + next - cursor);
    assert all[..|consumed| + next - cursor] == consumed + src[cursor..next];
    ResumeAfterBulk(consumed, src[cursor..next], left, args, text);
  }

  // ---------------------------------------------------------------- receiving one request

  const IO_BUFFER_SIZE: nat := 1024 * 16

  /** The size of the query buffer when the next receive starts, with `received` bytes in it. */
  function Grown(size: nat, received: nat): (r: nat)
    ensures r >= size && r >= received + IO_BUFFER_SIZE
  {
    SizeFor(size, IO_BUFFER_SIZE + received, size < IO_BUFFER_SIZE)
  }

  /** One receive: it brings what is ready, up to the room in the buffer and the end of the stream. */
  function Next(before: (nat, nat), ready: nat, length: nat): (r: (nat, nat))
    requires before.0 <= length
    ensures before.0 <= r.0 <= length
    ensures ready > 0 && before.0 < length ==> r.0 > before.0
  {
    var (total, size) := before;
    var room := Grown(size, total);
    (total + Min(ready, Min(length - total, room - total)), room)
  }

  /** How many bytes of `length` were received, and the buffer size, after the receives `sizes`. */
  function Progress(size: nat, sizes: seq<nat>, length: nat): (r: (nat, nat))
    ensures r.0 <= length
  {
    if sizes == [] then (0, size)
    else
      Next(Progress(size, sizes[..|sizes| - 1], length), sizes[|sizes| - 1], length)
  }

  function Total(size: nat, sizes: seq<nat>, length: nat): (r: nat)
    ensures r <= length
  {
    Progress(size, sizes, length).0
  }

  /** Totals never fall, and as many receives as there are bytes bring them all. */
  lemma {:induction false} TotalGrows(size: nat, sizes: seq<nat>, length: nat, n: nat)
    requires n <= |sizes|
    ensures Total(size, sizes[..n], length) <= Total(size, sizes, length)
    ensures (forall i :: 0 <= i < |sizes| ==> sizes[i] > 0) ==> Total(size, sizes, length) >= Min(length, |sizes|)
    decreases |sizes|
  {
    if n == |sizes| {
      assert sizes[..n] == sizes;
      if sizes != [] {
        TotalGrows(size, sizes[..|sizes| - 1], length, 0);
      }
    } else {
      var front := sizes[..|sizes| - 1];
      TotalGrows(size, front, length, n);
      assert front[..n] == sizes[..n];
    }
  }

  /** Makes room for the next receive; if that moves the buffer, partial results follow. */
  method EnsureBuffer(parser: MultiBulkParser, views: seq<View>, elsewhere: int) returns (out: seq<View>)
    requires parser.Valid(views)
    modifies parser.buffer`data, parser.buffer`start
    ensures parser.Valid(out)
    ensures parser.buffer.Written() == old(parser.buffer.Written())
    ensures |parser.buffer.data| == Grown(old(|parser.buffer.data|), parser.buffer.writeIndex)
  {
    hide Resumes;
    hide ShowAll;
    var buffer := parser.buffer;
    out := views;
    var original := buffer.EnsureAvailable(IO_BUFFER_SIZE, |buffer.data| < IO_BUFFER_SIZE, elsewhere);
    if original.Some? && parser.state == Parsing {
      out := parser.BufferUpdate(original.value, buffer.start, out);
    }
  }

  lemma ShowAllLonger(start: int, written: bytes, more: bytes, views: seq<View>, texts: seq<bytes>)
    requires ShowAll(start, written, views, texts)
    ensures ShowAll(start, written + more, views, texts)
  {
    forall i | 0 <= i < |texts| ensures Shows(start, written + more, views[i], texts[i]) {
      assert Shows(start, written, views[i], texts[i]);
      var at := views[i].address - start;
      assert (written + more)[at..at + views[i].length] == written[at..at + views[i].length];
    }
  }

  /** A receive leaves what has been parsed alone. */
  method ReceiveChunk(parser: MultiBulkParser, ghost views: seq<View>, chunk: bytes)
    requires parser.Valid(views) && parser.buffer.writeIndex + |chunk| <= |parser.buffer.data|
    modifies parser.buffer`data, parser.buffer`writeIndex
    ensures parser.Valid(views)
    ensures parser.buffer.Written() == old(parser.buffer.Written()) + chunk
    ensures |parser.buffer.data| == old(|parser.buffer.data|)
  {
    hide Resumes;
    hide ShowAll;
    if parser.state == Parsing {
      ShowAllLonger(parser.buffer.start, parser.buffer.Written(), chunk, views, parser.texts);
    }
    parser.buffer.Receive(chunk);
  }

  function Min(a: nat, b: nat): nat {
    if a < b then a else b
  }

  /** One round of the client loop: room is made, what is ready is received, and the parser runs. */
  method ReceiveAndParse(parser: MultiBulkParser, views: seq<View>, stream: bytes, received: nat, ready: nat,
                         elsewhere: int)
      returns (st: ParserState, out: seq<View>, total: nat)
    requires parser.Valid(views) && received <= |stream| && parser.buffer.Written() == stream[..received]
    requires if parser.state == Parsing then parser.origin == 0 else parser.buffer.readIndex == 0
    modifies parser, parser.buffer
    ensures parser.Valid(out)
    ensures (total, |parser.buffer.data|) == Next((received, old(|parser.buffer.data|)), ready, |stream|)
    ensures parser.buffer.Written() == stream[..total] && st == parser.state && parser.origin == 0
    ensures parser.Received() == stream[..total] && parser.Reports(out)
    ensures st == Init ==> parser.buffer.readIndex == 0
  {
    hide Decode;
    hide Resumes;
    hide ShowAll;
    var buffer := parser.buffer;
    out := EnsureBuffer(parser, views, elsewhere);
    var n := Min(ready, Min(|stream| - received, |buffer.data| - buffer.writeIndex));
    ReceiveChunk(parser, out, stream[received..received + n]);
    total := received + n;
    assert stream[..received] + stream[received..total] == stream[..total];
    st, out := parser.Parse(out);
    assert parser.Received() == buffer.Written();
  }

  /** What a decision on a prefix says about any longer prefix. */
  lemma DecidedEarlier(stream: bytes, received: nat, total: nat)
    requires received <= total <= |stream| && Decode(stream[..received]) != NeedMore
    ensures Decode(stream[..received]) == Decode(stream[..total]) == Decode(stream)
  {
    hide Decode;
    assert stream[..received] + stream[received..total] == stream[..total];
    DecisionStable(stream[..received], stream[received..total]);
    assert stream[..received] + stream[received..] == stream;
    DecisionStable(stream[..received], stream[received..]);
  }

  /** Receives and parses one request, as the client loop does after a reset. `stream` is what the peer
      sends and `sizes` how much the kernel has ready at each receive; `moves` says where the buffer
      goes when it has to grow. Stops at the first decision or when `sizes` or `stream` is exhausted. */
  method ReceiveRequest(parser: MultiBulkParser, views: seq<View>, stream: bytes, sizes: seq<nat>, moves: seq<int>)
      returns (st: ParserState, out: seq<View>, received: nat)
    requires parser.Valid(views) && parser.state != Parsing
    requires parser.buffer.readIndex == parser.buffer.writeIndex == 0
    requires |moves| == |sizes| && forall i :: 0 <= i < |sizes| ==> sizes[i] > 0
    modifies parser, parser.buffer
    ensures parser.Valid(out) && received <= |stream|
    ensures var whole := Decode(stream[..Total(old(|parser.buffer.data|), sizes, |stream|)]);
            && (st == Done <==> whole.Request?) && (st == Error <==> whole.Malformed?)
            && (st == Done ==> whole == Decode(stream) == Request(parser.texts, parser.buffer.readIndex))
            && (st == Error ==> whole == Decode(stream))
    ensures |sizes| >= |stream| ==>
              && (st == Done <==> Decode(stream).Request?)
              && (st == Error <==> Decode(stream).Malformed?)
    ensures st == Init || st == Parsing ==> received == Total(old(|parser.buffer.data|), sizes, |stream|)
    ensures st == Done ==>
      parser.args == |parser.texts| && ShowAll(parser.buffer.start, parser.buffer.Written(), out, parser.texts)
  {
    hide Decode;
    hide Resumes;
    hide ShowAll;
    hide Next;
    NothingDecided();
    var buffer := parser.buffer;
    ghost var size := |buffer.data|;
    assert stream[..0] == [] && sizes[..0] == [] && sizes[..|sizes|] == sizes && stream[..|stream|] == stream;
    TotalGrows(size, sizes, |stream|, 0);
    out, received, st := views, 0, Init;
    for i := 0 to |sizes|
      invariant parser.Valid(out) && received <= |stream| && buffer.Written() == stream[..received]
      invariant st == Init || st == Parsing
      invariant if parser.state == Parsing then parser.origin == 0 else buffer.readIndex == 0
      invariant Decode(stream[..received]) == NeedMore
      invariant (received, |buffer.data|) == Progress(size, sizes[..i], |stream|)
    {
      assert sizes[..i + 1][..i] == sizes[..i];
      TotalGrows(size, sizes, |stream|, i);
      TotalGrows(size, sizes, |stream|, i + 1);
      if received == |stream| {
        return;
      }
      st, out, received := ReceiveAndParse(parser, out, stream, received, sizes[i], moves[i]);
      if st == Done || st == Error {
        DecidedEarlier(stream, received, Total(size, sizes, |stream|));
        return;
      }
    }
  }

  lemma NothingDecided()
    ensures Decode([]) == NeedMore
  {
  }
}
