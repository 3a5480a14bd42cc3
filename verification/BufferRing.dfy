/** The ring of receive buffers that an executor shares with the kernel. */
module BufferRings {
  import opened Arithmetic
  import opened Collections
  import opened Words
  import opened Scan

  const ENTRY_SIZE: nat := 4096

  // ---------------------------------------------------------------- masks and remainders

  function Masked(x: bv64, k: bv7): bv64
    requires k < 64
  {
    x & Ones(k)
  }

  /** Masking with 2^k - 1 is the remainder by 2^k. */
  lemma {:induction false} ValMask(x: bv64, k: bv7)
    requires k < 64
    ensures Val(Masked(x, k)) == Val(x) % Pow2(Width(k))
    decreases k
  {
    hide *;
    if k == 0 {
      MaskedNone(x);
    } else {
      ValMask(Half(x), k - 1);
      ValHalf(Masked(x, k));
      ValHalf(x);
      MaskedHalf(x, k);
      WidthUnfold(k);
      RemainderStep(Val(x), Val(Half(x)), Odd(x), Width(k));
    }
  }

  lemma MaskedNone(x: bv64)
    ensures Val(Masked(x, 0)) == Val(x) % Pow2(Width(0))
  {
    assert Masked(x, 0) == 0;
    assert Width(0) == 0 && Pow2(0) == 1;
  }

  lemma MaskedHalf(x: bv64, k: bv7)
    requires 1 <= k < 64
    ensures Half(Masked(x, k)) == Masked(Half(x), k - 1)
    ensures Odd(Masked(x, k)) <==> Odd(x)
  {
  }

  lemma RemainderStep(v: nat, h: nat, odd: bool, k: nat)
    requires k > 0 && v == 2 * h + if odd then 1 else 0
    ensures v % Pow2(k) == 2 * (h % Pow2(k - 1)) + if odd then 1 else 0
  {
    ModHalf(v, k);
  }

  lemma FitsSmall(v: bv64)
    requires Fits(v, 17)
    ensures Small(v) && v != !0
  {
  }

  lemma WidthSeventeen()
    ensures Width(16) == 16 && Width(17) == 17 && Pow2(16) == 0x1_0000 && Pow2(17) == 0x2_0000
  {
    assert Width(8) == 8;
    assert Pow2(8) == 256;
    Pow2Add(8, 8);
    Pow2Add(1, 16);
  }

  lemma SmallWord(v: bv64)
    requires Val(v) < 0x2_0000
    ensures Small(v) && v != !0
  {
    WidthSeventeen();
    hide *;
    FitsVal(v, 17);
    FitsSmall(v);
  }

  lemma {:induction false} ValWordOf(n: nat)
    requires n < 0x1_0000
    ensures Val(WordOf(n)) == n
  {
    if n == 0 {
      ValZero(0);
    } else {
      ValWordOf(n / 2);
      hide Val;
      hide Twice;
      hide TwicePlus;
      SmallWord(WordOf(n / 2));
      ValTwice(WordOf(n / 2));
    }
  }

  lemma RemainderOfSum(a: nat, j: nat, m: nat, n: nat, c: nat)
    requires n > 0 && m == c * n && m > 0
    ensures (a % m + j) % n == (a + j) % n
  {
    var q := Quotient(a, m);
    assert a + j == q * m + (a % m + j);
    assert q * m == (q * c) * n by {
      MulAssociates(q, c, n);
    }
    RemainderShift(a % m + j, n, q * c);
  }

  lemma MulAssociates(a: nat, b: nat, c: nat)
    ensures a * (b * c) == (a * b) * c
  {
  }

  lemma RemainderShift(x: nat, n: nat, q: nat)
    requires n > 0
    ensures (q * n + x) % n == x % n
  {
    var p := Quotient(x, n);
    assert q * n + x == (q + p) * n + x % n by {
      Distributes(q, p, n);
    }
    DivUnique(q * n + x, n, q + p, x % n);
  }

  lemma Distributes(a: nat, b: nat, c: nat)
    ensures (a + b) * c == a * c + b * c
  {
  }

  /** Positions less than a round apart are different slots. */
  lemma DifferentSlots(a: nat, i: nat, j: nat, n: nat)
    requires i < j < i + n
    ensures (a + i) % n != (a + j) % n
  {
    var x, y := a + i, a + j;
    var p := Quotient(x, n);
    var q := Quotient(y, n);
    if x % n == y % n {
      if q > p {
        MulGap(p, q, n);
      } else if q < p {
        MulGap(q, p, n);
      }
    }
  }

  /** A 16-bit counter. */
  function Wrap(x: nat): (r: nat)
    ensures r < 0x1_0000
  {
    x % 0x1_0000
  }

  // ---------------------------------------------------------------- entries in circular order

  function EntryAt(start: nat, j: nat, n: nat): (r: nat)
    requires n > 0
    ensures r < n
  {
    (start + j) % n
  }

  /** `count` entries from `start` on, going round. */
  function Entries(start: nat, count: nat, n: nat): (r: seq<nat>)
    requires n > 0
    ensures |r| == count && forall j :: 0 <= j < count ==> r[j] == EntryAt(start, j, n)
  {
    if count == 0 then [] else Entries(start, count - 1, n) + [EntryAt(start, count - 1, n)]
  }

  /** The number of entries that `length` bytes cover. */
  function Covered(length: nat): nat {
    length / ENTRY_SIZE + if length % ENTRY_SIZE == 0 then 0 else 1
  }

  /** `length` bytes from `start` on, going round. */
  ghost function Circular(bytes: seq<char>, start: nat, length: nat): (r: seq<char>)
    requires |bytes| > 0
    ensures |r| == length && forall j :: 0 <= j < length ==> r[j] == bytes[(start + j) % |bytes|]
  {
    seq(length, j requires 0 <= j < length => bytes[(start + j) % |bytes|])
  }

  lemma EntriesDistinct(start: nat, count: nat, n: nat)
    requires 0 < n && count <= n
    ensures NoDuplicates(Entries(start, count, n))
  {
    forall i, j | 0 <= i < j < count ensures EntryAt(start, i, n) != EntryAt(start, j, n) {
      DifferentSlots(start, i, j, n);
    }
  }

  // ---------------------------------------------------------------- the ring as a queue

  /** The slots hold `queue` from absolute position `head` on. */
  ghost predicate Offers(slots: seq<bv64>, head: nat, queue: seq<nat>) {
    && |slots| > 0 && |queue| <= |slots|
    && forall j :: 0 <= j < |queue| ==> Val(slots[EntryAt(head, j, |slots|)]) == queue[j]
  }

  lemma OffersOneMore(slots: seq<bv64>, head: nat, queue: seq<nat>, entry: bv64)
    requires Offers(slots, head, queue) && |queue| < |slots|
    ensures Offers(slots[EntryAt(head, |queue|, |slots|) := entry], head, queue + [Val(entry)])
  {
    var n, more := |slots|, slots[EntryAt(head, |queue|, |slots|) := entry];
    forall j | 0 <= j < |queue| ensures EntryAt(head, j, n) != EntryAt(head, |queue|, n) {
      DifferentSlots(head, j, |queue|, n);
    }
    hide EntryAt;
    hide Val;
    forall j | 0 <= j < |queue| + 1 ensures Val(more[EntryAt(head, j, n)]) == (queue + [Val(entry)])[j] {
    }
  }

  lemma OffersTail(slots: seq<bv64>, head: nat, queue: seq<nat>)
    requires Offers(slots, head, queue) && queue != []
    ensures Offers(slots, head + 1, queue[1..]) && Val(slots[EntryAt(head, 0, |slots|)]) == queue[0]
  {
    hide Val;
    forall j | 0 <= j < |queue| - 1 ensures Val(slots[EntryAt(head + 1, j, |slots|)]) == queue[1..][j] {
      assert EntryAt(head + 1, j, |slots|) == EntryAt(head, j + 1, |slots|);
    }
  }

  /** Every entry is offered to the kernel once or lent out, never both. */
  ghost predicate Accounted(queue: seq<nat>, lent: set<nat>, n: nat) {
    && NoDuplicates(queue)
    && (forall e :: e in queue ==> e !in lent)
    && (forall e :: e in queue || e in lent <==> 0 <= e < n)
  }

  // ---------------------------------------------------------------- accounting

  lemma {:induction false} DistinctSize(s: seq<nat>, n: nat, seen: set<nat>)
    requires NoDuplicates(s) && (forall e :: e in s ==> e < n && e !in seen) && (forall e :: e in seen ==> e < n)
    ensures |s| + |seen| <= n
    decreases |s|
  {
    if s == [] {
      SubsetSize(seen, Below(n));
    } else {
      assert s[0] in s;
      forall e | e in s[1..] ensures e in s && e != s[0] {
      }
      DistinctSize(s[1..], n, seen + {s[0]});
    }
  }

  function Below(n: nat): (r: set<nat>)
    ensures |r| == n && forall i: nat :: i in r <==> i < n
  {
    if n == 0 then {} else Below(n - 1) + {n - 1}
  }

  function SetOf(s: seq<nat>): set<nat> {
    set e | e in s
  }

  /** Entries that are lent can be given back: there is room for them, and all stays accounted. */
  lemma GiveBack(queue: seq<nat>, lent: set<nat>, n: nat, start: nat, count: nat)
    requires n > 0 && count <= n && Accounted(queue, lent, n) && SetOf(Entries(start, count, n)) <= lent
    ensures |queue| + count <= n
    ensures Accounted(queue + Entries(start, count, n), lent - SetOf(Entries(start, count, n)), n)
  {
    var back := Entries(start, count, n);
    EntriesDistinct(start, count, n);
    hide Entries;
    hide EntryAt;
    forall i | 0 <= i < |back| ensures back[i] in lent {
      assert back[i] in back;
      assert back[i] in SetOf(back);
    }
    assert NoDuplicates(queue + back);
    forall e ensures e in queue + back || e in lent - SetOf(back) <==> 0 <= e < n {
    }
    DistinctSize(queue + back, n, {});
  }

  // ---------------------------------------------------------------- the ring

  datatype Pointer = InMemory(offset: nat) | InConcat

  datatype BufferView = BufferView(data: Pointer, length: nat, separated: Option<nat>)

  class BufferRing {
    const k: bv7
    const memory: array<char>
    const slots: array<bv64>
    var tail: bv64
    var concat: seq<char>
    ghost var head: nat
    ghost var queue: seq<nat>
    ghost var lent: set<nat>

    ghost function Count(): nat {
      Pow2(Width(k))
    }

    /** `queue` is offered to the kernel, oldest first; `lent` is with clients. The tail is a 16-bit counter. */
    ghost predicate Valid()
      reads this, slots
    {
      && (memory as object) != (slots as object)
      && k <= 15 && Width(k) <= 15 && Count() <= 0x8000 && slots.Length == Count()
          && memory.Length == Count() * ENTRY_SIZE
      && Offers(slots[..], head, queue) && Accounted(queue, lent, Count())
      && Val(tail) == Wrap(head + |queue|)
    }

    /** Offers every entry once, in order. */
    constructor (k: bv7)
      requires k <= 15
      ensures Valid() && this.k == k && head == 0 && lent == {} && concat == []
      ensures queue == Entries(0, slots.Length, slots.Length)
    {
      hide Val;
      hide Pow2;
      hide Width;
      this.k := k;
      WidthBound(k);
      var entries := Val(PowerWord(k));
      ValPower(k);
      memory := new char[entries * ENTRY_SIZE];
      slots := new bv64[entries];
      tail, concat, head, queue, lent := 0, [], 0, [], {};
      new;
      ValZero(0);
      FillSlots();
      TailStep(WordOf(slots.Length), 0, 0, slots.Length, 0);
      tail := Masked(WordOf(slots.Length), 16);
      queue := Entries(0, slots.Length, slots.Length);
      AllOffered(slots.Length);
    }

    method FillSlots()
      requires k <= 15 && Width(k) <= 15 && 0 < Count() <= 0x8000 && slots.Length == Count() && head == 0
      modifies slots
      ensures Offers(slots[..], 0, Entries(0, slots.Length, slots.Length))
      ensures Val(WordOf(slots.Length)) == slots.Length
    {
      hide Offers;
      hide Val;
      hide Pow2;
      hide Width;
      hide EntryAt;
      hide Entries;
      ghost var n := slots.Length;
      StartsAt(0, n);
      NothingOffered(slots[..]);
      for i := 0 to slots.Length
        invariant Offers(slots[..], 0, Entries(0, i, n))
      {
        EntriesLength(0, i, n);
        ValWordOf(i);
        PlainSlot(i, n);
        EntriesStep(0, i, n, []);
        assert [] + Entries(0, i + 1, n) == Entries(0, i + 1, n) && [] + Entries(0, i, n) == Entries(0, i, n);
        Add(WordOf(i), WordOf(i), Entries(0, i, n));
      }
      ValWordOf(slots.Length);
    }

    /** The bytes a view shows. */
    ghost function Text(v: BufferView): seq<char>
      requires v.data.InMemory? ==> v.data.offset + v.length <= memory.Length
      reads this, memory
    {
      match v.data
      case InMemory(offset) => memory[offset..offset + v.length]
      case InConcat => concat
    }

    /** The first entry a view covers. */
    ghost function StartEntry(v: BufferView): nat {
      if v.separated.Some? then v.separated.value else if v.data.InMemory? then v.data.offset / ENTRY_SIZE else 0
    }

    /** A view of `length` bytes from entry `entry` on; it is copied out if it goes round the end. */
    method GetBufferView(entry: nat, length: nat) returns (v: BufferView)
      requires Valid() && entry < slots.Length && length <= memory.Length
      requires Covered(length) + entry > slots.Length ==> concat == []
      modifies this`concat
      ensures Valid() && v.length == length && StartEntry(v) == entry
      ensures v.separated.None? ==> v.data.InMemory? && v.data.offset == entry * ENTRY_SIZE && concat == old(concat)
      ensures v.data.InMemory? ==> v.data.offset + length <= memory.Length && v.data.offset % ENTRY_SIZE == 0
      ensures memory.Length > 0 && Text(v) == Circular(memory[..], entry * ENTRY_SIZE, length)
    {
      hide Offers;
      hide Accounted;
      hide Val;
      hide Pow2;
      hide Width;
      var entries := slots.Length;
      var numEntries := length / ENTRY_SIZE + if length % ENTRY_SIZE == 0 then 0 else 1;
      if numEntries + entry <= entries {
        v := BufferView(InMemory(entry * ENTRY_SIZE), length, None);
        Straight(memory[..], entry * ENTRY_SIZE, length);
        return;
      }
      var firstPartLength := (entries - entry) * ENTRY_SIZE;
      assert firstPartLength < length;
      concat := memory[entry * ENTRY_SIZE..entry * ENTRY_SIZE + firstPartLength] + memory[..length - firstPartLength];
      Wrapped(memory[..], entry * ENTRY_SIZE, length, firstPartLength);
      v := BufferView(InConcat, length, Some(entry));
    }

    /** Writes an entry into the slot `position` selects. */
    method Add(entry: bv64, position: bv64, ghost staged: seq<nat>)
      requires k <= 15 && slots.Length == Count() && Offers(slots[..], head, staged) && |staged| < slots.Length
      requires EntryAt(Val(position), 0, slots.Length) == EntryAt(head, |staged|, slots.Length)
      modifies slots
      ensures Offers(slots[..], head, staged + [Val(entry)])
    {
      hide Offers;
      hide Val;
      hide Pow2;
      hide Width;
      SlotMask(position, k, slots.Length);
      hide EntryAt;
      hide Masked;
      ghost var before := slots[..];
      OffersOneMore(slots[..], head, staged, entry);
      slots[Val(Masked(position, k))] := entry;
      assert slots[..] == before[EntryAt(head, |staged|, slots.Length) := entry];
    }

    /** Adds the entries under `length` bytes from `start` on, behind the queue. */
    method AddEntries(start: nat, length: nat) returns (position: bv64)
      requires Valid() && start < slots.Length && |queue| + Covered(length) <= slots.Length
      modifies slots
      ensures Offers(slots[..], head, queue + Entries(start, Covered(length), slots.Length))
      ensures Val(position) == Val(tail) + Covered(length)
    {
      hide Offers;
      hide Accounted;
      hide Val;
      hide Pow2;
      hide Width;
      hide EntryAt;
      hide Entries;
      hide Covered;
      hide Left;
      hide Wrap;
      ghost var n, count := slots.Length, Covered(length);
      ValWordOf(start);
      StartsAt(start, n);
      LeftSteps(length, 0);
      WrapBound(head + |queue|);
      assert queue + Entries(start, 0, n) == queue;
      var remaining := length;
      var entry := WordOf(start);
      position := tail;
      ghost var offset := 0;
      while remaining != 0
        invariant offset <= count && remaining == Left(length, offset)
        invariant Val(entry) == EntryAt(start, offset, n) && Val(position) == Val(tail) + offset
        invariant Offers(slots[..], head, queue + Entries(start, offset, n))
        decreases remaining
      {
        LeftSteps(length, offset);
        EntriesLength(start, offset, n);
        SlotOf(Val(tail), head, |queue|, offset, n, Width(k));
        Add(entry, position, queue + Entries(start, offset, n));
        EntriesStep(start, offset, n, queue);
        NextEntry(entry, k, start, offset, n);
        NextPosition(position);
        remaining := remaining - if remaining < ENTRY_SIZE then remaining else ENTRY_SIZE;
        entry := Masked(Succ(entry), k);
        position := Succ(position);
        offset := offset + 1;
      }
      LeftSteps(length, offset);
    }

    /** Gives the entries under a view back to the kernel, in circular order from the first one. */
    method PutBufferView(v: BufferView)
      requires Valid() && v.length <= memory.Length && StartEntry(v) < slots.Length
      requires v.separated.None? ==> v.data.InMemory? && v.data.offset % ENTRY_SIZE == 0
      requires SetOf(Entries(StartEntry(v), Covered(v.length), slots.Length)) <= lent
      modifies this`tail, this`concat, this`queue, this`lent, slots
      ensures Valid() && head == old(head)
      ensures queue == old(queue) + Entries(StartEntry(v), Covered(v.length), slots.Length)
      ensures lent == old(lent) - SetOf(Entries(StartEntry(v), Covered(v.length), slots.Length))
      ensures concat == (if v.separated.Some? then [] else old(concat)) && memory[..] == old(memory[..])
    {
      hide Offers;
      hide Accounted;
      hide Val;
      hide Pow2;
      hide Width;
      hide Wrap;
      hide EntryAt;
      hide SetOf;
      hide Entries;
      var start := if v.separated.Some? then v.separated.value else v.data.offset / ENTRY_SIZE;
      ghost var n, count := slots.Length, Covered(v.length);
      CoveredBound(v.length, n);
      GiveBack(queue, lent, n, start, count);
      EntriesLength(start, count, n);
      var position := AddEntries(start, v.length);
      TailStep(position, head, |queue|, count, Val(tail));
      tail := Masked(position, 16);
      queue, lent := queue + Entries(start, count, n), lent - SetOf(Entries(start, count, n));
      if v.separated.Some? {
        concat := [];
      }
    }

    /** The kernel takes the oldest offered entry to receive into. */
    ghost method Take() returns (entry: nat)
      requires Valid() && queue != []
      modifies this`head, this`queue, this`lent
      ensures Valid() && head == old(head) + 1
      ensures entry == old(queue)[0] == Val(slots[EntryAt(old(head), 0, slots.Length)]) && entry < slots.Length
      ensures queue == old(queue)[1..] && lent == old(lent) + {entry}
    {
      hide Offers;
      hide Val;
      hide Pow2;
      hide Width;
      hide EntryAt;
      hide Accounted;
      OffersTail(slots[..], head, queue);
      TakeFirst(queue, lent, slots.Length);
      WrapSame(head, |queue|);
      entry := queue[0];
      head, queue, lent := head + 1, queue[1..], lent + {entry};
    }

    /** Whatever was received, showing it and giving it back returns exactly the entries it covered. */
    method ShowAndReturn(entry: nat, length: nat) returns (ghost text: seq<char>)
      requires Valid() && entry < slots.Length && length <= memory.Length && concat == []
      requires SetOf(Entries(entry, Covered(length), slots.Length)) <= lent
      modifies this`tail, this`concat, this`queue, this`lent, slots
      ensures Valid() && concat == [] && memory.Length > 0
      ensures text == Circular(memory[..], entry * ENTRY_SIZE, length)
      ensures queue == old(queue) + Entries(entry, Covered(length), slots.Length)
      ensures lent == old(lent) - SetOf(Entries(entry, Covered(length), slots.Length))
    {
      hide Valid;
      hide Covered;
      hide Entries;
      hide EntryAt;
      hide SetOf;
      hide Circular;
      hide StartEntry;
      hide Text;
      var v := GetBufferView(entry, length);
      text := Text(v);
      PutBufferView(v);
    }
  }

  lemma TakeFirst(queue: seq<nat>, lent: set<nat>, n: nat)
    requires Accounted(queue, lent, n) && queue != []
    ensures Accounted(queue[1..], lent + {queue[0]}, n) && queue[0] < n
  {
    assert queue == [queue[0]] + queue[1..];
    forall e ensures e in queue[1..] || e in lent + {queue[0]} <==> 0 <= e < n {
      assert e in queue <==> e == queue[0] || e in queue[1..];
    }
  }

  lemma WrapSame(head: nat, length: nat)
    requires length > 0
    ensures Wrap(head + 1 + (length - 1)) == Wrap(head + length)
  {
  }

  lemma NothingOffered(slots: seq<bv64>)
    requires |slots| > 0
    ensures Offers(slots, 0, [])
  {
  }

  lemma PlainSlot(i: nat, n: nat)
    requires i < n
    ensures EntryAt(i, 0, n) == EntryAt(0, i, n) == i
  {
    DivUnique(i, n, 0, i);
  }

  lemma AllOffered(n: nat)
    requires n > 0
    ensures Accounted(Entries(0, n, n), {}, n)
  {
    EntriesDistinct(0, n, n);
    forall e: nat | e < n ensures e in Entries(0, n, n) {
      PlainSlot(e, n);
      assert Entries(0, n, n)[e] == e;
    }
  }

  lemma WidthBound(k: bv7)
    requires k <= 15
    ensures Width(k) <= 15 && 0 < Pow2(Width(k)) <= 0x8000
  {
    WidthGrows(k, 15);
    assert Width(15) == 15 by {
      assert Width(8) == 8;
    }
    WidthSeventeen();
    Pow2Double(15);
    Pow2Monotone(Width(k), 15);
  }

  lemma {:induction false} WidthGrows(a: bv7, b: bv7)
    requires a <= b
    ensures Width(a) <= Width(b)
    decreases b
  {
    if a < b {
      WidthGrows(a, b - 1);
    }
  }

  lemma {:induction false} ValPower(k: bv7)
    requires k < 64
    ensures Val(PowerWord(k)) == Pow2(Width(k))
  {
    hide *;
    ValOnes(k);
    PowerIsSucc(k);
    ValSucc(Ones(k));
  }

  lemma PowerIsSucc(k: bv7)
    requires k < 64
    ensures PowerWord(k) == Succ(Ones(k)) && Ones(k) != !0
  {
  }

  lemma WrapBound(x: nat)
    ensures Wrap(x) < 0x1_0000
  {
  }

  lemma CoveredBound(length: nat, n: nat)
    requires length <= n * ENTRY_SIZE
    ensures Covered(length) <= n
  {
  }

  /** The bytes left after `offset` entries. */
  function Left(length: nat, offset: nat): nat {
    if length < offset * ENTRY_SIZE then 0 else length - offset * ENTRY_SIZE
  }

  lemma LeftSteps(length: nat, offset: nat)
    ensures Left(length, 0) == length
    ensures Left(length, offset) != 0 <==> offset < Covered(length)
    ensures Left(length, offset + 1) == if Left(length, offset) < ENTRY_SIZE then 0
              else Left(length, offset) - ENTRY_SIZE
  {
  }

  lemma SlotMask(position: bv64, k: bv7, n: nat)
    requires k <= 15 && n == Pow2(Width(k))
    ensures Val(Masked(position, k)) == EntryAt(Val(position), 0, n)
  {
    ValMask(position, k);
  }

  lemma EntriesLength(start: nat, count: nat, n: nat)
    requires n > 0
    ensures |Entries(start, count, n)| == count
  {
  }

  lemma StartsAt(start: nat, n: nat)
    requires start < n
    ensures EntryAt(start, 0, n) == start && Entries(start, 0, n) == []
  {
    DivUnique(start, n, 0, start);
  }

  /** The tail plus an offset, masked, is the slot after the queue and the entries already added. */
  lemma SlotOf(tail: nat, head: nat, length: nat, offset: nat, n: nat, w: nat)
    requires w <= 15 && n == Pow2(w) && tail == Wrap(head + length)
    ensures EntryAt(tail + offset, 0, n) == EntryAt(head, length + offset, n)
  {
    WidthSeventeen();
    Pow2Add(16 - w, w);
    RemainderOfSum(head + length, offset, 0x1_0000, n, Pow2(16 - w));
  }

  lemma EntriesStep(start: nat, offset: nat, n: nat, queue: seq<nat>)
    requires n > 0
    ensures queue + Entries(start, offset + 1, n) == queue + Entries(start, offset, n) + [EntryAt(start, offset, n)]
  {
  }

  lemma NextEntry(entry: bv64, k: bv7, start: nat, offset: nat, n: nat)
    requires k <= 15 && n == Pow2(Width(k)) <= 0x8000 && Val(entry) == EntryAt(start, offset, n)
    ensures Val(Masked(Succ(entry), k)) == EntryAt(start, offset + 1, n)
  {
    hide *;
    NextSlot(start, offset, n, Val(entry));
    SmallWord(entry);
    ValSucc(entry);
    ValMask(Succ(entry), k);
  }

  lemma NextSlot(start: nat, offset: nat, n: nat, at: nat)
    requires 0 < n <= 0x8000 && at == EntryAt(start, offset, n)
    ensures at < 0x8000 && (at + 1) % n == EntryAt(start, offset + 1, n)
  {
    ModStep(start + offset, n);
  }

  lemma NextPosition(position: bv64)
    requires Val(position) < 0x2_0000
    ensures Val(Succ(position)) == Val(position) + 1
  {
    hide *;
    SmallWord(position);
    ValSucc(position);
  }

  lemma TailStep(position: bv64, head: nat, length: nat, offset: nat, tail: nat)
    requires Val(position) == tail + offset && tail == Wrap(head + length)
    ensures Val(Masked(position, 16)) == Wrap(head + (length + offset))
  {
    WidthSeventeen();
    hide Val;
    hide Masked;
    ValMask(position, 16);
    RemainderOfSum(head + length, offset, 0x1_0000, 0x1_0000, 1);
  }

  lemma Straight(bytes: seq<char>, start: nat, length: nat)
    requires start + length <= |bytes| && |bytes| > 0
    ensures Circular(bytes, start, length) == bytes[start..start + length]
  {
    forall j | 0 <= j < length ensures Circular(bytes, start, length)[j] == bytes[start..start + length][j] {
      DivUnique(start + j, |bytes|, 0, start + j);
    }
  }

  lemma Wrapped(bytes: seq<char>, start: nat, length: nat, first: nat)
    requires start + first == |bytes| && first < length <= |bytes|
    ensures Circular(bytes, start, length) == bytes[start..] + bytes[..length - first]
  {
    forall j | 0 <= j < length ensures Circular(bytes, start, length)[j] ==
        (bytes[start..] + bytes[..length - first])[j] {
      if j < first {
        DivUnique(start + j, |bytes|, 0, start + j);
      } else {
        DivUnique(start + j, |bytes|, 1, start + j - |bytes|);
      }
    }
  }
}
