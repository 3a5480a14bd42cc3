/** The pool of eviction candidates: an ordered set of last-access marks with the keys that had them. */
module EvictionPools {
  import opened Chaining
  import opened Collections
  import opened Keyspace
  import opened RandomDraws
  import opened TableAccess

  const POOL_LIMIT: nat := 16

  datatype Candidate = Candidate(lru: nat, key: Key)

  /** The pool is ordered by mark alone, so it holds no mark twice. */
  predicate Ordered(pool: seq<Candidate>) {
    forall i, j :: 0 <= i < j < |pool| ==> pool[i].lru < pool[j].lru
  }

  /** Adds a candidate unless one with the same mark is there. */
  function Emplace(pool: seq<Candidate>, c: Candidate): seq<Candidate> {
    if pool == [] || c.lru < pool[0].lru then [c] + pool
    else if c.lru == pool[0].lru then pool
    else [pool[0]] + Emplace(pool[1..], c)
  }

  predicate HasMark(pool: seq<Candidate>, lru: nat) {
    exists c :: c in pool && c.lru == lru
  }

  lemma OrderedTail(pool: seq<Candidate>)
    requires Ordered(pool) && pool != []
    ensures Ordered(pool[1..]) && forall x :: x in pool[1..] ==> pool[0].lru < x.lru
    ensures forall x :: x in pool <==> x == pool[0] || x in pool[1..]
  {
    assert pool == [pool[0]] + pool[1..];
  }

  lemma {:induction false} EmplaceMembers(pool: seq<Candidate>, c: Candidate)
    requires Ordered(pool)
    ensures forall x :: x in Emplace(pool, c) <==> x in pool || (x == c && !HasMark(pool, c.lru))
  {
    if pool == [] {
    } else {
      OrderedTail(pool);
      if c.lru > pool[0].lru {
        EmplaceMembers(pool[1..], c);
      } else if c.lru == pool[0].lru {
        assert pool[0] in pool;
      }
    }
  }

  lemma {:induction false} EmplaceOrdered(pool: seq<Candidate>, c: Candidate)
    requires Ordered(pool)
    ensures Ordered(Emplace(pool, c)) && Emplace(pool, c) != []
  {
    if pool != [] && c.lru > pool[0].lru {
      OrderedTail(pool);
      EmplaceMembers(pool[1..], c);
      EmplaceOrdered(pool[1..], c);
      var rest := Emplace(pool[1..], c);
      forall j | 0 <= j < |rest| ensures pool[0].lru < rest[j].lru {
        assert rest[j] in rest;
      }
    }
  }

  /** Adding keeps the order, keeps every candidate and every mark, and adds the new mark. */
  lemma EmplaceKeeps(pool: seq<Candidate>, c: Candidate)
    requires Ordered(pool)
    ensures Ordered(Emplace(pool, c)) && Emplace(pool, c) != []
    ensures forall x :: x in Emplace(pool, c) ==> x in pool || x == c
    ensures forall lru :: HasMark(Emplace(pool, c), lru) <==> HasMark(pool, lru) || lru == c.lru
  {
    EmplaceMembers(pool, c);
    EmplaceOrdered(pool, c);
  }

  /** The last-access mark of every stored key. */
  ghost predicate Marked(data: Table<Value>, marks: map<Key, nat>)
    reads data, set k | k in data.index :: data.index[k].key
  {
    marks.Keys == data.index.Keys && forall k :: k in marks ==> data.index[k].key.lru == marks[k]
  }

  /** The key is still stored and was not accessed since the candidate was taken. */
  predicate Live(marks: map<Key, nat>, c: Candidate) {
    c.key in marks && marks[c.key] == c.lru
  }

  method FindCandidate(data: Table<Value>, c: Candidate, ghost marks: map<Key, nat>) returns (entry: Entry?<Value>)
    requires data.Valid() && Marked(data, marks)
    modifies data.repr
    ensures data.Valid() && fresh(data.repr - old(data.repr)) && data.level >= old(data.level)
    ensures data.index == old(data.index) && data.contents == old(data.contents) && Marked(data, marks)
    ensures data.LaidOut() == Searched(old(data.LaidOut()), data.ht.hash)
    ensures entry != null <==> Live(marks, c)
    ensures entry != null ==> entry.key.text == c.key && c.key in data.index && entry == data.index[c.key]
  {
    forall k | k in data.index ensures data.index[k].key !in data.repr {
      data.KeysApart(data.index[k].key);
    }
    hide Table.Intact;
    var found := data.Find(c.key);
    entry := if found == null || found.key.lru != c.lru then null else found;
  }

  // ---------------------------------------------------------------- what one round of sampling picks

  function CandidateOf(marks: map<Key, nat>, key: Key): Candidate
    requires key in marks
  {
    Candidate(marks[key], key)
  }

  predicate AllMarked(marks: map<Key, nat>, keys: seq<Key>) {
    forall i :: 0 <= i < |keys| ==> keys[i] in marks
  }

  function EmplaceAll(pool: seq<Candidate>, keys: seq<Key>, marks: map<Key, nat>): seq<Candidate>
    requires AllMarked(marks, keys)
  {
    if keys == [] then pool
    else Emplace(EmplaceAll(pool, keys[..|keys| - 1], marks), CandidateOf(marks, keys[|keys| - 1]))
  }

  /** The earliest candidates, up to the limit. */
  function Trimmed(pool: seq<Candidate>): (r: seq<Candidate>)
    ensures |r| <= |pool| && r == pool[..|r|] && |r| <= POOL_LIMIT && (|r| < POOL_LIMIT ==> r == pool)
  {
    if |pool| <= POOL_LIMIT then pool else pool[..POOL_LIMIT]
  }

  /** The place of the first live candidate; the length if there is none. */
  function FirstLive(pool: seq<Candidate>, marks: map<Key, nat>): (at: nat)
    ensures at <= |pool| && (at < |pool| ==> Live(marks, pool[at]))
    ensures forall i :: 0 <= i < at ==> !Live(marks, pool[i])
  {
    if pool == [] || Live(marks, pool[0]) then 0 else 1 + FirstLive(pool[1..], marks)
  }

  /** How many candidates are looked up to find the first live one. */
  function Lookups(pool: seq<Candidate>, marks: map<Key, nat>): nat {
    var at := FirstLive(pool, marks);
    if at < |pool| then at + 1 else at
  }

  /** The key a round takes, after `keys` were sampled, and the pool it leaves. */
  function Taken(pool: seq<Candidate>, keys: seq<Key>, marks: map<Key, nat>): (Option<Key>, seq<Candidate>)
    requires AllMarked(marks, keys)
  {
    var kept := Trimmed(EmplaceAll(pool, keys, marks));
    var at := FirstLive(kept, marks);
    if at == |kept| then (None, []) else (Some(kept[at].key), kept[at + 1..])
  }

  lemma {:induction false} Emplaced(pool: seq<Candidate>, keys: seq<Key>, marks: map<Key, nat>)
    requires Ordered(pool) && AllMarked(marks, keys)
    ensures Ordered(EmplaceAll(pool, keys, marks)) && (keys != [] ==> EmplaceAll(pool, keys, marks) != [])
    ensures From(pool, keys, marks, EmplaceAll(pool, keys, marks))
    decreases keys
  {
    hide Ordered;
    hide From;
    if keys == [] {
      FromNothing(pool, marks);
    } else {
      var front, last := keys[..|keys| - 1], keys[|keys| - 1];
      Emplaced(pool, front, marks);
      var before := EmplaceAll(pool, front, marks);
      EmplaceOrdered(before, CandidateOf(marks, last));
      FromOneMore(pool, front, last, marks, before);
      assert keys == front + [last];
    }
  }

  /** `all` holds the pool, else only live candidates of `keys`, and the mark of each of `keys`. */
  ghost predicate From(pool: seq<Candidate>, keys: seq<Key>, marks: map<Key, nat>, all: seq<Candidate>)
    requires AllMarked(marks, keys)
  {
    && (forall c :: c in pool ==> c in all)
    && (forall c :: c in all ==> c in pool || (Live(marks, c) && c.key in keys))
    && (forall i :: 0 <= i < |keys| ==> HasMark(all, marks[keys[i]]))
  }

  lemma FromNothing(pool: seq<Candidate>, marks: map<Key, nat>)
    ensures From(pool, [], marks, pool)
  {
  }

  lemma FromOneMore(pool: seq<Candidate>, keys: seq<Key>, key: Key, marks: map<Key, nat>, all: seq<Candidate>)
    requires AllMarked(marks, keys) && key in marks && Ordered(all) && From(pool, keys, marks, all)
    ensures From(pool, keys + [key], marks, Emplace(all, CandidateOf(marks, key)))
  {
    var c := CandidateOf(marks, key);
    EmplaceMembers(all, c);
    EmplaceKeeps(all, c);
    hide Ordered;
    hide HasMark;
    hide Emplace;
    var more := keys + [key];
    forall i | 0 <= i < |more| ensures HasMark(Emplace(all, c), marks[more[i]]) {
      assert i < |keys| ==> more[i] == keys[i];
    }
  }

  /** An ordered pool is no larger than one that contains it. */
  lemma {:induction false} OrderedSubset(a: seq<Candidate>, b: seq<Candidate>)
    requires Ordered(a) && Ordered(b) && forall c :: c in a ==> c in b
    ensures |a| <= |b|
  {
    if a != [] {
      assert a[0] in b;
      OrderedTail(a);
      OrderedTail(b);
      OrderedSubset(a[1..], b[1..]);
    }
  }

  /** If nothing is live in the trimmed pool, nothing was trimmed and nothing new was added. */
  lemma NothingLive(pool: seq<Candidate>, all: seq<Candidate>, marks: map<Key, nat>)
    requires Ordered(pool) && Ordered(all) && |pool| < POOL_LIMIT
    requires forall c :: c in all ==> c in pool || Live(marks, c)
    requires forall c :: c in Trimmed(all) ==> !Live(marks, c)
    ensures Trimmed(all) == all
  {
    var kept := Trimmed(all);
    forall c | c in kept ensures c in pool {
      assert c in all;
    }
    OrderedSubset(kept, pool);
  }

  /** What a round takes: a live candidate of the pool or of the sample. It is no later than any live one of
      the pool, nor than a sampled key unless a dead candidate holds that key's mark; it is earlier than
      everything left in the pool, which is below its limit. A round that takes nothing found only dead
      candidates and empties the pool. */
  lemma TakenIsOldest(pool: seq<Candidate>, keys: seq<Key>, marks: map<Key, nat>)
    requires Ordered(pool) && |pool| < POOL_LIMIT && AllMarked(marks, keys) && keys != []
    ensures var (taken, rest) := Taken(pool, keys, marks);
            && Ordered(rest) && |rest| < POOL_LIMIT
            && (forall c :: c in rest ==> c in pool || (Live(marks, c) && c.key in keys))
            && (taken.None? ==> rest == [] && pool != [] && forall c :: c in pool ==> !Live(marks, c))
            && (taken.Some? ==>
                  && taken.value in marks && (taken.value in keys || CandidateOf(marks, taken.value) in pool)
                  && (forall c :: c in rest ==> marks[taken.value] < c.lru)
                  && (forall c :: c in pool && Live(marks, c) ==> marks[taken.value] <= c.lru)
                  && (forall k :: k in keys ==> marks[taken.value] <= marks[k] || DeadMark(pool, marks, marks[k])))
  {
    Emplaced(pool, keys, marks);
    var all := EmplaceAll(pool, keys, marks);
    hide EmplaceAll;
    var kept := Trimmed(all);
    var at := FirstLive(kept, marks);
    if at == |kept| {
      hide HasMark;
      NothingLive(pool, all, marks);
    } else {
      hide Ordered;
      RestIsLater(all, at);
      forall c | c in all && Live(marks, c) ensures kept[at].lru <= c.lru {
        EarliestLive(all, marks, c);
      }
      forall k | k in keys && !(kept[at].lru <= marks[k]) ensures DeadMark(pool, marks, marks[k]) {
        var i :| 0 <= i < |keys| && keys[i] == k;
        assert HasMark(all, marks[keys[i]]);
        var c :| c in all && c.lru == marks[k];
      }
    }
  }

  lemma RestIsLater(all: seq<Candidate>, at: nat)
    requires Ordered(all) && at < |Trimmed(all)|
    ensures var kept := Trimmed(all);
            && kept[at] in all && Ordered(kept[at + 1..]) && |kept[at + 1..]| < POOL_LIMIT
            && forall c :: c in kept[at + 1..] ==> c in all && kept[at].lru < c.lru
  {
  }

  /** A candidate of the pool holds the mark and is dead. */
  predicate DeadMark(pool: seq<Candidate>, marks: map<Key, nat>, lru: nat) {
    exists c :: c in pool && c.lru == lru && !Live(marks, c)
  }

  lemma EarliestLive(all: seq<Candidate>, marks: map<Key, nat>, c: Candidate)
    requires Ordered(all) && c in all && Live(marks, c) && FirstLive(Trimmed(all), marks) < |Trimmed(all)|
    ensures Trimmed(all)[FirstLive(Trimmed(all), marks)].lru <= c.lru
  {
    var i :| 0 <= i < |all| && all[i] == c;
    var kept := Trimmed(all);
    var at := FirstLive(kept, marks);
    assert forall j :: 0 <= j < |kept| ==> kept[j] == all[j];
  }

  // ---------------------------------------------------------------- the pool

  /** One round of sampling: the table as it was, the draws used and the keys they selected. */
  datatype Round = Round(layout: Layout, from: nat, to: nat, keys: seq<Key>)

  ghost predicate Sampled(r: Round, rand: nat -> nat, n: nat) {
    |r.keys| == n && SelectsAll(r.layout, rand, r.from, r.to, r.keys)
  }

  /** The number of draws of a round: the setting, or the number of keys if there are fewer. */
  function SampleSize(samples: nat, count: nat): (n: nat)
    ensures n <= samples && n <= count && (n == samples || n == count)
  {
    if samples < count then samples else count
  }

  /** Each round sampled `samples` keys, or as many as there were of `count` if these are fewer. */
  ghost predicate EnoughSampled(samples: nat, count: nat, first: Round, second: Option<Round>) {
    var n := |first.keys|;
    && n <= samples && n <= count && (n == samples || n == count)
    && (second.Some? ==> |second.value.keys| == n)
  }

  lemma SampledEnough(rand: nat -> nat, samples: nat, count: nat, first: Round, second: Option<Round>)
    requires Sampled(first, rand, SampleSize(samples, count))
    requires second.Some? ==> Sampled(second.value, rand, SampleSize(samples, count))
    ensures EnoughSampled(samples, count, first, second)
  {
    hide SampleSize;
    hide SelectsAll;
  }

  class EvictionPool {
    var items: seq<Candidate>

    constructor ()
      ensures items == []
    {
      items := [];
    }

    /** Adds the entry that the next draws select. */
    method SampleOne(data: Table<Value>, generator: Generator, ghost marks: map<Key, nat>) returns (ghost key: Key)
      requires data.Valid() && data.contents != map[] && Fair(generator.rand) && Marked(data, marks)
      requires generator !in data.repr && this !in data.repr
      modifies this`items, generator`position
      ensures data.Valid() && Marked(data, marks) && data.LaidOut() == old(data.LaidOut())
      ensures Selects(data.LaidOut(), generator.rand, old(generator.position), generator.position, key)
      ensures key in marks && items == Emplace(old(items), CandidateOf(marks, key))
    {
      hide Table.Intact;
      hide Fair;
      hide Selects;
      hide Emplace;
      var entry := data.GetRandomEntry(generator);
      key := entry.key.text;
      items := Emplace(items, Candidate(entry.key.lru, entry.key.text));
    }

    /** Adds `n` sampled entries. */
    method Sample(data: Table<Value>, generator: Generator, n: nat, ghost marks: map<Key, nat>) returns (ghost r: Round)
      requires data.Valid() && data.contents != map[] && Fair(generator.rand) && Marked(data, marks)
      requires generator !in data.repr && this !in data.repr
      modifies this`items, generator`position
      ensures data.Valid() && Marked(data, marks) && data.LaidOut() == old(data.LaidOut()) == r.layout
      ensures r.from == old(generator.position) && r.to == generator.position && Sampled(r, generator.rand, n)
      ensures AllMarked(marks, r.keys) && items == EmplaceAll(old(items), r.keys, marks)
    {
      hide Table.Intact;
      hide Fair;
      hide Marked;
      hide Selects;
      hide SelectsAll;
      hide Emplace;
      ghost var keys: seq<Key> := [];
      ghost var l := data.LaidOut();
      NoneSelected(l, generator.rand, generator.position);
      for i := 0 to n
        invariant data.Valid() && Marked(data, marks) && data.LaidOut() == l && |keys| == i
        invariant SelectsAll(l, generator.rand, old(generator.position), generator.position, keys)
        invariant AllMarked(marks, keys) && items == EmplaceAll(old(items), keys, marks)
      {
        ghost var before := generator.position;
        ghost var key := SampleOne(data, generator, marks);
        SelectsNext(l, generator.rand, old(generator.position), before, generator.position, keys, key);
        assert (keys + [key])[..|keys|] == keys;
        keys := keys + [key];
      }
      r := Round(l, old(generator.position), generator.position, keys);
    }

    /** Drops the latest candidates over the limit. */
    method Trim()
      modifies this`items
      ensures items == Trimmed(old(items))
    {
      while |items| > POOL_LIMIT
        invariant |items| <= |old(items)| && items == old(items)[..|items|]
        invariant |old(items)| <= POOL_LIMIT ==> items == old(items)
        invariant |old(items)| > POOL_LIMIT ==> |items| >= POOL_LIMIT
      {
        items := items[..|items| - 1];
      }
    }

    /** Takes the earliest live candidate and forgets the dead ones before it. */
    method TakeOldest(data: Table<Value>, ghost marks: map<Key, nat>) returns (entry: Entry?<Value>)
      requires data.Valid() && Marked(data, marks) && this !in data.repr
      modifies this`items, data.repr
      ensures data.Valid() && fresh(data.repr - old(data.repr)) && data.level >= old(data.level)
      ensures data.index == old(data.index) && data.contents == old(data.contents) && Marked(data, marks)
      ensures data.LaidOut() == SearchedTimes(old(data.LaidOut()), data.ht.hash, Lookups(old(items), marks))
      ensures var at := FirstLive(old(items), marks);
              if at == |old(items)| then entry == null && items == []
              else
                && entry != null && items == old(items)[at + 1..]
                && entry.key.text == old(items)[at].key && entry.key.text in data.index
                && data.index[entry.key.text] == entry
    {
      hide Table.Intact;
      hide Marked;
      hide Searched;
      ghost var at := 0;
      entry := null;
      while items != []
        invariant data.Valid() && fresh(data.repr - old(data.repr)) && data.level >= old(data.level)
        invariant data.index == old(data.index) && data.contents == old(data.contents) && Marked(data, marks)
        invariant data.LaidOut() == SearchedTimes(old(data.LaidOut()), data.ht.hash, at)
        invariant entry == null && at <= |old(items)| && items == old(items)[at..]
        invariant forall j :: 0 <= j < at ==> !Live(marks, old(items)[j])
        decreases |items|
      {
        entry := FindCandidate(data, items[0], marks);
        items := items[1..];
        if entry != null {
          return;
        }
        at := at + 1;
      }
    }

    /** One round: sample, trim, take. */
    method SampleAndTake(data: Table<Value>, generator: Generator, samples: nat, ghost marks: map<Key, nat>)
        returns (entry: Entry?<Value>, ghost r: Round)
      requires data.Valid() && data.contents != map[] && Fair(generator.rand) && Marked(data, marks)
      requires generator !in data.repr && this !in data.repr
      modifies this`items, generator`position, data.repr
      ensures data.Valid() && fresh(data.repr - old(data.repr)) && data.level >= old(data.level)
      ensures data.index == old(data.index) && data.contents == old(data.contents) && Marked(data, marks)
      ensures AllMarked(marks, r.keys)
      ensures data.LaidOut() ==
                SearchedTimes(r.layout, data.ht.hash, Lookups(Trimmed(EmplaceAll(old(items), r.keys, marks)), marks))
      ensures r.layout == old(data.LaidOut()) && r.from == old(generator.position) && r.to == generator.position
      ensures Sampled(r, generator.rand, SampleSize(samples, |data.contents|)) && AllMarked(marks, r.keys)
      ensures |r.keys| == SampleSize(samples, |data.contents|)
      ensures Taken(old(items), r.keys, marks) == (if entry == null then None else Some(entry.key.text), items)
      ensures entry != null ==> entry.key.text in data.index && data.index[entry.key.text] == entry
    {
      hide Table.Intact;
      hide Marked;
      hide Fair;
      hide SelectsAll;
      hide EmplaceAll;
      var count := data.Count();
      r := Sample(data, generator, SampleSize(samples, count), marks);
      Trim();
      entry := TakeOldest(data, marks);
    }

    /** An entry among the least recently used. The draws decide which keys are sampled and these which entry
        is taken. At most two rounds are needed: a round that finds nothing leaves the pool empty, and from an
        empty pool every candidate is live. The second round sees the table as the lookups of the first left
        it, with the same keys. */
    method GetSomeOldEntry(data: Table<Value>, generator: Generator, samples: nat, ghost marks: map<Key, nat>)
        returns (entry: Entry<Value>, ghost first: Round, ghost second: Option<Round>)
      requires data.Valid() && data.contents != map[] && Fair(generator.rand) && Marked(data, marks)
      requires generator !in data.repr && this !in data.repr && samples > 0
      requires Ordered(items) && |items| < POOL_LIMIT
      modifies this`items, generator`position, data.repr
      ensures data.Valid() && fresh(data.repr - old(data.repr)) && data.level >= old(data.level)
      ensures data.index == old(data.index) && data.contents == old(data.contents) && Marked(data, marks)
      ensures entry.key.text in data.index && data.index[entry.key.text] == entry
      ensures Choice(old(data.LaidOut()), data.ht.hash, generator.rand, old(generator.position), generator.position,
                     SampleSize(samples, |data.contents|), old(items), items, marks, entry.key.text, first, second)
      ensures Oldest(old(items), items, marks, entry.key.text, first, second)
      ensures EnoughSampled(samples, |data.contents|, first, second)
    {
      hide Table.Intact;
      hide Fair;
      hide Sampled;
      hide Ordered;
      hide Taken;
      hide Lays;
      hide AllMarked;
      hide EmplaceAll;
      hide Trimmed;
      hide Lookups;
      hide SearchedTimes;
      hide Choice;
      hide Oldest;
      hide EnoughSampled;
      assert marks.Keys == data.index.Keys;
      hide Marked;
      CountPositive(data.contents);
      ghost var start, hash, n := data.LaidOut(), data.ht.hash, SampleSize(samples, |data.contents|);
      ghost var from := generator.position;
      var result;
      result, first := SampleAndTake(data, generator, samples, marks);
      second := None;
      if result != null {
        OneRound(start, hash, generator.rand, from, generator.position, n, old(items), items, marks, result.key.text,
            first);
      } else {
        ghost var r;
        data.LaysKeys();
        NothingTaken(old(items), first.keys, marks);
        result, r := SampleAndTake(data, generator, samples, marks);
        FromNothingTaken(r.keys, marks);
        second := Some(r);
        TwoRounds(start, hash, generator.rand, from, generator.position, n, old(items), items, marks, result.key.text,
                  first, r);
      }
      SampledEnough(generator.rand, samples, |data.contents|, first, second);
      entry := result;
    }
  }

  lemma NothingTaken(pool: seq<Candidate>, keys: seq<Key>, marks: map<Key, nat>)
    requires AllMarked(marks, keys)
    ensures var kept := Trimmed(EmplaceAll(pool, keys, marks));
            Taken(pool, keys, marks).0.None? ==> Lookups(kept, marks) == |kept| && Taken(pool, keys, marks).1 == []
  {
    hide EmplaceAll;
  }

  /** From an empty pool something is taken. */
  lemma FromNothingTaken(keys: seq<Key>, marks: map<Key, nat>)
    requires AllMarked(marks, keys) && keys != []
    ensures Taken([], keys, marks).0.Some?
  {
    hide Taken;
    TakenIsOldest([], keys, marks);
  }

  lemma OneRound(start: Layout, hash: Key -> nat, rand: nat -> nat, from: nat, to: nat, n: nat, before: seq<Candidate>,
                 after: seq<Candidate>, marks: map<Key, nat>, key: Key, first: Round)
    requires Ordered(before) && |before| < POOL_LIMIT && n > 0 && |first.keys| == n
    requires first.layout == start && first.from == from && first.to == to && Sampled(first, rand, n)
    requires AllMarked(marks, first.keys) && Taken(before, first.keys, marks) == (Some(key), after)
    ensures Choice(start, hash, rand, from, to, n, before, after, marks, key, first, None)
    ensures Oldest(before, after, marks, key, first, None)
  {
    hide Sampled;
    hide Taken;
    hide Ordered;
    TakenIsOldest(before, first.keys, marks);
  }

  lemma TwoRounds(start: Layout, hash: Key -> nat, rand: nat -> nat, from: nat, to: nat, n: nat, before: seq<Candidate>,
                  after: seq<Candidate>, marks: map<Key, nat>, key: Key, first: Round, r: Round)
    requires Ordered(before) && |before| < POOL_LIMIT && n > 0 && |first.keys| == |r.keys| == n
    requires first.layout == start && first.from == from && first.to == r.from && Sampled(first, rand, n)
    requires AllMarked(marks, first.keys) && Taken(before, first.keys, marks) == (None, [])
    requires r.layout == SearchedTimes(start, hash, |Trimmed(EmplaceAll(before, first.keys, marks))|)
    requires Lays(r.layout, hash, marks.Keys) && r.to == to && Sampled(r, rand, n)
    requires AllMarked(marks, r.keys) && Taken([], r.keys, marks) == (Some(key), after)
    ensures Choice(start, hash, rand, from, to, n, before, after, marks, key, first, Some(r))
    ensures Oldest(before, after, marks, key, first, Some(r))
  {
    hide Sampled;
    hide Taken;
    hide Lays;
    hide EmplaceAll;
    hide SearchedTimes;
    TakenIsOldest(before, first.keys, marks);
    TakenIsOldest([], r.keys, marks);
  }

  /** How the key was chosen: by a first round on the table as found and, only if that takes nothing, by a second
      round on the table as the lookups of the first left it. */
  ghost predicate Choice(start: Layout, hash: Key -> nat, rand: nat -> nat, from: nat, to: nat, n: nat,
                         before: seq<Candidate>, after: seq<Candidate>, marks: map<Key, nat>, key: Key, first: Round,
                         second: Option<Round>) {
    && first.layout == start && first.from == from && Sampled(first, rand, n) && AllMarked(marks, first.keys)
    && match second
       case None => first.to == to && Taken(before, first.keys, marks) == (Some(key), after)
       case Some(r) =>
         && Taken(before, first.keys, marks) == (None, [])
         && r.layout == SearchedTimes(start, hash, |Trimmed(EmplaceAll(before, first.keys, marks))|)
         && Lays(r.layout, hash, marks.Keys) && r.from == first.to && r.to == to
         && Sampled(r, rand, n) && AllMarked(marks, r.keys) && Taken([], r.keys, marks) == (Some(key), after)
  }

  /** Why the key is a good choice. */
  ghost predicate Oldest(before: seq<Candidate>, after: seq<Candidate>, marks: map<Key, nat>, key: Key, first: Round,
                         second: Option<Round>) {
    var keys := if second.None? then first.keys else second.value.keys;
    && Ordered(after) && |after| < POOL_LIMIT && keys != [] && AllMarked(marks, keys) && key in marks
    && (key in keys || CandidateOf(marks, key) in before)
    && (forall c :: c in after ==> marks[key] < c.lru && (c in before || (Live(marks, c) && c.key in keys)))
    && (forall c :: c in before && Live(marks, c) ==> marks[key] <= c.lru)
    && (forall k :: k in keys ==> marks[key] <= marks[k] || DeadMark(before, marks, marks[k]))
    && (second.Some? ==> key in keys && forall k :: k in keys ==> marks[key] <= marks[k])
  }

  lemma NoneSelected(l: Layout, rand: nat -> nat, at: nat)
    ensures SelectsAll(l, rand, at, at, [])
  {
  }

  lemma CountPositive<V>(m: map<Key, V>)
    requires m != map[]
    ensures |m| > 0
  {
    var k :| k in m;
    assert k in m.Keys;
  }
}
