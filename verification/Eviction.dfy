/** Eviction: a write command first brings the tracked memory under its limit by erasing keys. */
module Eviction {
  import opened Chaining
  import opened Collections
  import opened DataService
  import opened EvictionPools
  import opened Expiry
  import opened HashTables
  import opened Keyspace
  import opened RandomDraws
  import opened TableAccess

  datatype Policy = NoEviction | AllKeysRandom | AllKeysLru

  /** Bytes in use, by category. */
  class MemoryTracker {
    var mallocator: nat
    var queryBuffer: nat

    constructor ()
      ensures mallocator == queryBuffer == 0
    {
      mallocator, queryBuffer := 0, 0;
    }

    ghost function Total(): nat
      reads this
    {
      mallocator + queryBuffer
    }
  }

  /** What is left of `m` tracked bytes after `n` keys were evicted: the tracker does not go below 0. */
  function Remaining(m: nat, release: nat -> nat, n: nat): (r: nat)
    ensures r <= m
  {
    if n == 0 then m
    else
      var before := Remaining(m, release, n - 1);
      if release(n - 1) < before then before - release(n - 1) else 0
  }

  lemma NothingReleased(m: nat, release: nat -> nat)
    ensures Remaining(m, release, 0) == m
  {
  }

  /** Where the choice of victims stands: the draws used, the pool and the marks of the stored keys. */
  datatype Chooser = Chooser(position: nat, items: seq<Candidate>, marks: map<Key, nat>)

  /** One eviction: the data table as the sampler saw it, and the key that went. */
  datatype Turn = Turn(layout: Layout, before: Chooser, key: Key, after: Chooser)

  ghost predicate Took(policy: Policy, hash: Key -> nat, rand: nat -> nat, samples: nat, turn: Turn) {
    && Lays(turn.layout, hash, turn.before.marks.Keys)
    && turn.key in turn.before.marks && turn.after.marks == turn.before.marks - {turn.key}
    && Picked(policy, turn.layout, hash, rand, turn.before.position, turn.after.position,
              SampleSize(samples, |turn.before.marks|), turn.before.items, turn.after.items, turn.before.marks,
                  turn.key)
  }

  /** The evictions that lead from `start` to `end`. */
  ghost predicate TookAll(policy: Policy, hash: Key -> nat, rand: nat -> nat, samples: nat, start: Chooser,
                          turns: seq<Turn>, end: Chooser) {
    if turns == [] then start == end
    else
      var last := turns[|turns| - 1];
      && Took(policy, hash, rand, samples, last) && last.after == end
      && TookAll(policy, hash, rand, samples, start, turns[..|turns| - 1], last.before)
  }

  lemma TookOneMore(policy: Policy, hash: Key -> nat, rand: nat -> nat, samples: nat, start: Chooser, turns: seq<Turn>,
                    turn: Turn)
    requires TookAll(policy, hash, rand, samples, start, turns, turn.before) && Took(policy, hash, rand, samples, turn)
    ensures TookAll(policy, hash, rand, samples, start, turns + [turn], turn.after)
  {
    hide Took;
    assert (turns + [turn])[..|turns|] == turns;
  }

  function Victims(turns: seq<Turn>): set<Key> {
    set i | 0 <= i < |turns| :: turns[i].key
  }

  lemma OneMoreVictim(turns: seq<Turn>, turn: Turn)
    ensures Victims(turns + [turn]) == Victims(turns) + {turn.key}
  {
    var more := turns + [turn];
    assert more[|turns|] == turn && forall i :: 0 <= i < |turns| ==> more[i] == turns[i];
  }

  ghost function MarksOf(data: Table<Value>): (marks: map<Key, nat>)
    reads data, set k | k in data.index :: data.index[k].key
    ensures Marked(data, marks)
  {
    map k | k in data.index :: data.index[k].key.lru
  }

  class Evictor {
    const service: Service
    const policy: Policy
    const maxmemory: nat
    const samples: nat
    const tracker: MemoryTracker
    const generator: Generator
    const pool: EvictionPool
    var evictedKeys: nat

    constructor (service: Service, policy: Policy, maxmemory: nat, samples: nat, tracker: MemoryTracker,
                 generator: Generator)
      requires service.Valid() && samples > 0 && Fair(generator.rand)
      requires tracker !in service.Repr() && generator !in service.Repr()
      ensures Valid() && this.service == service && this.policy == policy && this.maxmemory == maxmemory
      ensures this.samples == samples && this.tracker == tracker && this.generator == generator && fresh(pool)
    {
      hide Service.Valid;
      hide Fair;
      this.service, this.policy, this.maxmemory, this.samples := service, policy, maxmemory, samples;
      this.tracker, this.generator, evictedKeys := tracker, generator, 0;
      pool := new EvictionPool();
    }

    ghost predicate Valid()
      reads this, pool, service.data, service.expire, service.Repr()
    {
      && service.Valid() && samples > 0 && Fair(generator.rand)
      && this !in service.Repr() && tracker !in service.Repr() && generator !in service.Repr()
          && pool !in service.Repr()
      && Ordered(pool.items) && |pool.items| < POOL_LIMIT
    }

    lemma ServiceStands()
      requires Valid()
      ensures service.Valid()
    {
    }

    ghost function Choosing(): Chooser
      reads this, pool, generator, service.data, set k | k in service.data.index :: service.data.index[k].key
    {
      Chooser(generator.position, pool.items, MarksOf(service.data))
    }

    /** The data table as the sampler sees it. */
    ghost function First(): Layout
      requires Valid()
      reads this, pool, service.data, service.expire, service.Repr()
    {
      service.data.LaidOut()
    }

    method MaxmemoryExceeded() returns (bytes: nat)
      ensures bytes == if maxmemory == 0 || tracker.Total() <= maxmemory then 0 else tracker.Total() - maxmemory
    {
      if maxmemory == 0 {
        return 0;
      }
      var inUse := tracker.mallocator + tracker.queryBuffer;
      bytes := if inUse <= maxmemory then 0 else inUse - maxmemory;
    }

    ghost predicate Untracked(mallocator: nat, queryBuffer: nat, evicted: nat)
      reads this, tracker
    {
      tracker.mallocator == mallocator && tracker.queryBuffer == queryBuffer && evictedKeys == evicted
    }

    /** The key that the next draws select. */
    method PickRandom() returns (key: Key)
      requires Valid() && service.View().data != map[]
      modifies pool`items, generator`position, service.Repr()
      ensures Valid() && fresh(service.Repr() - old(service.Repr()))
      ensures service.Unshared() == old(service.Unshared())
      ensures service.expire.level >= old(service.expire.level)
      ensures service.View() == old(service.View()) && key in service.View().data
      ensures Marked(service.data, old(MarksOf(service.data)))
      ensures Untracked(old(tracker.mallocator), old(tracker.queryBuffer), old(evictedKeys))
      ensures Selects(old(First()), generator.rand, old(generator.position), generator.position, key)
      ensures pool.items == old(pool.items)
    {
      hide Table.Intact;
      hide Fair;
      hide Ordered;
      hide Marked;
      hide Selects;
      SameMarks(service.data);
      var entry := service.data.GetRandomEntry(generator);
      key := entry.key.text;
    }

    /** A key that was not used for longest among those sampled and those in the pool. */
    method PickOld() returns (key: Key, ghost first: Round, ghost second: Option<Round>)
      requires Valid() && service.View().data != map[]
      modifies pool`items, generator`position, service.Repr()
      ensures Valid() && fresh(service.Repr() - old(service.Repr()))
      ensures service.Unshared() == old(service.Unshared())
      ensures service.expire.level >= old(service.expire.level)
      ensures service.View() == old(service.View()) && key in service.View().data
      ensures Marked(service.data, old(MarksOf(service.data)))
      ensures Untracked(old(tracker.mallocator), old(tracker.queryBuffer), old(evictedKeys))
      ensures Choice(old(First()), service.data.ht.hash, generator.rand, old(generator.position), generator.position,
                     SampleSize(samples, |service.View().data|), old(pool.items), pool.items,
                     old(MarksOf(service.data)), key, first, second)
      ensures Oldest(old(pool.items), pool.items, old(MarksOf(service.data)), key, first, second)
    {
      hide Table.Intact;
      hide Fair;
      hide Ordered;
      hide Marked;
      hide Choice;
      hide Oldest;
      SameMarks(service.data);
      var entry;
      entry, first, second := pool.GetSomeOldEntry(service.data, generator, samples, MarksOf(service.data));
      OldestKeeps(old(pool.items), pool.items, old(MarksOf(service.data)), entry.key.text, first, second);
      key := entry.key.text;
    }

    /** The key to evict next, under a policy that evicts: the one the draws select, or one that was not used for
        longest among those sampled and those in the pool. */
    method PickVictim() returns (key: Key)
      requires Valid() && service.View().data != map[] && policy != NoEviction
      modifies pool`items, generator`position, service.Repr()
      ensures Valid() && fresh(service.Repr() - old(service.Repr()))
      ensures service.Unshared() == old(service.Unshared())
      ensures service.expire.level >= old(service.expire.level)
      ensures service.View() == old(service.View()) && key in service.View().data
      ensures Marked(service.data, old(MarksOf(service.data)))
      ensures Untracked(old(tracker.mallocator), old(tracker.queryBuffer), old(evictedKeys))
      ensures Picked(policy, old(First()), service.data.ht.hash, generator.rand, old(generator.position),
                     generator.position, SampleSize(samples, |service.View().data|), old(pool.items), pool.items,
                     old(MarksOf(service.data)), key)
    {
      hide Service.Valid;
      hide Service.Unshared;
      hide Service.View;
      hide Valid;
      hide Marked;
      hide MarksOf;
      hide Selects;
      hide Choice;
      hide Oldest;
      if policy == AllKeysRandom {
        key := PickRandom();
      } else {
        ghost var first, second;
        key, first, second := PickOld();
      }
    }

    /** One victim leaves both tables. */
    method TakeTurn() returns (ghost turn: Turn)
      requires Valid() && service.View().data != map[] && policy != NoEviction
      modifies pool`items, generator`position, service.Repr()
      ensures Valid() && fresh(service.Repr() - old(service.Repr()))
      ensures service.Unshared() == old(service.Unshared()) - {turn.key}
      ensures service.expire.level >= old(service.expire.level)
      ensures turn.key in old(service.View()).data && service.View() == Reaped(old(service.View()), {turn.key})
      ensures turn.layout == old(First()) && turn.before == old(Choosing()) && turn.after == Choosing()
      ensures Took(policy, service.data.ht.hash, generator.rand, samples, turn)
      ensures Untracked(old(tracker.mallocator), old(tracker.queryBuffer), old(evictedKeys))
    {
      hide Service.Valid;
      hide Service.Unshared;
      hide Service.View;
      hide Valid;
      hide Picked;
      hide Marked;
      hide MarksOf;
      hide Lays;
      hide Reaped;
      ghost var layout, chooser := First(), Choosing();
      TableFacts();
      var key := PickVictim();
      ghost var _ := DropMark(key, chooser.marks);
      turn := Turn(layout, chooser, key, Choosing());
    }

    /** Evicts one key, as number `round`; `release` says how many tracked bytes each gives back. */
    method EvictOne(release: nat -> nat, round: nat, ghost start: nat) returns (delta: nat, ghost turn: Turn)
      requires Valid() && service.View().data != map[] && policy != NoEviction
      requires tracker.mallocator == Remaining(start, release, round)
      modifies this`evictedKeys, tracker`mallocator, pool`items, generator`position, service.Repr()
      ensures Valid() && fresh(service.Repr() - old(service.Repr()))
      ensures service.Unshared() == old(service.Unshared()) - {turn.key}
      ensures service.expire.level >= old(service.expire.level)
      ensures turn.key in old(service.View()).data && service.View() == Reaped(old(service.View()), {turn.key})
      ensures evictedKeys == old(evictedKeys) + 1 && tracker.mallocator + delta == old(tracker.mallocator)
      ensures tracker.mallocator == Remaining(start, release, round + 1)
      ensures tracker.queryBuffer == old(tracker.queryBuffer)
      ensures turn.layout == old(First()) && turn.before == old(Choosing()) && turn.after == Choosing()
      ensures Took(policy, service.data.ht.hash, generator.rand, samples, turn)
    {
      hide Service.Valid;
      hide Service.Unshared;
      hide Service.View;
      hide Valid;
      hide Took;
      hide Choosing;
      hide Reaped;
      turn := TakeTurn();
      delta := Count(release, round, start);
    }

    /** Brings the tracker and the count up to date after an eviction. */
    method Count(release: nat -> nat, round: nat, ghost start: nat) returns (delta: nat)
      requires Valid() && tracker.mallocator == Remaining(start, release, round)
      modifies this`evictedKeys, tracker`mallocator
      ensures Valid() && service.Repr() == old(service.Repr()) && Choosing() == old(Choosing())
      ensures service.View() == old(service.View()) && service.Unshared() == old(service.Unshared())
      ensures service.expire.level == old(service.expire.level)
      ensures evictedKeys == old(evictedKeys) + 1 && tracker.mallocator + delta == old(tracker.mallocator)
      ensures tracker.mallocator == Remaining(start, release, round + 1)
      ensures tracker.queryBuffer == old(tracker.queryBuffer)
    {
      hide Service.Valid;
      hide Service.Unshared;
      hide Fair;
      hide Ordered;
      var before := tracker.mallocator;
      tracker.mallocator := if release(round) < before then before - release(round) else 0;
      evictedKeys := evictedKeys + 1;
      delta := before - tracker.mallocator;
    }

    /** Erases a victim: the other keys keep their marks. */
    method DropMark(key: Key, ghost marks: map<Key, nat>) returns (ghost left: map<Key, nat>)
      requires Valid() && Marked(service.data, marks)
      modifies service.Repr()
      ensures Valid() && fresh(service.Repr() - old(service.Repr()))
      ensures service.Unshared() == old(service.Unshared()) - {key}
      ensures service.expire.level >= old(service.expire.level)
      ensures service.View() == Reaped(old(service.View()), {key})
      ensures left == MarksOf(service.data) == marks - {key}
      ensures pool.items == old(pool.items) && generator.position == old(generator.position)
      ensures Untracked(old(tracker.mallocator), old(tracker.queryBuffer), old(evictedKeys))
    {
      hide Table.Intact;
      hide Fair;
      hide Ordered;
      forall k | k in service.data.index ensures service.data.index[k].key !in service.Repr() {
        service.data.KeysApart(service.data.index[k].key);
        service.expire.KeysApart(service.data.index[k].key);
      }
      service.EvictKey(key);
      left := MarksOf(service.data);
    }

    lemma TableFacts()
      requires Valid() && service.View().data != map[]
      ensures Lays(First(), service.data.ht.hash, MarksOf(service.data).Keys)
      ensures MarksOf(service.data).Keys == service.View().data.Keys && |MarksOf(service.data)| == |service.View().data|
      ensures Marked(service.data, MarksOf(service.data))
    {
      hide Table.Intact;
      hide Fair;
      hide Ordered;
      hide Lays;
      service.data.LaysKeys();
      SameSize(MarksOf(service.data).Keys, service.View().data.Keys);
    }

    /** One round of eviction, added to what earlier rounds evicted. */
    method EvictNext(release: nat -> nat, round: nat, ghost start: Tables, ghost bytes: nat, ghost from: Chooser,
                     ghost layout: Layout, ghost split: set<Key>, ghost gone: set<Key>, ghost turns: seq<Turn>)
        returns (delta: nat, ghost gone': set<Key>, ghost turns': seq<Turn>)
      requires Valid() && service.View().data != map[] && policy != NoEviction
      requires round == |turns|
      requires Evicting(policy, service.data.ht.hash, generator.rand, samples, start, bytes, release,
                                            from, layout, gone, turns, service.View(), tracker.mallocator, Choosing())
      requires (turns == [] ==> First() == layout) && service.Unshared() == split - gone
      modifies this`evictedKeys, tracker`mallocator, pool`items, generator`position, service.Repr()
      ensures Valid() && fresh(service.Repr() - old(service.Repr()))
      ensures service.Unshared() == split - gone'
      ensures service.expire.level >= old(service.expire.level)
      ensures Evicting(policy, service.data.ht.hash, generator.rand, samples, start, bytes, release, from, layout,
                       gone', turns', service.View(), tracker.mallocator, Choosing())
      ensures |turns'| == round + 1
      ensures |service.View().data| < |old(service.View()).data|
      ensures evictedKeys == old(evictedKeys) + 1 && tracker.mallocator + delta == old(tracker.mallocator)
      ensures tracker.queryBuffer == old(tracker.queryBuffer)
    {
      hide Service.Valid;
      hide Service.Unshared;
      hide Service.View;
      hide Valid;
      hide Reaped;
      hide Took;
      hide TookAll;
      hide Victims;
      hide Choosing;
      hide First;
      hide Remaining;
      ghost var turn;
      delta, turn := EvictOne(release, round, bytes);
      ReapOne(start, gone, turn.key);
      TookOneMore(policy, service.data.ht.hash, generator.rand, samples, from, turns, turn);
      OneMoreVictim(turns, turn);
      gone', turns' := gone + {turn.key}, turns + [turn];
    }

    method CountKeys() returns (n: nat)
      requires Valid()
      ensures n == |service.View().data| && (n == 0 <==> service.View().data == map[])
    {
      hide Table.Intact;
      n := service.data.Count();
    }

    /** Evicts keys until enough tracked bytes came back, and not one more. It fails only under the policy that
        never evicts, or when no key is left. Each victim is the one its turn picks. */
    method Evict(bytesToFree: nat, release: nat -> nat)
        returns (enough: bool, ghost gone: set<Key>, ghost turns: seq<Turn>)
      requires Valid() && bytesToFree != 0
      modifies this`evictedKeys, tracker`mallocator, pool`items, generator`position, service.Repr()
      ensures Valid() && fresh(service.Repr() - old(service.Repr()))
      ensures service.Unshared() == old(service.Unshared()) - gone
      ensures service.expire.level >= old(service.expire.level)
      ensures service.View() == Reaped(old(service.View()), gone)
      ensures gone <= old(service.View()).data.Keys && evictedKeys == old(evictedKeys) + |gone|
      ensures tracker.mallocator == Remaining(old(tracker.mallocator), release, |gone|)
      ensures tracker.queryBuffer == old(tracker.queryBuffer)
      ensures enough <==> tracker.mallocator + bytesToFree <= old(tracker.mallocator)
      ensures forall n :: 0 <= n < |gone| ==>
                Remaining(old(tracker.mallocator), release, n) + bytesToFree > old(tracker.mallocator)
      ensures !enough ==> policy == NoEviction || service.View().data == map[]
      ensures policy == NoEviction ==> gone == {}
      ensures TookAll(policy, service.data.ht.hash, generator.rand, samples, old(Choosing()), turns, Choosing())
      ensures |turns| == |gone| && gone == Victims(turns)
      ensures turns != [] ==> turns[0].layout == old(First())
    {
      hide Service.Valid;
      hide Service.Unshared;
      hide Service.View;
      hide Valid;
      hide Reaped;
      hide Remaining;
      hide TookAll;
      hide Victims;
      hide Choosing;
      hide First;
      hide Evicting;
      hide StillShort;
      ghost var start, bytes, from, layout := service.View(), tracker.mallocator, Choosing(), First();
      gone, turns, enough := {}, [], false;
      EvictingStarts(policy, service.data.ht.hash, generator.rand, samples, start, bytes, release, from, layout);
      ShortAtFirst(bytes, release, bytesToFree);
      assert service.Unshared() - {} == service.Unshared();
      if policy != NoEviction {
        enough, gone, turns := EvictEnough(bytesToFree, release);
      }
      EvictingMeans(policy, service.data.ht.hash, generator.rand, samples, start, bytes, release, from, layout, gone,
                    turns, service.View(), tracker.mallocator, Choosing());
      ShortMeans(bytes, release, bytesToFree, |gone|);
    }

    /** One round of the loop: nothing if there is no key. */
    method EvictRound(bytesToFree: nat, freed: nat, release: nat -> nat, round: nat, ghost start: Tables,
                      ghost bytes: nat, ghost from: Chooser, ghost layout: Layout, ghost split: set<Key>,
                      ghost gone: set<Key>, ghost turns: seq<Turn>)
        returns (some: bool, freed': nat, ghost gone': set<Key>, ghost turns': seq<Turn>)
      requires Valid() && policy != NoEviction && round == |turns| && freed < bytesToFree
      requires Evicting(policy, service.data.ht.hash, generator.rand, samples, start, bytes, release,
                        from, layout, gone, turns, service.View(), tracker.mallocator, Choosing())
      requires (turns == [] ==> First() == layout) && service.Unshared() == split - gone
      requires tracker.mallocator + freed == bytes && StillShort(bytes, release, bytesToFree, round)
      modifies this`evictedKeys, tracker`mallocator, pool`items, generator`position, service.Repr()
      ensures Valid() && fresh(service.Repr() - old(service.Repr()))
      ensures service.Unshared() == split - gone'
      ensures service.expire.level >= old(service.expire.level)
      ensures Evicting(policy, service.data.ht.hash, generator.rand, samples, start, bytes, release, from, layout,
                       gone', turns', service.View(), tracker.mallocator, Choosing())
      ensures tracker.mallocator + freed' == bytes && StillShort(bytes, release, bytesToFree, |turns'|)
      ensures tracker.queryBuffer == old(tracker.queryBuffer)
      ensures evictedKeys + round == old(evictedKeys) + |turns'|
      ensures if some then |turns'| == round + 1 && |service.View().data| < |old(service.View()).data|
              else service.View().data == map[] && freed' == freed
    {
      hide Service.Valid;
      hide Service.Unshared;
      hide Service.View;
      hide Valid;
      hide Choosing;
      hide First;
      hide Evicting;
      hide StillShort;
      ShortOnce(bytes, release, bytesToFree, policy, service.data.ht.hash, generator.rand, samples, start, from, layout,
                gone, turns, service.View(), tracker.mallocator, Choosing());
      var count := CountKeys();
      some, freed', gone', turns' := count != 0, freed, gone, turns;
      if some {
        var delta;
        delta, gone', turns' := EvictNext(release, round, start, bytes, from, layout, split, gone, turns);
        freed' := freed + delta;
      }
    }

    /** The rounds of an eviction, under a policy that evicts. */
    method EvictEnough(bytesToFree: nat, release: nat -> nat)
        returns (enough: bool, ghost gone: set<Key>, ghost turns: seq<Turn>)
      requires Valid() && bytesToFree != 0 && policy != NoEviction
      modifies this`evictedKeys, tracker`mallocator, pool`items, generator`position, service.Repr()
      ensures Valid() && fresh(service.Repr() - old(service.Repr()))
      ensures service.Unshared() == old(service.Unshared()) - gone
      ensures service.expire.level >= old(service.expire.level)
      ensures Evicting(policy, service.data.ht.hash, generator.rand, samples, old(service.View()),
                       old(tracker.mallocator), release, old(Choosing()), old(First()), gone, turns, service.View(),
                       tracker.mallocator, Choosing())
      ensures evictedKeys == old(evictedKeys) + |turns| && tracker.queryBuffer == old(tracker.queryBuffer)
      ensures enough <==> tracker.mallocator + bytesToFree <= old(tracker.mallocator)
      ensures !enough ==> service.View().data == map[]
      ensures StillShort(old(tracker.mallocator), release, bytesToFree, |turns|)
    {
      hide Service.Valid;
      hide Service.Unshared;
      hide Service.View;
      hide Valid;
      hide Choosing;
      hide First;
      hide Evicting;
      hide StillShort;
      ghost var start, bytes, from, layout := service.View(), tracker.mallocator, Choosing(), First();
      ghost var hash, rand, split := service.data.ht.hash, generator.rand, service.Unshared();
      EvictingStarts(policy, hash, rand, samples, start, bytes, release, from, layout);
      ShortAtFirst(bytes, release, bytesToFree);
      gone, turns := {}, [];
      assert service.Unshared() - {} == service.Unshared();
      var freed: nat, round: nat, some := 0, 0, true;
      while freed < bytesToFree && some
        invariant Valid() && fresh(service.Repr() - old(service.Repr()))
        invariant service.Unshared() == split - gone
        invariant service.expire.level >= old(service.expire.level)
        invariant Evicting(policy, hash, rand, samples, start, bytes, release, from, layout, gone, turns,
                           service.View(), tracker.mallocator, Choosing())
        invariant some && turns == [] ==> First() == layout
        invariant evictedKeys == old(evictedKeys) + |turns|
        invariant tracker.mallocator + freed == bytes && tracker.queryBuffer == old(tracker.queryBuffer)
        invariant StillShort(bytes, release, bytesToFree, |turns|)
        invariant if some then round == |turns| else service.View().data == map[] && freed < bytesToFree
        decreases some, |service.View().data|
      {
        some, freed, gone, turns :=
          EvictRound(bytesToFree, freed, release, round, start, bytes, from, layout, split, gone, turns);
        round := round + 1;
      }
      enough := some;
    }

    /** What a write does first: bring the tracked total within a limit. */
    method MakeRoom(release: nat -> nat) returns (enough: bool, ghost gone: set<Key>)
      requires Valid()
      modifies this`evictedKeys, tracker`mallocator, pool`items, generator`position, service.Repr()
      ensures Valid() && fresh(service.Repr() - old(service.Repr()))
      ensures service.Unshared() == old(service.Unshared()) - gone
      ensures service.expire.level >= old(service.expire.level)
      ensures service.View() == Reaped(old(service.View()), gone)
      ensures gone <= old(service.View()).data.Keys && evictedKeys == old(evictedKeys) + |gone|
      ensures tracker.mallocator == Remaining(old(tracker.mallocator), release, |gone|)
      ensures tracker.queryBuffer == old(tracker.queryBuffer)
      ensures maxmemory == 0 || old(tracker.Total()) <= maxmemory ==> enough && gone == {}
      ensures enough <==> maxmemory == 0 || tracker.Total() <= maxmemory
      ensures !enough ==> policy == NoEviction || service.View().data == map[]
      ensures forall n :: 0 <= n < |gone| ==>
                Remaining(old(tracker.mallocator), release, n) + tracker.queryBuffer > maxmemory
    {
      hide Service.Valid;
      hide Service.Unshared;
      hide Service.View;
      hide Valid;
      hide Reaped;
      hide Remaining;
      hide TookAll;
      hide Victims;
      NothingReleased(tracker.mallocator, release);
      Untouched(service.View(), 0);
      assert service.Unshared() - {} == service.Unshared();
      enough, gone := true, {};
      var bytesToFree := MaxmemoryExceeded();
      if bytesToFree != 0 {
        ghost var turns;
        enough, gone, turns := Evict(bytesToFree, release);
      }
    }

    /** A command, after its share of eviction if it writes. Its handler starts on a tracked total within the limit,
        and may then take it over: `handled` says what tracked bytes it leaves. */
    method Invoke(cmd: Command, now: Time, release: nat -> nat, handled: nat -> nat)
        returns (outcome: Outcome, ghost gone: set<Key>)
      requires Valid() && |service.View().data| + Growth(cmd) < MAX_ENTRIES
      modifies this`evictedKeys, tracker`mallocator, pool`items, generator`position, service.Repr()
      ensures Valid() && fresh(service.Repr() - old(service.Repr()))
      ensures service.expire.level >= old(service.expire.level)
      ensures gone <= old(service.View()).data.Keys && evictedKeys == old(evictedKeys) + |gone|
      ensures !IsWrite(cmd) || maxmemory == 0 || old(tracker.Total()) <= maxmemory ==>
                gone == {} && outcome != OutOfMemory
      ensures var left := Remaining(old(tracker.mallocator), release, |gone|);
              var t, split := Reaped(old(service.View()), gone), old(service.Unshared()) - gone;
              && Ends(t, split, cmd, now, service.View(), service.Unshared(), outcome)
              && (outcome == OutOfMemory ==>
                    && IsWrite(cmd) && tracker.mallocator == left && left + tracker.queryBuffer > maxmemory
                    && (policy == NoEviction || t.data == map[]))
              && (outcome != OutOfMemory ==> IsWrite(cmd) && maxmemory != 0 ==> left + tracker.queryBuffer <= maxmemory)
              && (outcome.Done? ==> tracker.mallocator == handled(left))
      ensures forall n :: 0 <= n < |gone| ==>
                Remaining(old(tracker.mallocator), release, n) + tracker.queryBuffer > maxmemory
      ensures tracker.queryBuffer == old(tracker.queryBuffer)
    {
      hide Service.Valid;
      hide Service.Unshared;
      hide Service.View;
      hide Valid;
      hide Ends;
      hide Reaped;
      hide Remaining;
      hide IsWrite;
      hide Growth;
      NothingReleased(tracker.mallocator, release);
      Untouched(service.View(), 0);
      assert service.Unshared() - {} == service.Unshared();
      ghost var start := service.View();
      gone := {};
      if IsWrite(cmd) {
        var enough;
        enough, gone := MakeRoom(release);
        if !enough {
          EndsRefused(service.View(), service.Unshared(), cmd, now);
          return OutOfMemory, gone;
        }
      }
      ReapShrinks(start, gone);
      outcome := Execute(cmd, now, handled);
    }

    /** The handler runs on the service and leaves the evictor alone but for the tracked bytes. */
    method Execute(cmd: Command, now: Time, handled: nat -> nat) returns (outcome: Outcome)
      requires Valid() && |service.View().data| + Growth(cmd) < MAX_ENTRIES
      modifies tracker`mallocator, service.Repr()
      ensures Valid() && fresh(service.Repr() - old(service.Repr()))
      ensures service.expire.level >= old(service.expire.level)
      ensures Ends(old(service.View()), old(service.Unshared()), cmd, now, service.View(), service.Unshared(), outcome)
      ensures outcome != OutOfMemory
      ensures outcome.Done? ==> tracker.mallocator == handled(old(tracker.mallocator))
      ensures tracker.queryBuffer == old(tracker.queryBuffer) && evictedKeys == old(evictedKeys)
    {
      hide Service.Valid;
      hide Service.Unshared;
      hide Fair;
      hide Ordered;
      hide Does;
      var reply := service.Execute(cmd, now);
      outcome := if reply.Some? then Done(reply.value) else Aborted;
      if outcome.Done? {
        tracker.mallocator := handled(tracker.mallocator);
      }
    }
  }

  /** What the rounds so far made of the tables `start`, of `bytes` tracked bytes and of the chooser `from`. */
  ghost predicate Evicting(policy: Policy, hash: Key -> nat, rand: nat -> nat, samples: nat, start: Tables, bytes: nat,
                           release: nat -> nat, from: Chooser, layout: Layout, gone: set<Key>, turns: seq<Turn>,
                           view: Tables, left: nat, chooser: Chooser) {
    && view == Reaped(start, gone) && gone <= start.data.Keys
    && gone == Victims(turns) && |gone| == |turns| && left == Remaining(bytes, release, |turns|)
    && TookAll(policy, hash, rand, samples, from, turns, chooser)
    && (turns != [] ==> turns[0].layout == layout)
  }

  lemma EvictingMeans(policy: Policy, hash: Key -> nat, rand: nat -> nat, samples: nat, start: Tables, bytes: nat,
                      release: nat -> nat, from: Chooser, layout: Layout, gone: set<Key>, turns: seq<Turn>,
                      view: Tables, left: nat, chooser: Chooser)
    requires Evicting(policy, hash, rand, samples, start, bytes, release, from, layout, gone, turns, view, left,
               chooser)
    ensures view == Reaped(start, gone) && gone <= start.data.Keys
    ensures gone == Victims(turns) && |gone| == |turns| && left == Remaining(bytes, release, |turns|)
    ensures TookAll(policy, hash, rand, samples, from, turns, chooser)
    ensures turns != [] ==> turns[0].layout == layout
  {
  }

  lemma EvictingStarts(policy: Policy, hash: Key -> nat, rand: nat -> nat, samples: nat, start: Tables, bytes: nat,
                       release: nat -> nat, from: Chooser, layout: Layout)
    ensures Evicting(policy, hash, rand, samples, start, bytes, release, from, layout, {}, [], start, bytes, from)
  {
    Untouched(start, 0);
    NoTurns(policy, hash, rand, samples, from);
  }

  /** After fewer than `rounds` victims too few of the bytes had come back. */
  ghost predicate StillShort(bytes: nat, release: nat -> nat, bytesToFree: nat, rounds: nat) {
    forall n :: 0 <= n < rounds ==> Remaining(bytes, release, n) + bytesToFree > bytes
  }

  lemma ShortAtFirst(bytes: nat, release: nat -> nat, bytesToFree: nat)
    ensures StillShort(bytes, release, bytesToFree, 0)
  {
  }

  lemma ShortMeans(bytes: nat, release: nat -> nat, bytesToFree: nat, rounds: nat)
    requires StillShort(bytes, release, bytesToFree, rounds)
    ensures forall n :: 0 <= n < rounds ==> Remaining(bytes, release, n) + bytesToFree > bytes
  {
  }

  lemma ShortOnce(bytes: nat, release: nat -> nat, bytesToFree: nat, policy: Policy, hash: Key -> nat, rand: nat -> nat,
                  samples: nat, start: Tables, from: Chooser, layout: Layout, gone: set<Key>, turns: seq<Turn>,
                  view: Tables, left: nat, chooser: Chooser)
    requires Evicting(policy, hash, rand, samples, start, bytes, release, from, layout, gone, turns, view, left,
               chooser)
    requires StillShort(bytes, release, bytesToFree, |turns|) && left + bytesToFree > bytes
    ensures StillShort(bytes, release, bytesToFree, |turns| + 1)
  {
    hide Remaining;
    hide TookAll;
    hide Victims;
    hide Reaped;
  }

  lemma NoTurns(policy: Policy, hash: Key -> nat, rand: nat -> nat, samples: nat, from: Chooser)
    ensures TookAll(policy, hash, rand, samples, from, [], from) && Victims([]) == {}
  {
  }

  lemma SameMarks(data: Table<Value>)
    ensures Marked(data, MarksOf(data))
  {
  }

  lemma OldestKeeps(before: seq<Candidate>, after: seq<Candidate>, marks: map<Key, nat>, key: Key, first: Round,
                    second: Option<Round>)
    requires Oldest(before, after, marks, key, first, second)
    ensures Ordered(after) && |after| < POOL_LIMIT
  {
  }

  /** How a victim is found: by one draw, or by sampling into the pool. */
  ghost predicate Picked(policy: Policy, start: Layout, hash: Key -> nat, rand: nat -> nat, from: nat, to: nat, n: nat,
                         before: seq<Candidate>, after: seq<Candidate>, marks: map<Key, nat>, key: Key) {
    match policy
    case NoEviction => false
    case AllKeysRandom => Selects(start, rand, from, to, key) && after == before
    case AllKeysLru =>
      exists first, second ::
        && Choice(start, hash, rand, from, to, n, before, after, marks, key, first, second)
        && Oldest(before, after, marks, key, first, second)
  }

  /** A command is refused for want of memory, fails the assertion on key objects, or is answered. */
  datatype Outcome = OutOfMemory | Aborted | Done(reply: Reply)

  /** How a command ends on tables `t` whose keys with two key objects are `split`. */
  ghost predicate Ends(t: Tables, split: set<Key>, cmd: Command, now: Time, after: Tables, splitAfter: set<Key>,
                       outcome: Outcome) {
    match outcome
    case OutOfMemory => after == t && splitAfter == split
    case Aborted => Does(t, split, cmd, now, after, splitAfter, None)
    case Done(reply) => Does(t, split, cmd, now, after, splitAfter, Some(reply))
  }

  lemma EndsRefused(t: Tables, split: set<Key>, cmd: Command, now: Time)
    ensures Ends(t, split, cmd, now, t, split, OutOfMemory)
  {
  }

  /** The commands registered as writing. */
  predicate IsWrite(cmd: Command) {
    cmd.Set? || cmd.SetEX? || cmd.SetNX? || cmd.MSet? || cmd.Del?
  }

  /** The command gives a key a value that it did not have. */
  ghost predicate Stores(t: Tables, cmd: Command, now: Time) {
    exists k :: k in After(t, cmd, now).data && (k !in t.data || After(t, cmd, now).data[k] != t.data[k])
  }

  /** `s` holds only what `t` holds. */
  ghost predicate HoldsNoMore(s: Tables, t: Tables) {
    forall k :: k in s.data ==> k in t.data && s.data[k] == t.data[k]
  }

  lemma {:induction false} LookingAddsNothing(t: Tables, keys: seq<Key>, now: Time)
    ensures HoldsNoMore(ExpireAll(t, keys, now), t)
    decreases |keys|
  {
    if keys != [] {
      LookingAddsNothing(Expire(t, keys[0], now), keys[1..], now);
    }
  }

  lemma ReadAddsNothing(t: Tables, cmd: Command, now: Time)
    requires !IsWrite(cmd)
    ensures HoldsNoMore(After(t, cmd, now), t)
  {
    if cmd.MGet? || cmd.Exists? {
      LookingAddsNothing(t, cmd.keys, now);
    }
  }

  /** Tables in which a write shows. */
  function Before(cmd: Command): Tables
    requires cmd.Set? || cmd.SetEX? || cmd.SetNX? || (cmd.MSet? && cmd.pairs != [])
  {
    if cmd.Set? && cmd.mode == XX then Tables(map[cmd.key := "+" + cmd.value], map[]) else Tables(map[], map[])
  }

  lemma {:induction false} SetAllHolds(t: Tables, pairs: seq<(Key, Value)>, key: Key)
    requires key in t.data
    ensures key in SetAll(t, pairs).data
    decreases |pairs|
  {
    if pairs != [] {
      SetAllHolds(Tables(t.data[pairs[0].0 := pairs[0].1], t.expire - {pairs[0].0}), pairs[1..], key);
    }
  }

  /** The commands that memory is checked for are those that can give a key a value, and DEL, which cannot; a
      list without pairs is no exception. */
  lemma WritesAreThoseThatStore(cmd: Command, now: Time)
    ensures IsWrite(cmd) <==> cmd.Del? || cmd == MSet([]) || exists t :: Stores(t, cmd, now)
  {
    if !IsWrite(cmd) {
      forall t ensures !Stores(t, cmd, now) {
        ReadAddsNothing(t, cmd, now);
      }
    } else if !cmd.Del? && cmd != MSet([]) {
      var t := Before(cmd);
      var after := After(t, cmd, now);
      if cmd.MSet? {
        var (key, value) := cmd.pairs[0];
        SetAllHolds(Tables(map[key := value], map[]), cmd.pairs[1..], key);
        assert t.data[key := value] == map[key := value] && t.expire - {key} == map[];
        assert key in after.data && key !in t.data;
      } else {
        assert cmd.key in after.data && (cmd.key !in t.data || after.data[cmd.key] != t.data[cmd.key]);
      }
      assert Stores(t, cmd, now);
    }
  }

  lemma ReapOne(start: Tables, gone: set<Key>, victim: Key)
    requires gone <= start.data.Keys && victim in Reaped(start, gone).data
    ensures Reaped(Reaped(start, gone), {victim}) == Reaped(start, gone + {victim})
    ensures gone + {victim} <= start.data.Keys && |gone + {victim}| == |gone| + 1
    ensures |Reaped(start, gone + {victim}).data| < |Reaped(start, gone).data|
  {
    ReapedTwice(start, gone, {victim});
    var left := Reaped(start, gone).data;
    assert left.Keys == (left - {victim}).Keys + {victim};
  }

  lemma ReapShrinks(start: Tables, gone: set<Key>)
    ensures |Reaped(start, gone).data| <= |start.data|
  {
    MapMinusSize(start.data, gone);
  }
}
