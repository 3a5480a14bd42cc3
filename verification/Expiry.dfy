/** Active expiry: the cron job samples the deadline table bucket by bucket along the scan cursor and
    erases what is stale, until few enough of the sampled keys are. */
module Expiry {
  import opened Arithmetic
  import opened Chaining
  import opened Collections
  import opened DataService
  import opened Keyspace
  import opened Scan
  import opened TableAccess
  import opened Words
  import TableRuns

  function Reaped(t: Tables, gone: set<Key>): Tables {
    Tables(t.data - gone, t.expire - gone)
  }

  function StaleOf(expire: map<Key, Time>, keys: set<Key>, now: Time): set<Key> {
    set k | k in keys && k in expire && expire[k] <= now
  }

  /** The keys whose buckets the cursor meets from reversed position `lo` up to before `hi`. */
  ghost function KeysBetween(keys: set<Key>, hash: Key -> nat, level: nat, lo: nat, hi: nat): set<Key> {
    set k | k in keys && lo <= RevK(hash(k), level) < hi
  }

  /** Different entries of the table. */
  ghost predicate Belong(visited: seq<Entry<Time>>, index: map<Key, Entry<Time>>) {
    NoDuplicates(visited) && forall e :: e in visited ==> e.key.text in index && index[e.key.text] == e
  }

  /** The callback on one entry: erases it from both tables if it is stale. */
  method ExpireEntry(service: Service, entry: Entry<Time>, now: Time) returns (stale: bool, ghost gone: set<Key>)
    requires service.Valid() && entry.key.text in service.expire.index && service.expire.index[entry.key.text] == entry
    modifies service.Repr()
    ensures service.Valid() && fresh(service.Repr() - old(service.Repr()))
    ensures service.Unshared() == old(service.Unshared()) - gone
    ensures stale <==> Expired(old(service.View()), entry.key.text, now)
    ensures gone == if stale then {entry.key.text} else {}
    ensures service.View() == Reaped(old(service.View()), gone)
    ensures service.expire.index == old(service.expire.index) - gone
    ensures service.expire.level >= old(service.expire.level)
    ensures !old(service.expire.rehashing) ==>
              !service.expire.rehashing && service.expire.level == old(service.expire.level)
  {
    hide Table.Intact;
    service.expire.At(entry.key.text);
    stale, gone := entry.value <= now, {};
    if stale {
      service.EraseKey(entry.key.text);
      gone := {entry.key.text};
    }
  }

  lemma OneMore(start: Tables, index: map<Key, Entry<Time>>, visited: seq<Entry<Time>>, i: nat, now: Time)
    requires i < |visited| && Belong(visited, index) && index.Keys == start.expire.Keys
    ensures var key, gone := visited[i].key.text, StaleOf(start.expire, TableRuns.KeysOf(visited[..i]), now);
            && key !in gone && key in start.expire && index[key] == visited[i]
            && (Expired(Reaped(start, gone), key, now) <==> start.expire[key] <= now)
            && StaleOf(start.expire, TableRuns.KeysOf(visited[..i + 1]), now) == gone + if start.expire[key] <= now
                then {key} else {}
  {
    assert visited[i] in visited;
    NewKey(visited, index, i);
    hide TableRuns.KeysOf;
  }

  /** The callback on entry number `i` of a bucket, after `gone` were removed. */
  method ExpireNth(service: Service, visited: seq<Entry<Time>>, i: nat, now: Time, ghost start: Tables,
                   ghost index: map<Key, Entry<Time>>, ghost gone: set<Key>)
      returns (stale: bool, ghost gone': set<Key>)
    requires service.Valid() && i < |visited| && Belong(visited, index) && index.Keys == start.expire.Keys
    requires gone == StaleOf(start.expire, TableRuns.KeysOf(visited[..i]), now)
    requires service.View() == Reaped(start, gone) && service.expire.index == index - gone
    requires service.Unshared() == service.Unshared() - gone
    modifies service.Repr()
    ensures service.Valid() && fresh(service.Repr() - old(service.Repr()))
    ensures service.Unshared() == old(service.Unshared()) - gone' && gone <= gone'
    ensures gone' == StaleOf(start.expire, TableRuns.KeysOf(visited[..i + 1]), now)
    ensures |gone'| == |gone| + if stale then 1 else 0
    ensures service.View() == Reaped(start, gone') && service.expire.index == index - gone'
    ensures service.expire.level >= old(service.expire.level)
    ensures !old(service.expire.rehashing) ==>
              !service.expire.rehashing && service.expire.level == old(service.expire.level)
  {
    hide Service.Valid;
    hide Service.Unshared;
    hide Service.View;
    hide Belong;
    hide StaleOf;
    hide Reaped;
    hide TableRuns.KeysOf;
    OneMore(start, index, visited, i, now);
    ghost var one;
    stale, one := ExpireEntry(service, visited[i], now);
    ReapedTwice(start, gone, one);
    MinusTwice(index, gone, one);
    gone' := gone + one;
  }

  /** The callback on the entries of one bucket. */
  method ExpireVisited(service: Service, visited: seq<Entry<Time>>, now: Time)
      returns (expired: nat, ghost gone: set<Key>)
    requires service.Valid() && Belong(visited, service.expire.index)
    modifies service.Repr()
    ensures service.Valid() && fresh(service.Repr() - old(service.Repr()))
    ensures service.Unshared() == old(service.Unshared()) - gone
    ensures gone == StaleOf(old(service.View()).expire, TableRuns.KeysOf(visited), now) && expired == |gone|
    ensures service.View() == Reaped(old(service.View()), gone)
    ensures service.expire.level >= old(service.expire.level)
    ensures !old(service.expire.rehashing) ==>
              !service.expire.rehashing && service.expire.level == old(service.expire.level)
  {
    hide Service.Valid;
    hide Service.Unshared;
    hide Service.View;
    hide Belong;
    hide StaleOf;
    hide Reaped;
    hide TableRuns.KeysOf;
    ghost var start, index := service.View(), service.expire.index;
    service.SameKeys();
    expired, gone := 0, StaleOf(start.expire, TableRuns.KeysOf(visited[..0]), now);
    NoneYet(start.expire, visited, now);
    ReapedTwice(start, {}, {});
    for i := 0 to |visited|
      invariant service.Valid() && fresh(service.Repr() - old(service.Repr()))
      invariant service.Unshared() == old(service.Unshared()) - gone
      invariant gone == StaleOf(start.expire, TableRuns.KeysOf(visited[..i]), now) && expired == |gone|
      invariant service.View() == Reaped(start, gone)
      invariant service.expire.index == index - gone
      invariant service.expire.level >= old(service.expire.level)
      invariant !old(service.expire.rehashing) ==>
                  !service.expire.rehashing && service.expire.level == old(service.expire.level)
    {
      var stale;
      stale, gone := ExpireNth(service, visited, i, now, start, index, gone);
      if stale {
        expired := expired + 1;
      }
    }
    assert visited[..|visited|] == visited;
  }

  lemma NoneYet(expire: map<Key, Time>, visited: seq<Entry<Time>>, now: Time)
    ensures StaleOf(expire, TableRuns.KeysOf(visited[..0]), now) == {}
    ensures visited == [] ==> StaleOf(expire, TableRuns.KeysOf(visited), now) == {}
  {
  }

  lemma MinusTwice<V>(m: map<Key, V>, a: set<Key>, b: set<Key>)
    ensures (m - a) - b == m - (a + b)
  {
  }

  lemma ReapedTwice(t: Tables, a: set<Key>, b: set<Key>)
    ensures Reaped(Reaped(t, a), b) == Reaped(t, a + b)
    ensures Reaped(t, {}) == t && Reaped(t, a).expire == t.expire - a
  {
    MinusTwice(t.data, a, b);
    MinusTwice(t.expire, a, b);
    assert t.data - {} == t.data && t.expire - {} == t.expire;
  }

  lemma {:induction false} DistinctKeys(visited: seq<Entry<Time>>, index: map<Key, Entry<Time>>, n: nat)
    requires Belong(visited, index) && n <= |visited|
    ensures |TableRuns.KeysOf(visited[..n])| == n
  {
    hide *;
    if n == 0 {
      NoKeys(visited);
    } else {
      DistinctKeys(visited, index, n - 1);
      NewKey(visited, index, n - 1);
    }
  }

  lemma NoKeys(visited: seq<Entry<Time>>)
    ensures TableRuns.KeysOf(visited[..0]) == {}
  {
  }

  lemma NewKey(visited: seq<Entry<Time>>, index: map<Key, Entry<Time>>, i: nat)
    requires Belong(visited, index) && i < |visited|
    ensures visited[i].key.text !in TableRuns.KeysOf(visited[..i])
    ensures TableRuns.KeysOf(visited[..i + 1]) == TableRuns.KeysOf(visited[..i]) + {visited[i].key.text}
  {
    assert visited[i] in visited && forall e :: e in visited[..i] ==> e in visited;
    assert visited[..i + 1] == visited[..i] + [visited[i]];
  }

  /** The entries of a traversed bucket are those whose hash selects it. */
  lemma VisitedKeys(visited: seq<Entry<Time>>, index: map<Key, Entry<Time>>, hash: Key -> nat, size: nat, bucket: nat)
    requires Belong(visited, index) && size > 0 && forall k :: k in index ==> index[k].key.text == k
    requires forall k :: k in index ==> (index[k] in visited <==> hash(k) % size == bucket)
    ensures TableRuns.KeysOf(visited) == BucketKeys(index.Keys, hash, size, bucket)
    ensures |visited| == |BucketKeys(index.Keys, hash, size, bucket)|
  {
    DistinctKeys(visited, index, |visited|);
    assert visited[..|visited|] == visited;
    forall k | k in TableRuns.KeysOf(visited) ensures k in BucketKeys(index.Keys, hash, size, bucket) {
      var e :| e in visited && e.key.text == k;
    }
    forall k | k in BucketKeys(index.Keys, hash, size, bucket) ensures k in TableRuns.KeysOf(visited) {
      assert index[k] in visited;
    }
  }

  /** What a pass along the cursor has sampled and removed, from reversed position `lo` to before `hi`. */
  ghost predicate Passed(expire: map<Key, Time>, hash: Key -> nat, level: nat, lo: nat, hi: nat, now: Time,
                         sampled: nat, gone: set<Key>) {
    var region := KeysBetween(expire.Keys, hash, level, lo, hi);
    sampled == |region| && gone == StaleOf(expire, region, now)
  }

  lemma PassStart(expire: map<Key, Time>, hash: Key -> nat, level: nat, lo: nat, now: Time)
    ensures Passed(expire, hash, level, lo, lo, now, 0, {})
  {
    assert KeysBetween(expire.Keys, hash, level, lo, lo) == {};
  }

  /** The next bucket: it holds what it held before the pass, and it extends the region by one position. */
  lemma NextRegion(keys: set<Key>, gone: set<Key>, hash: Key -> nat, level: nat, lo: nat, cursor: nat)
    requires cursor < Pow2(level) && lo <= RevK(cursor, level)
    requires gone <= KeysBetween(keys, hash, level, lo, RevK(cursor, level))
    ensures var hi, bucket := RevK(cursor, level), BucketKeys(keys - gone, hash, Pow2(level), cursor);
            && KeysBetween(keys, hash, level, lo, hi + 1) == KeysBetween(keys, hash, level, lo, hi) + bucket
            && KeysBetween(keys, hash, level, lo, hi) !! bucket
  {
    hide RevK;
    hide Pow2;
    forall k ensures hash(k) % Pow2(level) == cursor <==> RevK(hash(k), level) == RevK(cursor, level) {
      SameBucket(hash(k), cursor, level);
    }
  }

  lemma PassStep(expire: map<Key, Time>, hash: Key -> nat, level: nat, lo: nat, cursor: nat, now: Time, sampled: nat,
                 gone: set<Key>, left: map<Key, Time>, more: nat, out: set<Key>, hi: nat, total: nat, all: set<Key>)
    requires cursor < Pow2(level) && lo <= RevK(cursor, level) && hi == RevK(cursor, level) + 1
    requires Passed(expire, hash, level, lo, RevK(cursor, level), now, sampled, gone)
    requires left == expire - gone && more == |BucketKeys(left.Keys, hash, Pow2(level), cursor)|
    requires out == StaleOf(left, BucketKeys(left.Keys, hash, Pow2(level), cursor), now)
    requires total == sampled + more && all == gone + out
    ensures Passed(expire, hash, level, lo, hi, now, total, all)
    ensures |all| == |gone| + |out|
  {
    hide RevK;
    hide KeysBetween;
    hide BucketKeys;
    hide Pow2;
    hide StaleOf;
    var region, bucket := KeysBetween(expire.Keys, hash, level, lo, RevK(cursor, level)),
        BucketKeys(left.Keys, hash, Pow2(level), cursor);
    StaleUnion(expire, region, bucket, now);
    assert left.Keys == expire.Keys - gone;
    NextRegion(expire.Keys, gone, hash, level, lo, cursor);
  }

  lemma StaleUnion(expire: map<Key, Time>, region: set<Key>, bucket: set<Key>, now: Time)
    ensures var gone := StaleOf(expire, region, now);
            && gone <= region
            && (region !! bucket ==>
                 && StaleOf(expire, region + bucket, now) == gone + StaleOf(expire - gone, bucket, now)
                 && gone !! StaleOf(expire - gone, bucket, now))
  {
  }

  /** Where the cursor goes: one position on, or back to 0 from the last one. */
  lemma CursorStep(cursor: nat, level: nat)
    requires cursor < Pow2(level)
    ensures NextK(cursor, level) < Pow2(level)
    ensures if NextK(cursor, level) == 0 then RevK(cursor, level) + 1 == Pow2(level)
            else RevK(NextK(cursor, level), level) == RevK(cursor, level) + 1
    ensures RevK(cursor, level) < Pow2(level)
  {
    NextKReversed(cursor, level);
    RevKZero(NextK(cursor, level), level);
    SmallMod(RevK(cursor, level) + 1, Pow2(level));
  }

  /** As long as fewer keys were sampled than there are, some are left. */
  lemma SomeLeft(expire: map<Key, Time>, hash: Key -> nat, level: nat, lo: nat, hi: nat, now: Time, sampled: nat,
                 gone: set<Key>)
    requires Passed(expire, hash, level, lo, hi, now, sampled, gone) && sampled < |expire|
    ensures expire - gone != map[]
  {
    var region := KeysBetween(expire.Keys, hash, level, lo, hi);
    if expire.Keys <= region {
      SubsetSize(expire.Keys, region);
    }
    var k :| k in expire.Keys && k !in region;
    assert k in expire - gone;
  }

  // ---------------------------------------------------------------- what a whole round of passes removes

  /** Where a pass that started at reversed position `lo` and has come to `hi` ends: at the first position by
      which `want` keys were sampled, or at the last. */
  ghost function PassEnd(keys: set<Key>, hash: Key -> nat, level: nat, lo: nat, hi: nat, want: nat): (end: nat)
    requires lo < hi <= Pow2(level)
    ensures hi <= end <= Pow2(level)
    decreases Pow2(level) - hi
  {
    if hi == Pow2(level) || |KeysBetween(keys, hash, level, lo, hi)| >= want then hi
    else PassEnd(keys, hash, level, lo, hi + 1, want)
  }

  /** A pass that has come to before position `at`, and is to go on, ends where the whole pass ends. */
  ghost predicate PassUnderway(keys: set<Key>, hash: Key -> nat, level: nat, lo: nat, at: nat, want: nat) {
    && lo <= at < Pow2(level)
    && PassEnd(keys, hash, level, lo, at + 1, want) == PassEnd(keys, hash, level, lo, lo + 1, want)
  }

  lemma PassBegins(keys: set<Key>, hash: Key -> nat, level: nat, lo: nat, want: nat)
    requires lo < Pow2(level)
    ensures PassUnderway(keys, hash, level, lo, lo, want)
  {
  }

  lemma PassGoesOn(keys: set<Key>, hash: Key -> nat, level: nat, lo: nat, at: nat, want: nat, sampled: nat)
    requires PassUnderway(keys, hash, level, lo, at, want) && sampled == |KeysBetween(keys, hash, level, lo, at + 1)|
    ensures if at + 1 == Pow2(level) || sampled >= want then PassEnd(keys, hash, level, lo, lo + 1, want) == at + 1
            else PassUnderway(keys, hash, level, lo, at + 1, want)
  {
  }

  /** The settings of an active expiry: the hash and size of the table, the time, and when to stop. */
  datatype Cycle = Cycle(hash: Key -> nat, level: nat, now: Time, perLoop: nat, threshold: nat, timeUp: nat -> bool,
                         maxSamples: nat)

  /** How many keys a pass is to sample: the setting, or all there are. */
  function Want(perLoop: nat, count: nat): (n: nat)
    ensures n <= perLoop && n <= count && (n == perLoop || n == count)
  {
    if perLoop > count then count else perLoop
  }

  ghost function EndOf(c: Cycle, expire: map<Key, Time>, lo: nat): nat
    requires lo < Pow2(c.level)
  {
    PassEnd(expire.Keys, c.hash, c.level, lo, lo + 1, Want(c.perLoop, |expire|))
  }

  /** The keys that one pass samples. */
  ghost function Region(c: Cycle, expire: map<Key, Time>, lo: nat): set<Key>
    requires lo < Pow2(c.level)
  {
    KeysBetween(expire.Keys, c.hash, c.level, lo, EndOf(c, expire, lo))
  }

  /** The position the next pass starts at. */
  ghost function Onward(c: Cycle, expire: map<Key, Time>, lo: nat): (next: nat)
    requires lo < Pow2(c.level)
    ensures next < Pow2(c.level)
  {
    if EndOf(c, expire, lo) == Pow2(c.level) then 0 else EndOf(c, expire, lo)
  }

  /** Active expiry stops after a pass in which few of the sampled keys were stale, or when time is up, or when as
      many keys were sampled as there were at first. */
  predicate Stops(c: Cycle, expired: nat, sampled: nat, round: nat, total: nat) {
    Acceptable(expired, sampled, c.threshold) || c.timeUp(round) || total == c.maxSamples
  }

  /** The stale keys among those that one pass samples. */
  ghost function Stale(c: Cycle, expire: map<Key, Time>, lo: nat): set<Key>
    requires lo < Pow2(c.level)
  {
    StaleOf(expire, Region(c, expire, lo), c.now)
  }

  /** There is a pass, and another one after it. */
  ghost predicate GoesOn(c: Cycle, expire: map<Key, Time>, lo: nat, round: nat, sampled: nat)
    requires lo < Pow2(c.level)
  {
    var region := Region(c, expire, lo);
    && Want(c.perLoop, |expire|) != 0 && region != {}
    && !Stops(c, |Stale(c, expire, lo)|, |region|, round, sampled + |region|)
  }

  /** What a last pass does, if there is one. */
  ghost function LastPass(c: Cycle, expire: map<Key, Time>, lo: nat, sampled: nat): (set<Key>, nat, nat)
    requires lo < Pow2(c.level)
  {
    var region := Region(c, expire, lo);
    if Want(c.perLoop, |expire|) == 0 then ({}, sampled, lo)
    else if region == {} then ({}, sampled, Onward(c, expire, lo))
    else (Stale(c, expire, lo), sampled + |region|, Onward(c, expire, lo))
  }

  lemma GoingOnShrinks(c: Cycle, expire: map<Key, Time>, lo: nat, round: nat, sampled: nat)
    requires lo < Pow2(c.level) && GoesOn(c, expire, lo, round, sampled)
    ensures |expire - Stale(c, expire, lo)| < |expire|
  {
    hide Region;
    hide Stops;
    FewerLeft(c, expire, Region(c, expire, lo), round, sampled + |Region(c, expire, lo)|);
  }

  /** The keys an active expiry removes, how many it samples and where it leaves the cursor: pass after pass, it
      removes the stale keys among those sampled; with nothing to sample or nothing sampled it stops. */
  ghost function Removed(c: Cycle, expire: map<Key, Time>, lo: nat, round: nat, sampled: nat): (set<Key>, nat, nat)
    requires lo < Pow2(c.level)
    decreases |expire|
  {
    if !GoesOn(c, expire, lo, round, sampled) then LastPass(c, expire, lo, sampled)
    else
      GoingOnShrinks(c, expire, lo, round, sampled);
      var out := Stale(c, expire, lo);
      var total := sampled + |Region(c, expire, lo)|;
      var rest := Removed(c, expire - out, Onward(c, expire, lo), round + 1, total);
      (out + rest.0, rest.1, rest.2)
  }

  /** `all` is what the passes so far removed and what is still to come. */
  ghost predicate Midway(c: Cycle, all: (set<Key>, nat, nat), gone: set<Key>, expire: map<Key, Time>, lo: nat,
                         round: nat, sampled: nat) {
    lo < Pow2(c.level) && var rest := Removed(c, expire, lo, round, sampled); all == (gone + rest.0, rest.1, rest.2)
  }

  lemma AtFirst(c: Cycle, expire: map<Key, Time>, lo: nat)
    requires lo < Pow2(c.level)
    ensures Midway(c, Removed(c, expire, lo, 0, 0), {}, expire, lo, 0, 0)
  {
    hide Removed;
    var r := Removed(c, expire, lo, 0, 0);
    assert {} + r.0 == r.0;
  }

  lemma OnePass(c: Cycle, all: (set<Key>, nat, nat), gone: set<Key>, expire: map<Key, Time>, lo: nat, round: nat,
                sampled: nat)
    requires Midway(c, all, gone, expire, lo, round, sampled)
    ensures lo < Pow2(c.level) && Want(c.perLoop, |expire|) == 0 ==> all == (gone, sampled, lo)
    ensures Want(c.perLoop, |expire|) > 0 ==>
              var region, next := Region(c, expire, lo), Onward(c, expire, lo);
              var out, total := StaleOf(expire, region, c.now), sampled + |region|;
              if region == {} then all == (gone, sampled, next)
              else if Stops(c, |out|, |region|, round, total) then all == (gone + out, total, next)
              else Midway(c, all, gone + out, expire - out, next, round + 1, total)
  {
    hide *;
    MidwayMeans(c, all, gone, expire, lo, round, sampled);
    RemovedIs(c, expire, lo, round, sampled);
    var region, next := Region(c, expire, lo), Onward(c, expire, lo);
    var out, total := StaleOf(expire, region, c.now), sampled + |region|;
    assert gone + {} == gone;
    if Want(c.perLoop, |expire|) > 0 && region != {} && !Stops(c, |out|, |region|, round, total) {
      var rest := Removed(c, expire - out, next, round + 1, total);
      assert gone + (out + rest.0) == (gone + out) + rest.0;
      MidwayIs(c, all, gone + out, expire - out, next, round + 1, total);
    }
  }

  lemma MidwayMeans(c: Cycle, all: (set<Key>, nat, nat), gone: set<Key>, expire: map<Key, Time>, lo: nat, round: nat,
                    sampled: nat)
    requires Midway(c, all, gone, expire, lo, round, sampled)
    ensures lo < Pow2(c.level)
    ensures var rest := Removed(c, expire, lo, round, sampled); all == (gone + rest.0, rest.1, rest.2)
  {
    hide Removed;
  }

  lemma MidwayIs(c: Cycle, all: (set<Key>, nat, nat), gone: set<Key>, expire: map<Key, Time>, lo: nat, round: nat,
                 sampled: nat)
    requires lo < Pow2(c.level)
    requires var rest := Removed(c, expire, lo, round, sampled); all == (gone + rest.0, rest.1, rest.2)
    ensures Midway(c, all, gone, expire, lo, round, sampled)
  {
    hide Removed;
  }

  lemma RemovedUnfolds(c: Cycle, expire: map<Key, Time>, lo: nat, round: nat, sampled: nat)
    requires lo < Pow2(c.level)
    ensures !GoesOn(c, expire, lo, round, sampled) ==>
              Removed(c, expire, lo, round, sampled) == LastPass(c, expire, lo, sampled)
    ensures GoesOn(c, expire, lo, round, sampled) ==>
              var out, total := Stale(c, expire, lo), sampled + |Region(c, expire, lo)|;
              var rest := Removed(c, expire - out, Onward(c, expire, lo), round + 1, total);
              Removed(c, expire, lo, round, sampled) == (out + rest.0, rest.1, rest.2)
  {
    hide GoesOn;
    hide LastPass;
    hide Region;
    hide Onward;
    hide Stale;
    hide Pow2;
  }

  lemma RemovedIs(c: Cycle, expire: map<Key, Time>, lo: nat, round: nat, sampled: nat)
    requires lo < Pow2(c.level)
    ensures var region, next := Region(c, expire, lo), Onward(c, expire, lo);
            var out, total := StaleOf(expire, region, c.now), sampled + |region|;
            Removed(c, expire, lo, round, sampled) ==
            if Want(c.perLoop, |expire|) == 0 then ({}, sampled, lo)
            else if region == {} then ({}, sampled, next)
            else if Stops(c, |out|, |region|, round, total) then (out, total, next)
            else var rest := Removed(c, expire - out, next, round + 1, total); (out + rest.0, rest.1, rest.2)
  {
    RemovedUnfolds(c, expire, lo, round, sampled);
    hide Removed;
    hide Stops;
    hide Region;
    hide Onward;
    hide StaleOf;
    hide Want;
    hide Pow2;
  }

  // ---------------------------------------------------------------- the passes one by one

  /** A pass of an active expiry: the deadlines it met and the position it started at. */
  datatype Pass = Pass(left: map<Key, Time>, at: nat)

  ghost function Seen(c: Cycle, p: Pass): set<Key>
    requires p.at < Pow2(c.level)
  {
    if c.perLoop == 0 then {} else Region(c, p.left, p.at)
  }

  ghost function Found(c: Cycle, p: Pass): set<Key>
    requires p.at < Pow2(c.level)
  {
    StaleOf(p.left, Seen(c, p), c.now)
  }

  /** The share of stale keys among the sampled ones, in percent, is at most the threshold. */
  ghost predicate Within(expired: nat, sampled: nat, threshold: nat)
    requires sampled > 0
  {
    expired as real * 100.0 / sampled as real <= threshold as real
  }

  ghost predicate WithinAt(c: Cycle, p: Pass)
    requires p.at < Pow2(c.level) && Seen(c, p) != {}
  {
    Within(|Found(c, p)|, |Seen(c, p)|, c.threshold)
  }

  ghost predicate Placed(c: Cycle, passes: seq<Pass>) {
    forall i :: 0 <= i < |passes| ==> passes[i].at < Pow2(c.level)
  }

  ghost function SeenIn(c: Cycle, passes: seq<Pass>): nat
    requires Placed(c, passes)
  {
    if passes == [] then 0 else |Seen(c, passes[0])| + SeenIn(c, passes[1..])
  }

  ghost function FoundIn(c: Cycle, passes: seq<Pass>): set<Key>
    requires Placed(c, passes)
  {
    if passes == [] then {} else Found(c, passes[0]) + FoundIn(c, passes[1..])
  }

  /** After pass `i` there was reason to go on, and the next pass took up where it ended. `sampled` keys had been
      sampled before the first of these passes, which was pass number `round`. */
  ghost predicate WentOn(c: Cycle, passes: seq<Pass>, round: nat, sampled: nat, i: nat)
    requires Placed(c, passes) && i + 1 < |passes|
  {
    var p := passes[i];
    && passes[i + 1] == Pass(p.left - Found(c, p), Onward(c, p.left, p.at))
    && Seen(c, p) != {} && !WithinAt(c, p)
    && !c.timeUp(round + i) && sampled + SeenIn(c, passes[..i + 1]) != c.maxSamples
  }

  /** After the last pass there was none. */
  ghost predicate Finished(c: Cycle, passes: seq<Pass>, round: nat, sampled: nat)
    requires Placed(c, passes) && |passes| > 0
  {
    var n := |passes| - 1;
    var p := passes[n];
    || Seen(c, p) == {}
    || WithinAt(c, p) || |Found(c, p)| > MAX_EXPIRED
    || c.timeUp(round + n) || sampled + SeenIn(c, passes) == c.maxSamples
  }

  /** The passes of an active expiry on the deadlines `expire`, from position `lo`. */
  ghost predicate Ran(c: Cycle, expire: map<Key, Time>, lo: nat, round: nat, sampled: nat, passes: seq<Pass>) {
    && Placed(c, passes) && |passes| > 0 && passes[0] == Pass(expire, lo)
    && (forall i :: 0 <= i < |passes| - 1 ==> WentOn(c, passes, round, sampled, i))
    && Finished(c, passes, round, sampled)
  }

  lemma RanOne(c: Cycle, expire: map<Key, Time>, lo: nat, round: nat, sampled: nat)
    requires lo < Pow2(c.level)
    requires var p := Pass(expire, lo);
             Seen(c, p) == {} || Stops(c, |Found(c, p)|, |Seen(c, p)|, round, sampled + |Seen(c, p)|)
    ensures var passes := [Pass(expire, lo)];
            && Ran(c, expire, lo, round, sampled, passes)
            && SeenIn(c, passes) == |Seen(c, passes[0])| && FoundIn(c, passes) == Found(c, passes[0])
  {
    var p := Pass(expire, lo);
    hide Region;
    hide StaleOf;
    hide Pow2;
    assert [p][1..] == [];
    assert SeenIn(c, [p][1..]) == 0 && FoundIn(c, [p][1..]) == {};
    if Seen(c, p) != {} {
      Percentage(|Found(c, p)|, |Seen(c, p)|, c.threshold);
      hide Acceptable;
    }
  }

  lemma RanMore(c: Cycle, p: Pass, round: nat, sampled: nat, rest: seq<Pass>)
    requires p.at < Pow2(c.level) && Seen(c, p) != {}
    requires !Stops(c, |Found(c, p)|, |Seen(c, p)|, round, sampled + |Seen(c, p)|)
    requires Ran(c, p.left - Found(c, p), Onward(c, p.left, p.at), round + 1, sampled + |Seen(c, p)|, rest)
    ensures var passes := [p] + rest;
            && Ran(c, p.left, p.at, round, sampled, passes)
            && SeenIn(c, passes) == |Seen(c, p)| + SeenIn(c, rest)
            && FoundIn(c, passes) == Found(c, p) + FoundIn(c, rest)
  {
    hide Region;
    hide StaleOf;
    hide Pow2;
    hide Onward;
    hide Seen;
    hide Found;
    hide WithinAt;
    var passes := [p] + rest;
    assert passes[1..] == rest;
    assert Placed(c, passes);
    assert !WithinAt(c, p) by {
      OverThreshold(c, p);
    }
    forall i | 0 <= i < |passes| - 1 ensures WentOn(c, passes, round, sampled, i) {
      assert Placed(c, passes[..i + 1]);
      assert passes[..i + 1][1..] == rest[..i];
      assert SeenIn(c, passes[..i + 1]) == |Seen(c, p)| + SeenIn(c, rest[..i]);
      if i == 0 {
        assert rest[..0] == [];
      } else {
        assert WentOn(c, rest, round + 1, sampled + |Seen(c, p)|, i - 1);
        assert passes[i] == rest[i - 1] && passes[i + 1] == rest[i];
      }
    }
    assert passes[|passes| - 1] == rest[|rest| - 1];
  }

  lemma OverThreshold(c: Cycle, p: Pass)
    requires p.at < Pow2(c.level) && Seen(c, p) != {}
    requires !Acceptable(|Found(c, p)|, |Seen(c, p)|, c.threshold)
    ensures !WithinAt(c, p)
  {
    hide Seen;
    hide Found;
    hide Acceptable;
    Percentage(|Found(c, p)|, |Seen(c, p)|, c.threshold);
  }

  /** An active expiry is a run of passes, each taking up where the one before it ended. Every pass but the last
      saw keys of which more than the threshold were stale, in time, with keys left to sample; the last did not. */
  lemma {:induction false} RemovedInPasses(c: Cycle, expire: map<Key, Time>, lo: nat, round: nat, sampled: nat)
    returns (passes: seq<Pass>)
    requires lo < Pow2(c.level)
    ensures Ran(c, expire, lo, round, sampled, passes)
    ensures var r := Removed(c, expire, lo, round, sampled);
            r.0 == FoundIn(c, passes) && r.1 == sampled + SeenIn(c, passes)
    decreases |expire|
  {
    hide *;
    var p := Pass(expire, lo);
    var region := Region(c, expire, lo);
    var out, total := StaleOf(expire, region, c.now), sampled + |region|;
    RemovedIs(c, expire, lo, round, sampled);
    WhatIsSeen(c, p);
    if Want(c.perLoop, |expire|) == 0 || region == {} || Stops(c, |out|, |region|, round, total) {
      passes := [p];
      RanOne(c, expire, lo, round, sampled);
    } else {
      FewerLeft(c, expire, region, round, total);
      var rest := RemovedInPasses(c, expire - out, Onward(c, expire, lo), round + 1, total);
      passes := [p] + rest;
      RanMore(c, p, round, sampled, rest);
    }
  }

  lemma FewerLeft(c: Cycle, expire: map<Key, Time>, region: set<Key>, round: nat, total: nat)
    requires !Stops(c, |StaleOf(expire, region, c.now)|, |region|, round, total)
    ensures |expire - StaleOf(expire, region, c.now)| < |expire|
  {
    var out := StaleOf(expire, region, c.now);
    SomeExpired(|out|, |region|, c.threshold);
    RemainingSize(expire, out);
    hide Acceptable;
  }

  lemma WhatIsSeen(c: Cycle, p: Pass)
    requires p.at < Pow2(c.level)
    ensures if Want(c.perLoop, |p.left|) == 0 then Seen(c, p) == {}
            else Seen(c, p) == Region(c, p.left, p.at) && Found(c, p) == StaleOf(p.left, Region(c, p.left, p.at), c.now)
    ensures Seen(c, p) == {} ==> Found(c, p) == {}
  {
    assert Region(c, p.left, p.at) <= p.left.Keys;
    if |p.left| == 0 {
      assert p.left == map[];
    }
  }

  method Traverse(service: Service, cursor: bv64) returns (next: bv64, visited: seq<Entry<Time>>)
    requires service.Valid() && service.View().expire != map[] && Val(cursor) < Pow2(service.expire.level)
    ensures Belong(visited, service.expire.index)
    ensures service.expire.rehashing ==> next == 0 && visited == []
    ensures !service.expire.rehashing ==>
              && Val(next) == NextK(Val(cursor), service.expire.level)
              && var bucket := BucketKeys(service.View().expire.Keys, service.expire.ht.hash,
                  Pow2(service.expire.level), Val(cursor));
                 |visited| == |bucket| && TableRuns.KeysOf(visited) == bucket
  {
    hide Table.Intact;
    hide Val;
    hide NextK;
    next, visited := service.expire.TraverseBucket(cursor);
    if !service.expire.rehashing {
      VisitedKeys(visited, service.expire.index, service.expire.ht.hash, Pow2(service.expire.level), Val(cursor));
    }
  }

  class Expirer {
    const service: Service
    const keysPerLoop: nat
    const threshold: nat
    var bucketIndex: bv64

    ghost predicate Valid()
      reads this, service.data, service.expire, service.Repr()
    {
      service.Valid() && this !in service.Repr() && Val(bucketIndex) < Pow2(service.expire.level)
    }

    constructor (service: Service, keysPerLoop: nat, threshold: nat)
      requires service.Valid()
      ensures Valid() && this.service == service && this.keysPerLoop == keysPerLoop && this.threshold == threshold
    {
      hide Service.Valid;
      hide Val;
      this.service, this.keysPerLoop, this.threshold := service, keysPerLoop, threshold;
      bucketIndex := 0;
      ValZero(0);
    }

    /** One bucket at the cursor. In the middle of a rehash nothing is sampled and the cursor is reset. */
    method VisitBucket(now: Time) returns (sampled: nat, expired: nat, ghost gone: set<Key>)
      requires Valid() && service.View().expire != map[]
      modifies this`bucketIndex, service.Repr()
      ensures Valid() && fresh(service.Repr() - old(service.Repr()))
      ensures service.Unshared() == old(service.Unshared()) - gone
      ensures service.expire.level >= old(service.expire.level)
      ensures expired == |gone| && service.View() == Reaped(old(service.View()), gone)
      ensures old(service.expire.rehashing) ==> bucketIndex == 0 && sampled == 0 && gone == {}
      ensures !old(service.expire.rehashing) ==>
                && !service.expire.rehashing && service.expire.level == old(service.expire.level)
                && Val(bucketIndex) == NextK(Val(old(bucketIndex)), service.expire.level)
      ensures !old(service.expire.rehashing) ==>
                var bucket := BucketKeys(old(service.View()).expire.Keys, service.expire.ht.hash,
                    Pow2(service.expire.level), Val(old(bucketIndex)));
                sampled == |bucket| && gone == StaleOf(old(service.View()).expire, bucket, now)
    {
      hide Service.Valid;
      hide Service.Unshared;
      hide Val;
      hide NextK;
      hide StaleOf;
      hide Reaped;
      service.SameKeys();
      var next, visited := Traverse(service, bucketIndex);
      ValZero(next);
      bucketIndex := next;
      sampled := |visited|;
      NoneYet(service.View().expire, visited, now);
      expired, gone := ExpireVisited(service, visited, now);
    }

    /** A key that was removed has no deadline left. */
    lemma Apart(start: Tables, gone: set<Key>)
      requires Valid() && service.View() == Reaped(start, gone)
      ensures service.Unshared() !! gone
    {
      hide Service.Valid;
      hide Service.Unshared;
      hide Val;
      service.OnlyWithDeadline();
    }

    lemma CursorBound()
      requires Valid()
      ensures Val(bucketIndex) < Pow2(service.expire.level)
    {
    }

    /** How far a pass has come that started on tables `start`, with 2^level buckets, at reversed position `lo`. */
    ghost predicate InPass(start: Tables, level: nat, lo: nat, hi: nat, now: Time, sampled: nat, expired: nat,
                           gone: set<Key>)
      reads this, service.data, service.expire, service.Repr()
    {
      && Valid() && service.expire.level == level && !service.expire.rehashing
      && expired == |gone| && service.View() == Reaped(start, gone)
      && Passed(start.expire, service.expire.ht.hash, level, lo, hi, now, sampled, gone)
    }

    /** The reversed position of the cursor, counting the 0 that ends a round as its end. */
    ghost function Reached(level: nat): nat
      reads this
    {
      if bucketIndex == 0 then Pow2(level) else RevK(Val(bucketIndex), level)
    }

    /** In the middle of a rehash nothing is sampled. */
    ghost predicate Idle(start: Tables, level: nat, sampled: nat, expired: nat, gone: set<Key>)
      reads this, service.data, service.expire, service.Repr()
    {
      Valid() && service.expire.level >= level && service.View() == start && sampled == expired == 0 && gone == {}
    }

    ghost predicate Sampled(idle: bool, start: Tables, level: nat, lo: nat, hi: nat, now: Time, sampled: nat,
                            expired: nat, gone: set<Key>)
      reads this, service.data, service.expire, service.Repr()
    {
      if idle then Idle(start, level, sampled, expired, gone)
          else InPass(start, level, lo, hi, now, sampled, expired, gone)
    }

    lemma SampledSize(start: Tables, level: nat, lo: nat, hi: nat, now: Time, sampled: nat, expired: nat,
                      gone: set<Key>)
      requires Sampled(false, start, level, lo, hi, now, sampled, expired, gone)
      ensures sampled == |KeysBetween(start.expire.Keys, service.expire.ht.hash, level, lo, hi)|
      ensures gone == StaleOf(start.expire, KeysBetween(start.expire.Keys, service.expire.ht.hash, level, lo, hi), now)
      ensures service.expire.level == level && !service.expire.rehashing
    {
    }

    /** One bucket of a pass, whether or not the table is in the middle of a rehash. */
    method SampleBucket(now: Time, sampled: nat, expired: nat, ghost start: Tables, ghost level: nat, ghost lo: nat,
                        ghost gone: set<Key>)
        returns (sampled': nat, expired': nat, ghost gone': set<Key>)
      requires Sampled(service.expire.rehashing, start, level, lo, RevK(Val(bucketIndex), level), now, sampled, expired,
                 gone)
      requires sampled < |start.expire| && lo <= RevK(Val(bucketIndex), level)
      modifies this`bucketIndex, service.Repr()
      ensures Sampled(old(service.expire.rehashing), start, level, lo, Reached(level), now, sampled', expired', gone')
      ensures if old(service.expire.rehashing) then bucketIndex == 0
              else !service.expire.rehashing && Reached(level) == RevK(Val(old(bucketIndex)), level) + 1
      ensures fresh(service.Repr() - old(service.Repr()))
      ensures service.Unshared() == old(service.Unshared()) - gone' && gone <= gone'
    {
      hide Service.Valid;
      hide Service.Unshared;
      hide Service.View;
      hide Valid;
      hide Val;
      hide NextK;
      hide RevK;
      hide Pow2;
      hide StaleOf;
      hide BucketKeys;
      hide Passed;
      hide Reaped;
      ghost var idle, hash, cursor, left :=
          service.expire.rehashing, service.expire.ht.hash, Val(bucketIndex), start.expire - gone;
      ReapedTwice(start, gone, {});
      CursorBound();
      if !idle {
        SomeLeft(start.expire, hash, level, lo, RevK(cursor, level), now, sampled, gone);
        Apart(start, gone);
      }
      var more, stale;
      ghost var out;
      more, stale, out := VisitBucket(now);
      ReapedTwice(start, gone, out);
      ValZero(bucketIndex);
      sampled', expired', gone' := sampled + more, expired + stale, gone + out;
      if !idle {
        CursorStep(cursor, level);
        PassStep(start.expire, hash, level, lo, cursor, now, sampled, gone, left, more, out, Reached(level), sampled',
            gone');
      }
    }

    /** A pass that is to go on with the bucket at the cursor. */
    ghost predicate OnPass(idle: bool, start: Tables, level: nat, lo: nat, want: nat, now: Time, sampled: nat,
                           expired: nat, gone: set<Key>)
      reads this, service.data, service.expire, service.Repr()
    {
      var at := RevK(Val(bucketIndex), level);
      && Sampled(idle, start, level, lo, at, now, sampled, expired, gone) && service.expire.rehashing == idle
          && lo <= at
      && (!idle ==> PassUnderway(start.expire.Keys, service.expire.ht.hash, level, lo, at, want))
    }

    /** A pass that is over. */
    ghost predicate PassDone(idle: bool, start: Tables, level: nat, lo: nat, want: nat, now: Time, sampled: nat,
                             expired: nat, gone: set<Key>)
      reads this, service.data, service.expire, service.Repr()
    {
      && Sampled(idle, start, level, lo, Reached(level), now, sampled, expired, gone)
      && (!idle ==>
            && lo < Pow2(level)
            && Reached(level) == PassEnd(start.expire.Keys, service.expire.ht.hash, level, lo, lo + 1, want))
    }

    lemma PassOpens(want: nat, now: Time)
      requires Valid()
      ensures var level := service.expire.level;
              && OnPass(service.expire.rehashing, service.View(), level, RevK(Val(bucketIndex), level), want, now, 0, 0,
                  {})
              && RevK(Val(bucketIndex), level) < Pow2(level)
    {
      hide Service.Valid;
      hide Service.Unshared;
      hide Val;
      hide RevK;
      hide Pow2;
      hide PassUnderway;
      var level := service.expire.level;
      var lo := RevK(Val(bucketIndex), level);
      PassStart(service.View().expire, service.expire.ht.hash, level, lo, now);
      ReapedTwice(service.View(), {}, {});
      CursorStep(Val(bucketIndex), level);
      PassBegins(service.View().expire.Keys, service.expire.ht.hash, level, lo, want);
    }

    /** The next bucket of a pass. */
    method NextBucket(want: nat, now: Time, sampled: nat, expired: nat, ghost idle: bool, ghost start: Tables,
                      ghost level: nat, ghost lo: nat, ghost gone: set<Key>)
        returns (sampled': nat, expired': nat, ghost gone': set<Key>)
      requires OnPass(idle, start, level, lo, want, now, sampled, expired, gone) && sampled < |start.expire|
      modifies this`bucketIndex, service.Repr()
      ensures fresh(service.Repr() - old(service.Repr()))
      ensures service.Unshared() == old(service.Unshared()) - gone' && gone <= gone'
      ensures if bucketIndex == 0 || sampled' >= want
              then PassDone(idle, start, level, lo, want, now, sampled', expired', gone')
              else OnPass(idle, start, level, lo, want, now, sampled', expired', gone')
                   && RevK(Val(bucketIndex), level) == RevK(Val(old(bucketIndex)), level) + 1 < Pow2(level)
    {
      hide Service.Valid;
      hide Service.Unshared;
      hide Val;
      hide RevK;
      hide Pow2;
      hide KeysBetween;
      hide PassUnderway;
      hide Sampled;
      ghost var at, hash := RevK(Val(bucketIndex), level), service.expire.ht.hash;
      sampled', expired', gone' := SampleBucket(now, sampled, expired, start, level, lo, gone);
      if !idle {
        SampledSize(start, level, lo, Reached(level), now, sampled', expired', gone');
        PassGoesOn(start.expire.Keys, hash, level, lo, at, want, sampled');
      }
    }

    /** Samples buckets until enough keys were seen or the cursor is back at 0. It removes exactly the
        stale keys between the old and the new cursor in scan order. */
    method SamplePass(keysToSample: nat, now: Time) returns (sampled: nat, expired: nat, ghost gone: set<Key>)
      requires Valid() && 0 < keysToSample <= |service.View().expire|
      modifies this`bucketIndex, service.Repr()
      ensures fresh(service.Repr() - old(service.Repr()))
      ensures service.Unshared() == old(service.Unshared()) - gone
      ensures PassDone(old(service.expire.rehashing), old(service.View()), old(service.expire.level),
                       RevK(Val(old(bucketIndex)), old(service.expire.level)), keysToSample, now, sampled, expired,
                           gone)
    {
      hide Service.Valid;
      hide Service.Unshared;
      hide Val;
      hide RevK;
      hide Pow2;
      hide OnPass;
      hide PassDone;
      ghost var start, level := service.View(), service.expire.level;
      ghost var idle, lo := service.expire.rehashing, RevK(Val(bucketIndex), level);
      sampled, expired, gone := 0, 0, {};
      PassOpens(keysToSample, now);
      while sampled < keysToSample
        invariant if sampled < keysToSample
                    then OnPass(idle, start, level, lo, keysToSample, now, sampled, expired, gone)
                  else PassDone(idle, start, level, lo, keysToSample, now, sampled, expired, gone)
        invariant fresh(service.Repr() - old(service.Repr()))
        invariant service.Unshared() == old(service.Unshared()) - gone
        invariant sampled < keysToSample ==> RevK(Val(bucketIndex), level) < Pow2(level)
        decreases if sampled < keysToSample then Pow2(level) - RevK(Val(bucketIndex), level) else 0
      {
        sampled, expired, gone := NextBucket(keysToSample, now, sampled, expired, idle, start, level, lo, gone);
        if bucketIndex == 0 {
          break;
        }
      }
    }

    method CountDeadlines() returns (n: nat)
      requires Valid()
      ensures n == |service.View().expire|
    {
      hide Table.Intact;
      n := service.expire.Count();
    }

    lemma PassOver(idle: bool, start: Tables, level: nat, lo: nat, want: nat, now: Time, sampled: nat, expired: nat,
                   gone: set<Key>)
      requires PassDone(idle, start, level, lo, want, now, sampled, expired, gone)
      ensures Valid() && expired == |gone| && service.View() == Reaped(start, gone) && service.expire.level >= level
      ensures idle ==> sampled == 0 && gone == {}
      ensures !idle ==>
                && !service.expire.rehashing && service.expire.level == level && lo < Pow2(level)
                && var end := PassEnd(start.expire.Keys, service.expire.ht.hash, level, lo, lo + 1, want);
                   && Passed(start.expire, service.expire.ht.hash, level, lo, end, now, sampled, gone)
                   && RevK(Val(bucketIndex), level) == if end == Pow2(level) then 0 else end
    {
      hide Service.Valid;
      hide Val;
      hide RevK;
      hide Pow2;
      hide Passed;
      hide PassEnd;
      ReapedTwice(start, {}, {});
      ValZero(bucketIndex);
      RevKOfZero(level);
      CursorBound();
      if !idle {
        CursorStep(Val(bucketIndex), level);
      }
    }

    /** One pass, added to what earlier passes removed. */
    method Round(keysToSample: nat, now: Time, ghost c: Cycle, ghost start: Tables, ghost gone: set<Key>)
        returns (sampled: nat, expired: nat, ghost gone': set<Key>)
      requires Valid() && 0 < keysToSample == Want(c.perLoop, |service.View().expire|)
      requires c.hash == service.expire.ht.hash && c.now == now
      requires (!service.expire.rehashing ==> c.level == service.expire.level)
      requires service.View() == Reaped(start, gone) && gone <= AllStale(start, now)
      modifies this`bucketIndex, service.Repr()
      ensures Valid() && fresh(service.Repr() - old(service.Repr()))
      ensures service.Unshared() == old(service.Unshared()) - gone' && gone <= gone'
      ensures service.expire.level >= old(service.expire.level)
      ensures service.View() == Reaped(start, gone') && gone <= gone' <= AllStale(start, now)
      ensures |gone'| == |gone| + expired
      ensures |service.View().expire| == |old(service.View()).expire| - expired && expired <= sampled
      ensures if old(service.expire.rehashing) then sampled == 0 && gone' == gone
              else !service.expire.rehashing && service.expire.level == old(service.expire.level)
      ensures !old(service.expire.rehashing) ==>
                var lo := RevK(Val(old(bucketIndex)), c.level);
                lo < Pow2(c.level) && PassTook(c, old(service.View()).expire, lo, gone, sampled, expired, gone',
                    RevK(Val(bucketIndex), c.level))
    {
      hide Service.Valid;
      hide Service.Unshared;
      hide Service.View;
      hide Valid;
      hide PassDone;
      hide Val;
      hide RevK;
      hide Pow2;
      hide AllStale;
      hide Passed;
      hide Reaped;
      hide PassTook;
      hide PassEnd;
      ghost var idle, hash, level, before :=
          service.expire.rehashing, service.expire.ht.hash, service.expire.level, service.View();
      ghost var lo := RevK(Val(bucketIndex), level);
      ReapedTwice(start, gone, {});
      Apart(start, gone);
      ghost var out;
      sampled, expired, out := SamplePass(keysToSample, now);
      PassOver(idle, before, level, lo, keysToSample, now, sampled, expired, out);
      gone' := gone + out;
      if !idle {
        ghost var end := PassEnd(before.expire.Keys, hash, level, lo, lo + 1, keysToSample);
        RoundStep(start, gone, hash, level, lo, end, now, sampled, out, gone');
        PassTaken(c, before.expire, lo, gone, sampled, out, RevK(Val(bucketIndex), level));
      }
    }

    /** What holds before and after each pass of an active expiry that started on tables `start`. */
    ghost predicate Cleaned(c: Cycle, start: Tables, busy: bool, gone: set<Key>, sampled: nat, expired: nat)
      reads this, service.data, service.expire, service.Repr()
    {
      && Valid() && service.View() == Reaped(start, gone) && gone <= AllStale(start, c.now) && expired == |gone|
      && service.expire.level >= c.level && service.expire.ht.hash == c.hash
      && keysPerLoop == c.perLoop && threshold == c.threshold
      && if busy then gone == {} && sampled == 0 else !service.expire.rehashing && service.expire.level == c.level
    }

    /** The reversed position of the cursor. */
    ghost function At(c: Cycle): nat
      reads this
    {
      RevK(Val(bucketIndex), c.level)
    }

    /** One pass of the loop. */
    method Advance(keysToSample: nat, now: Time, ghost round: nat, ghost sampledKeys: nat, ghost expiredKeys: nat,
                   ghost c: Cycle, ghost all: (set<Key>, nat, nat), ghost start: Tables, ghost busy: bool,
                   ghost gone: set<Key>)
        returns (sampled: nat, expired: nat, ghost gone': set<Key>)
      requires Cleaned(c, start, busy, gone, sampledKeys, expiredKeys) && c.now == now
      requires 0 < keysToSample == Want(c.perLoop, |service.View().expire|)
      requires if busy then service.expire.rehashing
                 else Midway(c, all, gone, service.View().expire, At(c), round, sampledKeys)
      modifies this`bucketIndex, service.Repr()
      ensures fresh(service.Repr() - old(service.Repr()))
      ensures service.Unshared() == old(service.Unshared()) - gone' && gone <= gone'
      ensures Cleaned(c, start, busy, gone', sampledKeys + sampled, expiredKeys + expired)
      ensures |service.View().expire| == |old(service.View()).expire| - expired && (sampled == 0 ==> expired == 0)
      ensures busy ==> sampled == 0
      ensures !busy ==>
                if sampled == 0 then all == (gone', sampledKeys, At(c))
                else if Stops(c, expired, sampled, round, sampledKeys + sampled)
                    then all == (gone', sampledKeys + sampled, At(c))
                else Midway(c, all, gone', service.View().expire, At(c), round + 1, sampledKeys + sampled)
    {
      hide Service.Valid;
      hide Service.Unshared;
      hide Service.View;
      hide Valid;
      hide AllStale;
      hide Reaped;
      hide Midway;
      hide PassTook;
      hide Stops;
      hide Want;
      hide Val;
      hide RevK;
      hide Pow2;
      ghost var lo := At(c);
      sampled, expired, gone' := Round(keysToSample, now, c, start, gone);
      if !busy {
        NextPass(c, all, start, gone, lo, round, sampledKeys, sampled, expired, gone', At(c));
      }
    }

    lemma CleanedSettings(c: Cycle, start: Tables, busy: bool, gone: set<Key>, sampled: nat, expired: nat)
      requires Cleaned(c, start, busy, gone, sampled, expired)
      ensures Valid() && keysPerLoop == c.perLoop && threshold == c.threshold
      ensures service.Unshared() == service.Unshared() - gone
    {
      hide Service.Valid;
      hide Service.Unshared;
      hide Val;
      hide Reaped;
      Apart(start, gone);
    }

    /** One round of the loop. */
    method Iterate(now: Time, timeUp: nat -> bool, maxSamples: nat, round: nat, sampledKeys: nat, expiredKeys: nat,
                   ghost c: Cycle, ghost all: (set<Key>, nat, nat), ghost start: Tables, ghost busy: bool,
                   ghost gone: set<Key>)
        returns (goOn: bool, sampledKeys': nat, expiredKeys': nat, ghost gone': set<Key>)
      requires Cleaned(c, start, busy, gone, sampledKeys, expiredKeys)
      requires c.now == now && c.timeUp == timeUp && c.maxSamples == maxSamples
      requires if busy then service.expire.rehashing
                 else Midway(c, all, gone, service.View().expire, At(c), round, sampledKeys)
      modifies this`bucketIndex, service.Repr()
      ensures fresh(service.Repr() - old(service.Repr()))
      ensures service.Unshared() == old(service.Unshared()) - gone' && gone <= gone'
      ensures Cleaned(c, start, busy, gone', sampledKeys', expiredKeys')
      ensures busy ==> !goOn
      ensures !busy && goOn ==>
                && Midway(c, all, gone', service.View().expire, At(c), round + 1, sampledKeys')
                && |service.View().expire| < |old(service.View()).expire|
      ensures !busy && !goOn ==> all == (gone', sampledKeys', At(c))
    {
      hide Service.Valid;
      hide Service.Unshared;
      hide Service.View;
      hide Valid;
      hide Cleaned;
      hide Acceptable;
      hide Midway;
      hide Want;
      hide At;
      CleanedSettings(c, start, busy, gone, sampledKeys, expiredKeys);
      goOn, sampledKeys', expiredKeys', gone' := false, sampledKeys, expiredKeys, gone;
      var count := CountDeadlines();
      var keysToSample := Want(keysPerLoop, count);
      if keysToSample == 0 {
        if !busy {
          NoPass(c, all, gone, service.View().expire, At(c), round, sampledKeys);
        }
        return;
      }
      var sampled, expired;
      sampled, expired, gone' :=
        Advance(keysToSample, now, round, sampledKeys, expiredKeys, c, all, start, busy, gone);
      if sampled == 0 {
        return;
      }
      sampledKeys', expiredKeys' := sampledKeys + sampled, expiredKeys + expired;
      SomeExpired(expired, sampled, threshold);
      goOn := !Acceptable(expired, sampled, threshold) && !timeUp(round) && sampledKeys' != maxSamples;
    }

    /** Passes along the cursor until few of the sampled keys are stale, time is up or as many keys were
        sampled as there were. It ends without help from the clock, since going on takes a removed key. */
    method ActiveExpire(now: Time, timeUp: nat -> bool)
        returns (sampledKeys: nat, expiredKeys: nat, ghost gone: set<Key>)
      requires Valid()
      modifies this`bucketIndex, service.Repr()
      ensures Valid() && fresh(service.Repr() - old(service.Repr()))
      ensures service.Unshared() == old(service.Unshared()) - gone
      ensures service.expire.level >= old(service.expire.level)
      ensures service.View() == Reaped(old(service.View()), gone) && expiredKeys == |gone|
      ensures gone <= AllStale(old(service.View()), now)
      ensures old(service.expire.rehashing) ==> gone == {} && sampledKeys == 0
      ensures !old(service.expire.rehashing) ==>
                var c := old(CycleNow(now, timeUp));
                && (gone, sampledKeys, At(c)) == Removed(c, old(service.View()).expire, old(At(c)), 0, 0)
                && exists passes :: Ran(c, old(service.View()).expire, old(At(c)), 0, 0, passes)
                    && gone == FoundIn(c, passes) && sampledKeys == SeenIn(c, passes)
      ensures !old(service.expire.rehashing) && old(bucketIndex) == 0 && keysPerLoop >= |old(service.View()).expire| ==>
                gone == AllStale(old(service.View()), now)
    {
      hide Service.Valid;
      hide Service.Unshared;
      hide Valid;
      hide AllStale;
      hide Reaped;
      hide Midway;
      hide Ran;
      hide FoundIn;
      hide SeenIn;
      hide Val;
      hide RevK;
      hide Pow2;
      ghost var start, busy := service.View(), service.expire.rehashing;
      ghost var c, level := CycleNow(now, timeUp), service.expire.level;
      var maxSamples := CountDeadlines();
      CursorBound();
      CursorStep(Val(bucketIndex), c.level);
      ValZero(bucketIndex);
      RevKOfZero(c.level);
      ghost var lo := At(c);
      ghost var all := Removed(c, start.expire, lo, 0, 0);
      AtFirst(c, start.expire, lo);
      ghost var passes := RemovedInPasses(c, start.expire, lo, 0, 0);
      hide Removed;
      sampledKeys, expiredKeys, gone := 0, 0, {};
      Untouched(start, now);
      assert Cleaned(c, start, busy, gone, sampledKeys, expiredKeys);
      hide Service.View;
      hide Cleaned;
      var round, goOn := 0, true;
      while goOn
        invariant Cleaned(c, start, busy, gone, sampledKeys, expiredKeys)
        invariant fresh(service.Repr() - old(service.Repr()))
        invariant service.Unshared() == old(service.Unshared()) - gone
        invariant !busy ==> if goOn then Midway(c, all, gone, service.View().expire, At(c), round, sampledKeys)
                            else all == (gone, sampledKeys, At(c))
        invariant busy && goOn ==> service.expire.rehashing
        decreases if goOn then 1 + |service.View().expire| else 0
      {
        goOn, sampledKeys, expiredKeys, gone :=
          Iterate(now, timeUp, maxSamples, round, sampledKeys, expiredKeys, c, all, start, busy, gone);
        round := round + 1;
      }
      CleanedMeans(c, start, busy, gone, sampledKeys, expiredKeys);
      WholeTable(c, start, lo);
    }

    lemma CleanedMeans(c: Cycle, start: Tables, busy: bool, gone: set<Key>, sampled: nat, expired: nat)
      requires Cleaned(c, start, busy, gone, sampled, expired)
      ensures Valid() && service.View() == Reaped(start, gone) && gone <= AllStale(start, c.now) && expired == |gone|
      ensures service.expire.level >= c.level && (busy ==> gone == {} && sampled == 0)
    {
    }

    /** The settings that this round of active expiry works with. */
    ghost function CycleNow(now: Time, timeUp: nat -> bool): Cycle
      reads this, service.data, service.expire
    {
      Cycle(service.expire.ht.hash, service.expire.level, now, keysPerLoop, threshold, timeUp, |service.View().expire|)
    }
  }

  /** What one pass that started at `lo` on the deadlines `expire` did, and where it left the cursor. */
  ghost predicate PassTook(c: Cycle, expire: map<Key, Time>, lo: nat, gone: set<Key>, sampled: nat, expired: nat,
                           gone': set<Key>, next: nat)
    requires lo < Pow2(c.level)
  {
    var region := Region(c, expire, lo);
    var out := StaleOf(expire, region, c.now);
    && sampled == |region| && expired == |out| && gone' == gone + out && next == Onward(c, expire, lo)
  }

  lemma PassTaken(c: Cycle, expire: map<Key, Time>, lo: nat, gone: set<Key>, sampled: nat, out: set<Key>, next: nat)
    requires lo < Pow2(c.level)
    requires var end := PassEnd(expire.Keys, c.hash, c.level, lo, lo + 1, Want(c.perLoop, |expire|));
             && Passed(expire, c.hash, c.level, lo, end, c.now, sampled, out)
             && next == if end == Pow2(c.level) then 0 else end
    ensures PassTook(c, expire, lo, gone, sampled, |out|, gone + out, next)
  {
    hide PassEnd;
    hide KeysBetween;
    hide StaleOf;
    hide Pow2;
  }

  lemma NoPass(c: Cycle, all: (set<Key>, nat, nat), gone: set<Key>, expire: map<Key, Time>, lo: nat, round: nat,
               sampled: nat)
    requires Midway(c, all, gone, expire, lo, round, sampled) && Want(c.perLoop, |expire|) == 0
    ensures all == (gone, sampled, lo)
  {
    hide *;
    MidwayMeans(c, all, gone, expire, lo, round, sampled);
    OnePass(c, all, gone, expire, lo, round, sampled);
  }

  /** How a pass takes the round of passes further. */
  lemma NextPass(c: Cycle, all: (set<Key>, nat, nat), start: Tables, gone: set<Key>, lo: nat, round: nat, sampled: nat,
                 more: nat, expired: nat, gone': set<Key>, next: nat)
    requires var left := Reaped(start, gone).expire;
             && Midway(c, all, gone, left, lo, round, sampled) && Want(c.perLoop, |left|) > 0
             && lo < Pow2(c.level) && PassTook(c, left, lo, gone, more, expired, gone', next)
    ensures if more == 0 then all == (gone', sampled, next)
            else if Stops(c, expired, more, round, sampled + more) then all == (gone', sampled + more, next)
            else Midway(c, all, gone', Reaped(start, gone').expire, next, round + 1, sampled + more)
  {
    hide Midway;
    hide Region;
    hide Onward;
    hide Want;
    hide Stops;
    hide Pow2;
    var left := Reaped(start, gone).expire;
    var out := StaleOf(left, Region(c, left, lo), c.now);
    OnePass(c, all, gone, left, lo, round, sampled);
    MinusTwice(start.expire, gone, out);
    assert more == 0 ==> gone + out == gone;
  }

  /** A pass over the whole table removes everything that is stale. */
  lemma WholeTable(c: Cycle, start: Tables, lo: nat)
    requires lo < Pow2(c.level)
    ensures lo == 0 && c.perLoop >= |start.expire| && c.maxSamples == |start.expire| ==>
              Removed(c, start.expire, lo, 0, 0).0 == AllStale(start, c.now)
  {
    if lo == 0 && c.perLoop >= |start.expire| && c.maxSamples == |start.expire| {
      RemovedIs(c, start.expire, 0, 0, 0);
      hide Removed;
      PassReaches(start.expire.Keys, c.hash, c.level, 1, |start.expire|);
      WholeRegion(start.expire.Keys, c.hash, c.level, EndOf(c, start.expire, 0));
    }
  }

  lemma {:induction false} PassReaches(keys: set<Key>, hash: Key -> nat, level: nat, hi: nat, want: nat)
    requires 0 < hi <= Pow2(level)
    ensures var end := PassEnd(keys, hash, level, 0, hi, want);
            end == Pow2(level) || |KeysBetween(keys, hash, level, 0, end)| >= want
    decreases Pow2(level) - hi
  {
    hide KeysBetween;
    if hi < Pow2(level) && |KeysBetween(keys, hash, level, 0, hi)| < want {
      PassReaches(keys, hash, level, hi + 1, want);
    }
  }

  /** The percentage of stale keys among the sampled ones is at most the threshold. The product is a 32-bit one. */
  predicate Acceptable(expired: nat, sampled: nat, threshold: nat) {
    expired * 100 % 0x1_0000_0000 <= threshold * sampled
  }

  /** The most stale keys whose hundredfold fits in 32 bits. */
  const MAX_EXPIRED: nat := 42_949_672

  /** What the 32-bit product decides: never to stop above the threshold unless it wraps, and to stop at or below it. */
  lemma Percentage(expired: nat, sampled: nat, threshold: nat)
    requires sampled > 0
    ensures Within(expired, sampled, threshold) ==> Acceptable(expired, sampled, threshold)
    ensures expired <= MAX_EXPIRED ==> (Acceptable(expired, sampled, threshold) <==>
              Within(expired, sampled, threshold))
  {
    Scaled(expired, sampled, threshold);
    assert expired * 100 % 0x1_0000_0000 <= expired * 100;
    assert expired <= MAX_EXPIRED ==> expired * 100 % 0x1_0000_0000 == expired * 100;
  }

  lemma Scaled(expired: nat, sampled: nat, threshold: nat)
    requires sampled > 0
    ensures Within(expired, sampled, threshold) <==> expired * 100 <= threshold * sampled
  {
    var e, n, t := expired as real, sampled as real, threshold as real;
    assert (threshold * sampled) as real == t * n;
    assert (expired * 100) as real == e * 100.0;
    var rate := e * 100.0 / n;
    assert rate * n == e * 100.0;
    if rate <= t {
      assert rate * n <= t * n;
    } else {
      assert rate * n > t * n;
    }
  }

  /** The rule is the percentage rule for all thresholds and samples. */
  ghost predicate RuleHolds(expired: nat) {
    forall sampled: nat, threshold: nat :: 0 < sampled && expired <= sampled ==>
        (Acceptable(expired, sampled, threshold) <==> Within(expired, sampled, threshold))
  }

  /** Exactly up to `MAX_EXPIRED` stale keys in a pass. With more, all stale, a threshold of 99 percent is met. */
  lemma RuleHoldsExactly(expired: nat)
    ensures RuleHolds(expired) <==> expired <= MAX_EXPIRED
  {
    if expired <= MAX_EXPIRED {
      forall sampled: nat, threshold: nat | 0 < sampled && expired <= sampled
        ensures Acceptable(expired, sampled, threshold) <==> Within(expired, sampled, threshold)
      {
        Percentage(expired, sampled, threshold);
      }
    } else {
      Scaled(expired, expired, 99);
      assert Acceptable(expired, expired, 99) by {
        Wraps(expired * 100, expired);
      }
    }
  }

  lemma Wraps(product: nat, n: nat)
    requires product == n * 100 && product >= 0x1_0000_0000
    ensures product % 0x1_0000_0000 <= 99 * n
  {
    assert product % 0x1_0000_0000 <= product - 0x1_0000_0000;
  }

  lemma SomeExpired(expired: nat, sampled: nat, threshold: nat)
    ensures expired == 0 ==> Acceptable(expired, sampled, threshold)
  {
    assert threshold * sampled >= 0;
  }

  function AllStale(t: Tables, now: Time): set<Key> {
    StaleOf(t.expire, t.expire.Keys, now)
  }

  lemma Untouched(start: Tables, now: Time)
    ensures Reaped(start, {}) == start
    ensures {} <= AllStale(start, now)
    ensures start.expire == map[] ==> AllStale(start, now) == {}
  {
    ReapedTwice(start, {}, {});
  }

  lemma RoundStep(start: Tables, gone: set<Key>, hash: Key -> nat, level: nat, lo: nat, hi: nat, now: Time,
                  sampled: nat, out: set<Key>, all: set<Key>)
    requires gone <= AllStale(start, now) && all == gone + out
    requires Passed(Reaped(start, gone).expire, hash, level, lo, hi, now, sampled, out)
    ensures all <= AllStale(start, now) && |all| == |gone| + |out|
    ensures Reaped(Reaped(start, gone), out) == Reaped(start, all)
    ensures |Reaped(start, all).expire| == |Reaped(start, gone).expire| - |out| && |out| <= sampled
    ensures gone == {} && lo == 0 && (hi == Pow2(level) || sampled >= |start.expire|) ==> all == AllStale(start, now)
  {
    hide KeysBetween;
    hide RevK;
    hide Pow2;
    ReapedTwice(start, gone, out);
    var left := Reaped(start, gone).expire;
    var region := KeysBetween(left.Keys, hash, level, lo, hi);
    RemovedFrom(start.expire, gone, left, region, now, out);
    if lo == 0 {
      WholeRegion(left.Keys, hash, level, hi);
    }
  }

  /** What one pass removes from the deadlines `left`, of which `region` were sampled. */
  lemma RemovedFrom(expire: map<Key, Time>, gone: set<Key>, left: map<Key, Time>, region: set<Key>, now: Time,
                    out: set<Key>)
    requires gone <= StaleOf(expire, expire.Keys, now) && left == expire - gone && out == StaleOf(left, region, now)
    ensures out <= StaleOf(expire, expire.Keys, now) && gone !! out
    ensures |left - out| == |left| - |out| && |out| <= |region|
    ensures gone == {} && region == left.Keys ==> out == StaleOf(expire, expire.Keys, now)
  {
    SubsetSize(out, region);
    RemainingSize(left, out);
    if gone == {} {
      assert left == expire;
    }
  }

  lemma RemainingSize(left: map<Key, Time>, out: set<Key>)
    requires out <= left.Keys
    ensures |left - out| == |left| - |out|
  {
    assert left.Keys == (left - out).Keys + out;
  }

  /** A pass that starts at position 0 and comes to the end, or samples as many keys as there are, samples all. */
  lemma WholeRegion(keys: set<Key>, hash: Key -> nat, level: nat, hi: nat)
    ensures KeysBetween(keys, hash, level, 0, hi) <= keys
    ensures hi == Pow2(level) || |KeysBetween(keys, hash, level, 0, hi)| >= |keys| ==>
              KeysBetween(keys, hash, level, 0, hi) == keys
  {
    var region := KeysBetween(keys, hash, level, 0, hi);
    if |region| >= |keys| {
      SameSize(region, keys);
    }
  }
}
