/** Whole runs of the server: commands with the evictions before them, the cron job's active expiry and its
    rehashing, in any order. */
module ServiceRuns {
  import opened Arithmetic
  import opened Chaining
  import opened Collections
  import opened DataService
  import opened Eviction
  import EvictionPools
  import opened Expiry
  import opened HashTables
  import opened Invisibility
  import opened Keyspace
  import opened TableAccess
  import opened Words

  /** A command, with the tracked bytes that evictions give back before it and that its handler leaves; or a cron
      round with the three limits on how long it expires keys, rehashes the data table and rehashes the deadline
      table: each says after which round its time is up. */
  datatype Action =
    | Call(at: Time, cmd: Command, release: nat -> nat, handled: nat -> nat)
    | Cron(at: Time, expiry: nat -> bool, dataRehash: nat -> bool, expireRehash: nat -> bool)

  // ---------------------------------------------------------------- what clients hear

  /** What the tables answer over a run. */
  function Replies(t: Tables, events: seq<Event>): seq<Outcome>
    decreases |events|
  {
    if events == [] then [] else Heard(t, events[0]) + Replies(Step(t, events[0]), events[1..])
  }

  function Heard(t: Tables, e: Event): seq<Outcome> {
    match e
    case Do(at, cmd) => [Done(Answer(t, cmd, at))]
    case Refuse => [OutOfMemory]
    case _ => []
  }

  /** What the clients' store answers, when it forgets what is evicted and refuses what is refused. */
  function StoreReplies(s: Store, events: seq<Event>): seq<Outcome>
    decreases |events|
  {
    if events == [] then [] else StoreHeard(s, events[0]) + StoreReplies(StoreStep(s, events[0]), events[1..])
  }

  function StoreHeard(s: Store, e: Event): seq<Outcome> {
    match e
    case Do(at, cmd) => [Done(StoreAnswer(s, cmd, at))]
    case Refuse => [OutOfMemory]
    case _ => []
  }

  /** Tables that cannot be told from the store answer as the store does. */
  lemma {:induction false} SameReplies(t: Tables, s: Store, events: seq<Event>)
    requires Indistinguishable(t, s, events)
    ensures Replies(t, events) == StoreReplies(s, events)
    decreases |events|
  {
    hide Step;
    hide StoreStep;
    hide Answer;
    hide StoreAnswer;
    hide Visible;
    hide Current;
    if events != [] {
      SameReplies(Step(t, events[0]), StoreStep(s, events[0]), events[1..]);
    }
  }

  // ---------------------------------------------------------------- keys with two key objects

  function SplitStep(t: Tables, split: set<Key>, e: Event): set<Key> {
    match e
    case Do(at, cmd) => SplitAfter(t, split, cmd, at)
    case Reap(_, gone) => split - gone
    case Drop(gone) => split - gone
    case Refuse => split
  }

  /** The keys with two key objects after a run. */
  function SplitRun(t: Tables, split: set<Key>, events: seq<Event>): set<Key>
    decreases |events|
  {
    if events == [] then split else SplitRun(Step(t, events[0]), SplitStep(t, split, events[0]), events[1..])
  }

  /** No command of the run fails the assertion on key objects. */
  ghost predicate AllHold(t: Tables, split: set<Key>, events: seq<Event>)
    decreases |events|
  {
    events == [] ||
    (&& (events[0].Do? ==> !Fails(t, split, events[0].cmd, events[0].at))
     && AllHold(Step(t, events[0]), SplitStep(t, split, events[0]), events[1..]))
  }

  /** Only GETEX makes a key have two key objects. */
  lemma {:induction false} SplitByGetEX(t: Tables, split: set<Key>, events: seq<Event>, key: Key) returns (i: nat)
    requires key in SplitRun(t, split, events) && key !in split
    ensures i < |events| && events[i].Do? && events[i].cmd.GetEX? && events[i].cmd.key == key
    decreases |events|
  {
    hide Step;
    hide After;
    if key in SplitStep(t, split, events[0]) {
      i := 0;
    } else {
      i := SplitByGetEX(Step(t, events[0]), SplitStep(t, split, events[0]), events[1..], key);
      i := i + 1;
    }
  }

  // ---------------------------------------------------------------- from scripts to runs

  /** How the cron job is set up. */
  datatype Cleaner = Cleaner(hash: Key -> nat, perLoop: nat, threshold: nat)

  ghost predicate SweptFrom(c: Cleaner, t: Tables, at: Time, timeUp: nat -> bool, gone: set<Key>, level: nat, lo: nat) {
    && lo < Pow2(level)
    && gone == Removed(Cycle(c.hash, level, at, c.perLoop, c.threshold, timeUp, |t.expire|), t.expire, lo, 0, 0).0
  }

  /** What a cron round removes: nothing in the middle of a rehash, else what active expiry removes from some cursor
      in a deadline table of some size. */
  ghost predicate SweptBy(c: Cleaner, t: Tables, at: Time, timeUp: nat -> bool, gone: set<Key>) {
    gone == {} || exists level, lo :: SweptFrom(c, t, at, timeUp, gone, level, lo)
  }

  /** What an action comes to: a command runs or is refused after some keys were evicted, neither of which happens
      without a memory limit or to a command that does not write. */
  ghost predicate Realises(c: Cleaner, limited: bool, t: Tables, events: seq<Event>, action: Action) {
    match action
    case Call(at, cmd, _, _) =>
      && |events| == 2 && events[0].Drop? && (events[1] == Do(at, cmd) || events[1] == Refuse)
      && (!limited || !IsWrite(cmd) ==> events[0] == Drop({}) && events[1] == Do(at, cmd))
    case Cron(at, expiry, _, _) =>
      |events| == 1 && events[0].Reap? && events[0].at == at && SweptBy(c, t, at, expiry, events[0].gone)
  }

  function Length(action: Action): nat {
    if action.Call? then 2 else 1
  }

  ghost predicate AllRealise(c: Cleaner, limited: bool, t: Tables, events: seq<Event>, script: seq<Action>)
    decreases |script|
  {
    if |script| == 0 then events == []
    else
      var last, n := script[|script| - 1], |events| - Length(script[|script| - 1]);
      && n >= 0 && AllRealise(c, limited, t, events[..n], script[..|script| - 1])
      && Realises(c, limited, AfterRun(t, events[..n]), events[n..], last)
  }

  lemma RealisesMore(c: Cleaner, limited: bool, t: Tables, events: seq<Event>, script: seq<Action>, i: nat,
                     more: seq<Event>)
    requires i < |script| && AllRealise(c, limited, t, events, script[..i])
    requires Realises(c, limited, AfterRun(t, events), more, script[i])
    ensures AllRealise(c, limited, t, events + more, script[..i + 1])
  {
    hide SweptBy;
    hide AfterRun;
    var all := events + more;
    assert script[..i + 1][..i] == script[..i] && script[..i + 1][i] == script[i];
    assert all[..|events|] == events && all[|events|..] == more;
  }

  /** Every command of the run is one of the script. */
  lemma {:induction false} FromScript(c: Cleaner, limited: bool, t: Tables, events: seq<Event>, script: seq<Action>,
                                      k: nat)
      returns (i: nat)
    requires AllRealise(c, limited, t, events, script) && k < |events|
    ensures i < |script|
    ensures events[k].Do? ==> script[i].Call? && events[k] == Do(script[i].at, script[i].cmd)
    ensures events[k].Reap? ==> script[i].Cron? && events[k].at == script[i].at
    decreases |script|
  {
    hide SweptBy;
    hide AfterRun;
    var n := |script| - 1;
    var m := |events| - Length(script[n]);
    if k < m {
      i := FromScript(c, limited, t, events[..m], script[..n], k);
    } else {
      assert events[m..][k - m] == events[k];
      i := n;
    }
  }

  /** The time of commands does not go back. The cron job reads the clock for itself. */
  predicate Timely(script: seq<Action>, now: Time) {
    && (forall i :: 0 <= i < |script| && script[i].Call? ==> now <= script[i].at)
    && (forall i, j :: 0 <= i < j < |script| && script[i].Call? && script[j].Call? ==> script[i].at <= script[j].at)
  }

  /** The cron job's time is never ahead of the commands after it. */
  predicate CronBehind(script: seq<Action>) {
    forall i, j :: 0 <= i < j < |script| && script[i].Cron? && script[j].Call? ==> script[i].at <= script[j].at
  }

  /** The time of the last command. */
  function LastTime(events: seq<Event>, now: Time): Time
    decreases |events|
  {
    if events == [] then now else LastTime(events[1..], if events[0].Do? then events[0].at else now)
  }

  /** The last time is that of some command, or of the start. */
  lemma {:induction false} LastCommand(events: seq<Event>, now: Time) returns (k: nat)
    ensures if k < |events| then events[k].Do? && events[k].at == LastTime(events, now)
              else LastTime(events, now) == now
    decreases |events|
  {
    if events == [] {
      k := 0;
    } else {
      k := LastCommand(events[1..], if events[0].Do? then events[0].at else now);
      if k < |events| - 1 {
        k := k + 1;
      } else {
        k := if events[0].Do? then 0 else |events|;
      }
    }
  }

  lemma Later(c: Cleaner, limited: bool, t: Tables, events: seq<Event>, script: seq<Action>, i: nat, now: Time)
    requires i < |script| && AllRealise(c, limited, t, events, script[..i]) && Timely(script, now)
    ensures script[i].Call? ==> LastTime(events, now) <= script[i].at
  {
    hide AllRealise;
    var k := LastCommand(events, now);
    if k < |events| {
      var j := FromScript(c, limited, t, events, script[..i], k);
      assert script[..i][j] == script[j];
    }
  }

  lemma {:induction false} InOrder(c: Cleaner, limited: bool, t: Tables, events: seq<Event>, script: seq<Action>)
    requires AllRealise(c, limited, t, events, script) && CronBehind(script)
    ensures forall i, j :: 0 <= i < j < |events| && events[i].Reap? && events[j].Do? ==> events[i].at <= events[j].at
    decreases |script|
  {
    hide SweptBy;
    hide AfterRun;
    if |script| > 0 {
      var n := |script| - 1;
      var m := |events| - Length(script[n]);
      InOrder(c, limited, t, events[..m], script[..n]);
      forall i, j | 0 <= i < j < |events| && events[i].Reap? && events[j].Do? ensures events[i].at <= events[j].at {
        assert j >= m ==> events[m..][j - m] == events[j];
        if i < m {
          var k := FromScript(c, limited, t, events[..m], script[..n], i);
        }
      }
    }
  }

  // ---------------------------------------------------------------- how much a command adds

  lemma {:induction false} ListGrowth(t: Tables, keys: seq<Key>, now: Time)
    ensures |ExpireAll(t, keys, now).data| <= |t.data| && |DeleteAll(t, keys, now).data| <= |t.data|
    decreases |keys|
  {
    if keys != [] {
      MapMinusSize(t.data, {keys[0]});
      ListGrowth(Expire(t, keys[0], now), keys[1..], now);
      ListGrowth(DeleteOne(t, keys[0], now), keys[1..], now);
      MapMinusSize(Expire(t, keys[0], now).data, {keys[0]});
    }
  }

  lemma {:induction false} SetAllGrowth(t: Tables, pairs: seq<(Key, Value)>)
    ensures |SetAll(t, pairs).data| <= |t.data| + |pairs|
    decreases |pairs|
  {
    if pairs != [] {
      SetAllGrowth(Tables(t.data[pairs[0].0 := pairs[0].1], t.expire - {pairs[0].0}), pairs[1..]);
    }
  }

  lemma SingleGrowth(t: Tables, cmd: Command, now: Time)
    requires cmd.Get? || cmd.Strlen? || cmd.Ttl? || cmd.GetDel? || cmd.GetEX?
    ensures |After(t, cmd, now).data| <= |t.data|
  {
    var key := cmd.key;
    MapMinusSize(t.data, {key});
    assert Expire(t, key, now).data == t.data || Expire(t, key, now).data == t.data - {key};
    assert DeleteOne(t, key, now).data == t.data || DeleteOne(t, key, now).data == t.data - {key};
    hide Expire;
    hide DeleteOne;
  }

  lemma CommandGrowth(t: Tables, cmd: Command, now: Time)
    ensures |After(t, cmd, now).data| <= |t.data| + Growth(cmd)
  {
    hide ExpireAll;
    hide DeleteAll;
    hide SetAll;
    hide Keyspace.SetData;
    hide Expire;
    hide DeleteOne;
    hide Alive;
    match cmd
    case MGet(keys) => ListGrowth(t, keys, now);
    case Exists(keys) => ListGrowth(t, keys, now);
    case Del(keys) => ListGrowth(t, keys, now);
    case MSet(pairs) => SetAllGrowth(t, pairs);
    case SetNX(key, value) => SetGrows(t, key, value, NX, false, now);
    case SetEX(key, value, at) =>
    case Set(key, value, mode, deadline, keepTtl, get) => SetGrows(t, key, value, mode, get, now);
    case _ => SingleGrowth(t, cmd, now);
  }

  // ---------------------------------------------------------------- one run after another

  /** What a run does to the tables and to the keys with two key objects, and what is heard of it. */
  ghost predicate Ran(t: Tables, split: set<Key>, events: seq<Event>, now: Time, after: Tables, splitAfter: set<Key>,
                      heard: seq<Outcome>) {
    && Run(t, events, now) && AllHold(t, split, events)
    && after == AfterRun(t, events) && splitAfter == SplitRun(t, split, events) && heard == Replies(t, events)
  }

  lemma {:induction false} RanOn(t: Tables, split: set<Key>, a: seq<Event>, b: seq<Event>, now: Time, mid: Tables,
                                 splitMid: set<Key>, heard: seq<Outcome>, after: Tables, splitAfter: set<Key>,
                                 more: seq<Outcome>)
    requires Ran(t, split, a, now, mid, splitMid, heard)
    requires Ran(mid, splitMid, b, LastTime(a, now), after, splitAfter, more)
    ensures Ran(t, split, a + b, now, after, splitAfter, heard + more)
    decreases |a|
  {
    hide Ran;
    hide Step;
    hide SplitStep;
    hide Heard;
    hide Fails;
    hide Possible;
    hide Replies;
    if a == [] {
      assert a + b == b;
      NoneRan(t, split, now, mid, splitMid, heard);
      assert [] + more == more;
    } else {
      var e, rest := a[0], a[1..];
      assert a == [e] + rest && a + b == [e] + (rest + b);
      RanTail(t, split, e, rest, now, mid, splitMid, heard);
      var later := Replies(Step(t, e), rest);
      RanOn(Step(t, e), SplitStep(t, split, e), rest, b, if e.Do? then e.at else now, mid, splitMid, later,
            after, splitAfter, more);
      RanHead(t, split, e, rest + b, now, after, splitAfter, later + more);
      assert Heard(t, e) + later + more == Heard(t, e) + (later + more);
    }
  }

  lemma NoneRan(t: Tables, split: set<Key>, now: Time, after: Tables, splitAfter: set<Key>, heard: seq<Outcome>)
    requires Ran(t, split, [], now, after, splitAfter, heard)
    ensures after == t && splitAfter == split && heard == []
  {
  }

  lemma RanTail(t: Tables, split: set<Key>, e: Event, rest: seq<Event>, now: Time, after: Tables, splitAfter: set<Key>,
                heard: seq<Outcome>)
    requires Ran(t, split, [e] + rest, now, after, splitAfter, heard)
    ensures Possible(t, e) && (e.Do? ==> now <= e.at && !Fails(t, split, e.cmd, e.at))
    ensures Ran(Step(t, e), SplitStep(t, split, e), rest, if e.Do? then e.at else now, after, splitAfter,
                Replies(Step(t, e), rest))
    ensures heard == Heard(t, e) + Replies(Step(t, e), rest)
  {
    hide Step;
    hide SplitStep;
    hide Heard;
    hide Fails;
    hide Possible;
    assert ([e] + rest)[1..] == rest;
  }

  lemma RanHead(t: Tables, split: set<Key>, e: Event, rest: seq<Event>, now: Time, after: Tables, splitAfter: set<Key>,
                later: seq<Outcome>)
    requires Possible(t, e) && (e.Do? ==> now <= e.at && !Fails(t, split, e.cmd, e.at))
    requires Ran(Step(t, e), SplitStep(t, split, e), rest, if e.Do? then e.at else now, after, splitAfter, later)
    ensures Ran(t, split, [e] + rest, now, after, splitAfter, Heard(t, e) + later)
  {
    hide Step;
    hide SplitStep;
    hide Heard;
    hide Fails;
    hide Possible;
    assert ([e] + rest)[1..] == rest;
  }

  /** The events of a command that ended with `outcome` after `gone` were evicted. */
  function CallEvents(at: Time, cmd: Command, gone: set<Key>, outcome: Outcome): seq<Event> {
    match outcome
    case OutOfMemory => [Drop(gone), Refuse]
    case Aborted => [Drop(gone)]
    case Done(_) => [Drop(gone), Do(at, cmd)]
  }

  lemma CallRan(t: Tables, split: set<Key>, at: Time, cmd: Command, gone: set<Key>, outcome: Outcome, now: Time,
                after: Tables, splitAfter: set<Key>)
    requires gone <= t.data.Keys && now <= at
    requires Ends(Reaped(t, gone), split - gone, cmd, at, after, splitAfter, outcome)
    ensures var events, mid := CallEvents(at, cmd, gone, outcome), Reaped(t, gone);
            if outcome == Aborted
            then && Ran(t, split, events, now, mid, split - gone, []) && Fails(mid, split - gone, cmd, at)
                 && after == Halted(mid, cmd, at) && splitAfter == split - gone
            else Ran(t, split, events, now, after, splitAfter, [outcome])
  {
    hide After;
    hide Answer;
    hide Rewrites;
    hide SplitAfter;
    hide Halted;
    var events, mid := CallEvents(at, cmd, gone, outcome), Reaped(t, gone);
    assert Step(t, events[0]) == mid;
    DropRan(t, split, gone, now);
    if outcome != Aborted {
      var e := events[1];
      assert events == [Drop(gone)] + [e];
      OneRan(mid, split - gone, e, now);
      RanOn(t, split, [Drop(gone)], [e], now, mid, split - gone, [], Step(mid, e), SplitStep(mid, split - gone, e),
            Heard(mid, e));
    }
  }

  lemma OneRan(t: Tables, split: set<Key>, e: Event, now: Time)
    requires Possible(t, e) && (e.Do? ==> now <= e.at && !Fails(t, split, e.cmd, e.at))
    ensures Ran(t, split, [e], now, Step(t, e), SplitStep(t, split, e), Heard(t, e))
  {
    hide Step;
    hide SplitStep;
    hide Heard;
    hide Fails;
    hide Possible;
    RanHead(t, split, e, [], now, Step(t, e), SplitStep(t, split, e), []);
    assert [e] + [] == [e] && Heard(t, e) + [] == Heard(t, e);
  }

  lemma DropRan(t: Tables, split: set<Key>, gone: set<Key>, now: Time)
    requires gone <= t.data.Keys
    ensures Ran(t, split, [Drop(gone)], now, Reaped(t, gone), split - gone, []) && LastTime([Drop(gone)], now) == now
  {
    OneRan(t, split, Drop(gone), now);
  }

  // ---------------------------------------------------------------- the run

  /** One cron round: active expiry, then a share of rehashing. */
  method RunCron(expirer: Expirer, now: Time, expiry: nat -> bool, dataRehash: nat -> bool, expireRehash: nat -> bool)
      returns (ghost gone: set<Key>)
    requires expirer.Valid()
    modifies expirer`bucketIndex, expirer.service.Repr()
    ensures expirer.Valid() && expirer.service.Unshared() == old(expirer.service.Unshared()) - gone
    ensures fresh(expirer.service.Repr() - old(expirer.service.Repr()))
    ensures Possible(old(expirer.service.View()), Reap(now, gone))
    ensures expirer.service.View() == Reaped(old(expirer.service.View()), gone)
    ensures SweptBy(CleanerOf(expirer), old(expirer.service.View()), now, expiry, gone)
    ensures |expirer.service.View().data| <= |old(expirer.service.View()).data|
  {
    hide Service.Valid;
    hide Service.Unshared;
    hide Val;
    hide RevK;
    hide Removed;
    ghost var start, busy, c := expirer.service.View(), expirer.service.expire.rehashing, expirer.CycleNow(now, expiry);
    ghost var lo := expirer.At(c);
    expirer.CursorBound();
    CursorStep(Val(expirer.bucketIndex), c.level);
    var sampled, expired;
    sampled, expired, gone := expirer.ActiveExpire(now, expiry);
    assert !busy ==> SweptFrom(CleanerOf(expirer), start, now, expiry, gone, c.level, lo);
    ghost var level := expirer.service.expire.level;
    expirer.service.IncrementalRehashing(dataRehash, expireRehash);
    Pow2Monotone(level, expirer.service.expire.level);
    MapMinusSize(start.data, gone);
  }

  ghost function CleanerOf(expirer: Expirer): Cleaner {
    Cleaner(expirer.service.expire.ht.hash, expirer.keysPerLoop, expirer.threshold)
  }

  /** The parts of a server stand and work on one service. */
  ghost predicate Standing(evictor: Evictor, expirer: Expirer)
    reads evictor, evictor.pool, expirer, evictor.service.data, evictor.service.expire, evictor.service.Repr(),
          expirer.service.data, expirer.service.expire, expirer.service.Repr()
  {
    evictor.service == expirer.service && evictor.Valid() && expirer.Valid()
  }

  method CronAction(evictor: Evictor, expirer: Expirer, action: Action) returns (ghost gone: set<Key>)
    requires Standing(evictor, expirer) && action.Cron?
    modifies expirer`bucketIndex, expirer.service.Repr()
    ensures Standing(evictor, expirer) && expirer.service.Unshared() == old(expirer.service.Unshared()) - gone
    ensures fresh(expirer.service.Repr() - old(expirer.service.Repr()))
    ensures Possible(old(expirer.service.View()), Reap(action.at, gone))
    ensures expirer.service.View() == Reaped(old(expirer.service.View()), gone)
    ensures SweptBy(CleanerOf(expirer), old(expirer.service.View()), action.at, action.expiry, gone)
    ensures |expirer.service.View().data| <= |old(expirer.service.View()).data|
  {
    hide Service.Valid;
    hide Service.Unshared;
    hide Val;
    hide Fair;
    hide EvictionPools.Ordered;
    hide SweptBy;
    hide Reaped;
    hide Possible;
    gone := RunCron(expirer, action.at, action.expiry, action.dataRehash, action.expireRehash);
  }

  method CallAction(evictor: Evictor, expirer: Expirer, action: Action) returns (outcome: Outcome, ghost gone: set<Key>)
    requires Standing(evictor, expirer) && action.Call?
    requires |expirer.service.View().data| + Growth(action.cmd) < MAX_ENTRIES
    modifies evictor`evictedKeys, evictor.tracker`mallocator, evictor.pool`items, evictor.generator`position
    modifies expirer.service.Repr()
    ensures Standing(evictor, expirer) && fresh(expirer.service.Repr() - old(expirer.service.Repr()))
    ensures gone <= old(expirer.service.View()).data.Keys
    ensures Ends(Reaped(old(expirer.service.View()), gone), old(expirer.service.Unshared()) - gone, action.cmd,
              action.at,
                 expirer.service.View(), expirer.service.Unshared(), outcome)
    ensures evictor.maxmemory == 0 || !IsWrite(action.cmd) ==> gone == {} && outcome != OutOfMemory
  {
    hide Service.Valid;
    hide Service.Unshared;
    hide Service.View;
    hide Evictor.Valid;
    hide Val;
    hide Reaped;
    hide Ends;
    hide Remaining;
    hide IsWrite;
    hide Growth;
    ghost var level := expirer.service.expire.level;
    outcome, gone := evictor.Invoke(action.cmd, action.at, action.release, action.handled);
    Pow2Monotone(level, expirer.service.expire.level);
    evictor.ServiceStands();
  }

  function GrowthOf(action: Action): nat {
    if action.Call? then Growth(action.cmd) else 0
  }

  /** How many data entries the script may add. */
  function TotalGrowth(script: seq<Action>, from: nat): nat
    requires from <= |script|
    decreases |script| - from
  {
    if from == |script| then 0 else GrowthOf(script[from]) + TotalGrowth(script, from + 1)
  }

  lemma CallGrowth(t: Tables, split: set<Key>, gone: set<Key>, cmd: Command, now: Time, after: Tables,
                   splitAfter: set<Key>, outcome: Outcome)
    requires Ends(Reaped(t, gone), split, cmd, now, after, splitAfter, outcome) && outcome != Aborted
    ensures |after.data| <= |t.data| + Growth(cmd)
  {
    hide After;
    hide Answer;
    hide Fails;
    hide SplitAfter;
    hide Growth;
    MapMinusSize(t.data, gone);
    CommandGrowth(Reaped(t, gone), cmd, now);
  }

  /** How a command ended that failed the assertion on key objects, after the evictions `events`. */
  ghost predicate Stopped(t: Tables, split: set<Key>, events: seq<Event>, action: Action, after: Tables,
                          splitAfter: set<Key>) {
    && action.Call? && Fails(AfterRun(t, events), SplitRun(t, split, events), action.cmd, action.at)
    && after == Halted(AfterRun(t, events), action.cmd, action.at) && splitAfter == SplitRun(t, split, events)
  }

  /** One step of a run, on a server that stands: what the pure model says, up to a failed assertion. */
  method RunAction(evictor: Evictor, expirer: Expirer, action: Action, ghost now: Time)
      returns (heard: seq<Outcome>, aborted: bool, ghost events: seq<Event>)
    requires Standing(evictor, expirer) && (action.Call? ==> now <= action.at)
    requires |expirer.service.View().data| + GrowthOf(action) < MAX_ENTRIES
    modifies expirer`bucketIndex, evictor`evictedKeys, evictor.tracker`mallocator, evictor.pool`items
    modifies evictor.generator`position, expirer.service.Repr()
    ensures Standing(evictor, expirer) && fresh(expirer.service.Repr() - old(expirer.service.Repr()))
    ensures var t, split := old(expirer.service.View()), old(expirer.service.Unshared());
            if aborted then
              && (exists gone :: events == [Drop(gone)]) && heard == []
              && Ran(t, split, events, now, AfterRun(t, events), SplitRun(t, split, events), [])
              && Stopped(t, split, events, action, expirer.service.View(), expirer.service.Unshared())
            else
              && Ran(t, split, events, now, expirer.service.View(), expirer.service.Unshared(), heard)
              && Realises(CleanerOf(expirer), evictor.maxmemory != 0, t, events, action)
              && |expirer.service.View().data| <= |t.data| + GrowthOf(action)
  {
    hide Service.Valid;
    hide Service.Unshared;
    hide Service.View;
    hide Standing;
    hide SweptBy;
    hide Reaped;
    hide Ends;
    hide Ran;
    hide IsWrite;
    hide Possible;
    hide Fails;
    hide Halted;
    ghost var t, split := expirer.service.View(), expirer.service.Unshared();
    heard, aborted := [], false;
    ghost var gone;
    if action.Call? {
      var outcome;
      outcome, gone := CallAction(evictor, expirer, action);
      events := CallEvents(action.at, action.cmd, gone, outcome);
      CallRan(t, split, action.at, action.cmd, gone, outcome, now, expirer.service.View(), expirer.service.Unshared());
      if outcome == Aborted {
        aborted := true;
        RanMeans(t, split, events, now, Reaped(t, gone), split - gone, []);
      } else {
        heard := [outcome];
        CallGrowth(t, split - gone, gone, action.cmd, action.at, expirer.service.View(), expirer.service.Unshared(),
            outcome);
      }
    } else {
      gone := CronAction(evictor, expirer, action);
      events := [Reap(action.at, gone)];
      ReapRan(t, split, action.at, gone, now);
    }
  }

  lemma RanMeans(t: Tables, split: set<Key>, events: seq<Event>, now: Time, after: Tables, splitAfter: set<Key>,
                 heard: seq<Outcome>)
    requires Ran(t, split, events, now, after, splitAfter, heard)
    ensures Run(t, events, now) && AllHold(t, split, events)
    ensures after == AfterRun(t, events) && splitAfter == SplitRun(t, split, events) && heard == Replies(t, events)
  {
  }

  lemma ReapRan(t: Tables, split: set<Key>, at: Time, gone: set<Key>, now: Time)
    requires Possible(t, Reap(at, gone))
    ensures Ran(t, split, [Reap(at, gone)], now, Reaped(t, gone), split - gone, [])
  {
    OneRan(t, split, Reap(at, gone), now);
  }

  lemma NothingRan(c: Cleaner, limited: bool, t: Tables, split: set<Key>, script: seq<Action>, now: Time)
    ensures Ran(t, split, [], now, t, split, []) && AllRealise(c, limited, t, [], script[..0])
  {
  }

  /** Serves a script of commands and cron rounds, up to the first command that fails the assertion on key objects.
      What happens to the two tables is a run of the pure model, with its replies; no command of the run fails the
      assertion, and if not all of the script was served, the next one does. Clients see what a simple store of
      values and deadlines shows and answers, that forgets what is evicted, removes nothing for being stale and knows
      no cron job, exactly when every SET of the run is faithful and the cron job removes no key whose deadline is
      after the time of the next command. */
  method Serve(evictor: Evictor, expirer: Expirer, script: seq<Action>, now: Time)
      returns (outcomes: seq<Outcome>, served: nat, ghost events: seq<Event>)
    requires Standing(evictor, expirer) && Timely(script, now)
    requires |expirer.service.View().data| + TotalGrowth(script, 0) < MAX_ENTRIES
    modifies expirer`bucketIndex, evictor`evictedKeys, evictor.tracker`mallocator, evictor.pool`items
    modifies evictor.generator`position, expirer.service.Repr()
    ensures Standing(evictor, expirer) && served <= |script|
    ensures var t, split := old(expirer.service.View()), old(expirer.service.Unshared());
            var c, limited := CleanerOf(expirer), evictor.maxmemory != 0;
            && Ran(t, split, events, now, AfterRun(t, events), SplitRun(t, split, events), outcomes)
            && if served == |script| then
                 && AllRealise(c, limited, t, events, script)
                 && expirer.service.View() == AfterRun(t, events)
                 && expirer.service.Unshared() == SplitRun(t, split, events)
               else
                 && events != [] && events[|events| - 1].Drop?
                 && AllRealise(c, limited, t, events[..|events| - 1], script[..served])
                 && Stopped(t, split, events, script[served], expirer.service.View(), expirer.service.Unshared())
    ensures var t := old(expirer.service.View());
            var alike := AllFaithful(t, events) && AllDue(t, events);
            && (Indistinguishable(t, Visible(t, now), events) <==> alike)
            && (alike ==> outcomes == StoreReplies(Visible(t, now), events))
            && Coherent(AfterRun(t, events))
  {
    hide Service.Valid;
    hide Service.Unshared;
    hide Service.View;
    hide Standing;
    hide Ran;
    hide Stopped;
    hide AfterRun;
    hide SplitRun;
    hide Realises;
    hide AllRealise;
    hide Timely;
    hide LastTime;
    hide GrowthOf;
    hide Indistinguishable;
    hide AllFaithful;
    hide AllDue;
    hide Visible;
    hide StoreReplies;
    ghost var t, split := expirer.service.View(), expirer.service.Unshared();
    ghost var c, limited := CleanerOf(expirer), evictor.maxmemory != 0;
    outcomes, events, served := [], [], 0;
    NothingRan(c, limited, t, split, script, now);
    StartsCoherent(evictor, expirer);
    assert script[..|script|] == script;
    while served < |script|
      invariant served <= |script| && Standing(evictor, expirer)
      invariant fresh(expirer.service.Repr() - old(expirer.service.Repr()))
      invariant Ran(t, split, events, now, expirer.service.View(), expirer.service.Unshared(), outcomes)
      invariant AllRealise(c, limited, t, events, script[..served])
      invariant |expirer.service.View().data| + TotalGrowth(script, served) < MAX_ENTRIES
    {
      Later(c, limited, t, events, script, served, now);
      RanMeans(t, split, events, now, expirer.service.View(), expirer.service.Unshared(), outcomes);
      ghost var mid, splitMid := expirer.service.View(), expirer.service.Unshared();
      var heard, aborted;
      ghost var more;
      heard, aborted, more := RunAction(evictor, expirer, script[served], LastTime(events, now));
      if aborted {
        StoppedRan(t, split, events, more, now, mid, splitMid, outcomes, script[served], expirer.service.View(),
                   expirer.service.Unshared());
        events := events + more;
        Compare(t, split, events, now, outcomes);
        return;
      }
      RanOn(t, split, events, more, now, mid, splitMid, outcomes, expirer.service.View(), expirer.service.Unshared(),
          heard);
      RealisesMore(c, limited, t, events, script, served, more);
      outcomes, events, served := outcomes + heard, events + more, served + 1;
    }
    RanMeans(t, split, events, now, expirer.service.View(), expirer.service.Unshared(), outcomes);
    Compare(t, split, events, now, outcomes);
  }

  lemma StoppedRan(t: Tables, split: set<Key>, events: seq<Event>, more: seq<Event>, now: Time, mid: Tables,
                   splitMid: set<Key>, heard: seq<Outcome>, action: Action, after: Tables, splitAfter: set<Key>)
    requires Ran(t, split, events, now, mid, splitMid, heard) && exists gone :: more == [Drop(gone)]
    requires Ran(mid, splitMid, more, LastTime(events, now), AfterRun(mid, more), SplitRun(mid, splitMid, more), [])
    requires Stopped(mid, splitMid, more, action, after, splitAfter)
    ensures var all := events + more;
            && Ran(t, split, all, now, AfterRun(t, all), SplitRun(t, split, all), heard)
            && Stopped(t, split, all, action, after, splitAfter)
            && all != [] && all[|all| - 1].Drop? && all[..|all| - 1] == events
  {
    hide Ran;
    hide AfterRun;
    hide SplitRun;
    hide Fails;
    hide Halted;
    var all := events + more;
    RanOn(t, split, events, more, now, mid, splitMid, heard, AfterRun(mid, more), SplitRun(mid, splitMid, more), []);
    assert heard + [] == heard;
    RanMeans(t, split, all, now, AfterRun(mid, more), SplitRun(mid, splitMid, more), heard);
  }

  lemma StartsCoherent(evictor: Evictor, expirer: Expirer)
    requires Standing(evictor, expirer)
    ensures Coherent(expirer.service.View())
  {
    hide Table.Intact;
    hide Val;
    hide Fair;
  }

  lemma Compare(t: Tables, split: set<Key>, events: seq<Event>, now: Time, outcomes: seq<Outcome>)
    requires Coherent(t) && Ran(t, split, events, now, AfterRun(t, events), SplitRun(t, split, events), outcomes)
    ensures Indistinguishable(t, Visible(t, now), events) <==> AllFaithful(t, events) && AllDue(t, events)
    ensures AllFaithful(t, events) && AllDue(t, events) ==> outcomes == StoreReplies(Visible(t, now), events)
    ensures Coherent(AfterRun(t, events))
  {
    assert Visible(t, now) == Current(Visible(t, now), now);
    hide *;
    RanMeans(t, split, events, now, AfterRun(t, events), SplitRun(t, split, events), outcomes);
    RunCoherent(t, events, now);
    InvisibleDeletion(t, Visible(t, now), events, now);
    if AllFaithful(t, events) && AllDue(t, events) {
      SameReplies(t, Visible(t, now), events);
    }
  }

  // ---------------------------------------------------------------- a new server

  /** What the store answers to the commands of a script, when nothing is evicted: the cron job does nothing to it. */
  function ScriptStore(s: Store, script: seq<Action>): Store {
    if |script| == 0 then s
    else
      var before, last := ScriptStore(s, script[..|script| - 1]), script[|script| - 1];
      if last.Call? then StoreAfter(before, last.cmd, last.at) else before
  }

  function ScriptReplies(s: Store, script: seq<Action>): seq<Outcome> {
    if |script| == 0 then []
    else
      var front, last := script[..|script| - 1], script[|script| - 1];
      ScriptReplies(s, front)
      + if last.Call? then [Done(StoreAnswer(ScriptStore(s, front), last.cmd, last.at))] else []
  }

  lemma {:induction false} StoreOn(s: Store, a: seq<Event>, b: seq<Event>)
    ensures StoreRun(s, a + b) == StoreRun(StoreRun(s, a), b)
    ensures StoreReplies(s, a + b) == StoreReplies(s, a) + StoreReplies(StoreRun(s, a), b)
    decreases |a|
  {
    hide StoreStep;
    hide StoreHeard;
    if a == [] {
      assert a + b == b;
    } else {
      assert (a + b)[1..] == a[1..] + b;
      StoreOn(StoreStep(s, a[0]), a[1..], b);
    }
  }

  /** Without a memory limit the store hears the script. */
  lemma {:induction false} ScriptHeard(c: Cleaner, t: Tables, events: seq<Event>, script: seq<Action>, s: Store)
    requires AllRealise(c, false, t, events, script)
    ensures StoreRun(s, events) == ScriptStore(s, script) && StoreReplies(s, events) == ScriptReplies(s, script)
    decreases |script|
  {
    hide SweptBy;
    hide AfterRun;
    hide StoreRun;
    hide StoreReplies;
    if |script| == 0 {
      NothingStored(s);
    } else {
      var last := script[|script| - 1];
      var n := |events| - Length(last);
      ScriptHeard(c, t, events[..n], script[..|script| - 1], s);
      StoreOn(s, events[..n], events[n..]);
      assert events == events[..n] + events[n..];
      ActionStored(c, AfterRun(t, events[..n]), events[n..], last, StoreRun(s, events[..n]));
    }
  }

  lemma NothingStored(s: Store)
    ensures StoreRun(s, []) == s && StoreReplies(s, []) == []
  {
  }

  lemma ActionStored(c: Cleaner, t: Tables, events: seq<Event>, action: Action, s: Store)
    requires Realises(c, false, t, events, action)
    ensures StoreRun(s, events) == if action.Call? then StoreAfter(s, action.cmd, action.at) else s
    ensures StoreReplies(s, events) ==
              if action.Call? then [Done(StoreAnswer(s, action.cmd, action.at))] else []
  {
    hide SweptBy;
    hide StoreAfter;
    hide StoreAnswer;
    assert s - {} == s;
    if action.Call? {
      var e := Do(action.at, action.cmd);
      assert events == [Drop({}), e] && events[1..] == [e] && [e][1..] == [];
      assert StoreRun(StoreStep(s, e), []) == StoreStep(s, e) && StoreReplies(StoreStep(s, e), []) == [];
    } else {
      assert events[1..] == [];
    }
  }

  /** The events of the served part of a script, and the eviction before a command that stopped it. */
  ghost predicate Traces(c: Cleaner, t: Tables, events: seq<Event>, script: seq<Action>, served: nat)
    requires served <= |script|
  {
    if served == |script| then AllRealise(c, false, t, events, script)
    else
      && events != [] && events[|events| - 1].Drop?
      && AllRealise(c, false, t, events[..|events| - 1], script[..served])
  }

  ghost function Body(events: seq<Event>, script: seq<Action>, served: nat): seq<Event> {
    if served == |script| || events == [] then events else events[..|events| - 1]
  }

  lemma TraceBody(c: Cleaner, t: Tables, events: seq<Event>, script: seq<Action>, served: nat)
    requires served <= |script| && Traces(c, t, events, script, served)
    ensures AllRealise(c, false, t, Body(events, script, served), script[..served])
    ensures |Body(events, script, served)| <= |events| && Body(events, script, served) <= events
    ensures forall k :: |Body(events, script, served)| <= k < |events| ==> events[k].Drop?
  {
    hide AllRealise;
    assert script[..|script|] == script;
  }

  /** The commands and cron rounds of a trace keep the promises of the script. */
  lemma TraceAlike(c: Cleaner, t: Tables, events: seq<Event>, script: seq<Action>, served: nat, now: Time)
    requires served <= |script| && Traces(c, t, events, script, served) && Run(t, events, now) && CronBehind(script)
    requires forall i :: 0 <= i < |script| && script[i].Call? ==> AlwaysFaithful(script[i].cmd)
    ensures AllFaithful(t, events) && AllDue(t, events)
  {
    hide AllRealise;
    hide Traces;
    hide AlwaysFaithful;
    hide AllFaithful;
    hide AllDue;
    hide Run;
    var body, done := Body(events, script, served), script[..served];
    TraceBody(c, t, events, script, served);
    forall e | e in events && e.Do? ensures AlwaysFaithful(e.cmd) {
      var k :| 0 <= k < |events| && events[k] == e;
      var i := FromScript(c, false, t, body, done, k);
      assert done[i] == script[i];
    }
    PlainRunsInvisible(t, events);
    InOrder(c, false, t, body, done);
    forall i, j | 0 <= i < j < |events| && events[i].Reap? && events[j].Do? ensures events[i].at <= events[j].at {
      assert body[i] == events[i] && body[j] == events[j];
    }
    InOrderIsDue(t, events, now);
  }

  /** The store hears the served part of the script. */
  lemma TraceHeard(c: Cleaner, t: Tables, events: seq<Event>, script: seq<Action>, served: nat, s: Store)
    requires served <= |script| && Traces(c, t, events, script, served)
    ensures StoreReplies(s, events) == ScriptReplies(s, script[..served])
  {
    hide AllRealise;
    hide Traces;
    hide ScriptReplies;
    var body := Body(events, script, served);
    TraceBody(c, t, events, script, served);
    ScriptHeard(c, t, body, script[..served], s);
    if body != events {
      var e := events[|events| - 1];
      assert events == body + [e] && [e][1..] == [];
      StoreOn(s, body, [e]);
      assert StoreReplies(StoreRun(s, body), [e]) == [];
    }
  }

  /** From tables without such keys, a key has two key objects only after a GETEX of the script. */
  lemma TraceSplit(c: Cleaner, t: Tables, events: seq<Event>, script: seq<Action>, served: nat, key: Key)
    requires served <= |script| && Traces(c, t, events, script, served) && key in SplitRun(t, {}, events)
    ensures exists i :: 0 <= i < served && GaveDeadline(script[i], key)
  {
    hide AllRealise;
    hide Traces;
    hide SplitRun;
    var body, done := Body(events, script, served), script[..served];
    TraceBody(c, t, events, script, served);
    var k := SplitByGetEX(t, {}, events, key);
    assert body[k] == events[k];
    var i := FromScript(c, false, t, body, done, k);
    assert done[i] == script[i] && GaveDeadline(script[i], key);
  }

  /** A new server without a memory limit: whatever clients send and whenever the cron job runs, the replies are
      those of the store that starts empty, until a command writes the deadline of a key on which GETEX put one. */
  method ServeFromEmpty(hash: Key -> nat, keysPerLoop: nat, threshold: nat, policy: Policy, samples: nat,
                        rand: nat -> nat, script: seq<Action>, now: Time)
      returns (outcomes: seq<Outcome>, served: nat)
    requires Fair(rand) && samples > 0 && Timely(script, now) && CronBehind(script)
    requires forall i :: 0 <= i < |script| && script[i].Call? ==> AlwaysFaithful(script[i].cmd)
    requires TotalGrowth(script, 0) < MAX_ENTRIES
    ensures served <= |script| && outcomes == ScriptReplies(map[], script[..served])
    ensures served < |script| ==>
              && script[served].Call? && (script[served].cmd.SetEX? || script[served].cmd.Set?)
              && exists i :: 0 <= i < served && GaveDeadline(script[i], script[served].cmd.key)
  {
    hide Service.Valid;
    hide Service.Unshared;
    hide Evictor.Valid;
    hide Expirer.Valid;
    hide Fair;
    hide Ran;
    hide AllRealise;
    hide Stopped;
    hide AfterRun;
    hide SplitRun;
    hide Timely;
    hide CronBehind;
    hide TotalGrowth;
    hide AlwaysFaithful;
    hide Indistinguishable;
    hide AllFaithful;
    hide AllDue;
    hide StoreReplies;
    hide ScriptReplies;
    hide GaveDeadline;
    var service := new Service(hash);
    var tracker := new MemoryTracker();
    var generator := new Generator(rand);
    var evictor := new Evictor(service, policy, 0, samples, tracker, generator);
    var expirer := new Expirer(service, keysPerLoop, threshold);
    ghost var start, c := service.View(), CleanerOf(expirer);
    assert Visible(start, now) == map[];
    ghost var events;
    outcomes, served, events := Serve(evictor, expirer, script, now);
    assert Traces(c, start, events, script, served);
    hide Traces;
    RanMeans(start, {}, events, now, AfterRun(start, events), SplitRun(start, {}, events), outcomes);
    TraceAlike(c, start, events, script, served, now);
    TraceHeard(c, start, events, script, served, map[]);
    if served < |script| {
      StoppedMeans(start, {}, events, script[served], service.View(), service.Unshared());
      TraceSplit(c, start, events, script, served, script[served].cmd.key);
    }
  }

  lemma StoppedMeans(t: Tables, split: set<Key>, events: seq<Event>, action: Action, after: Tables,
                     splitAfter: set<Key>)
    requires Stopped(t, split, events, action, after, splitAfter)
    ensures action.Call? && (action.cmd.SetEX? || action.cmd.Set?)
    ensures action.cmd.key in SplitRun(t, split, events)
  {
    hide SplitRun;
    hide AfterRun;
  }

  /** GETEX with a deadline on the key. */
  predicate GaveDeadline(action: Action, key: Key) {
    action.Call? && action.cmd.GetEX? && action.cmd.key == key
  }
}
