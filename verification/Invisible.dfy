/** Physical deletion of stale keys cannot be observed: every run answers like a store that never
    removes a key because of its deadline. */
module Invisibility {
  import opened Chaining
  import opened Collections
  import opened Keyspace

  /** The tables and the store show the same thing under `key`. */
  predicate Agree(t: Tables, s: Store, key: Key, now: Time) {
    && (Alive(t, key, now) <==> Holds(s, key, now))
    && (Alive(t, key, now) ==> ItemOf(t, key) == s[key])
  }

  ghost predicate Matches(t: Tables, s: Store, now: Time) {
    Coherent(t) && forall k :: Agree(t, s, k, now)
  }

  lemma MatchesIsEquality(t: Tables, s: Store, now: Time)
    requires Coherent(t)
    ensures Matches(t, s, now) <==> Visible(t, now) == Current(s, now)
  {
    if Matches(t, s, now) {
      forall k ensures k in Visible(t, now) <==> k in Current(s, now) {
        assert Agree(t, s, k, now);
      }
      forall k | k in Visible(t, now) ensures Visible(t, now)[k] == Current(s, now)[k] {
        assert Agree(t, s, k, now);
      }
    }
    if Visible(t, now) == Current(s, now) {
      forall k ensures Agree(t, s, k, now) {
        assert k in Visible(t, now) <==> k in Current(s, now);
      }
    }
  }

  lemma LaterMatches(t: Tables, s: Store, now: Time, later: Time)
    requires Matches(t, s, now) && now <= later
    ensures Matches(t, s, later)
  {
    forall k ensures Agree(t, s, k, later) {
      assert Agree(t, s, k, now);
    }
  }

  // ---------------------------------------------------------------- lookups

  lemma ExpireMatches(t: Tables, s: Store, key: Key, now: Time)
    requires Matches(t, s, now)
    ensures Matches(Expire(t, key, now), s, now)
    ensures Lookup(t, key, now) == Fetch(s, key, now)
  {
    assert Agree(t, s, key, now);
    var u := Expire(t, key, now);
    forall k ensures Agree(u, s, k, now) {
      assert Agree(t, s, k, now);
    }
  }

  lemma {:induction false} LookupAllMatches(t: Tables, s: Store, keys: seq<Key>, now: Time)
    requires Matches(t, s, now)
    ensures Matches(ExpireAll(t, keys, now), s, now)
    ensures LookupAll(t, keys, now) == FetchAll(s, keys, now)
    ensures CountAlive(t, keys, now) == CountHeld(s, keys, now)
    decreases |keys|
  {
    if keys != [] {
      ExpireMatches(t, s, keys[0], now);
      assert Agree(t, s, keys[0], now);
      LookupAllMatches(Expire(t, keys[0], now), s, keys[1..], now);
    }
  }

  // ---------------------------------------------------------------- deleting

  lemma DeleteMatches(t: Tables, s: Store, key: Key, now: Time)
    requires Matches(t, s, now)
    ensures Matches(DeleteOne(t, key, now), s - {key}, now)
  {
    var u := DeleteOne(t, key, now);
    forall k ensures Agree(u, s - {key}, k, now) {
      assert Agree(t, s, k, now);
    }
  }

  lemma {:induction false} DeleteAllMatches(t: Tables, s: Store, keys: seq<Key>, now: Time)
    requires Matches(t, s, now)
    ensures Matches(DeleteAll(t, keys, now), DropAll(s, keys), now)
    ensures CountDeleted(t, keys, now) == CountDropped(s, keys, now)
    decreases |keys|
  {
    if keys != [] {
      var k := keys[0];
      assert Agree(t, s, k, now);
      DeleteMatches(t, s, k, now);
      DeleteAllMatches(DeleteOne(t, k, now), s - {k}, keys[1..], now);
      var all := set x | x in keys && Holds(s, x, now);
      var rest := set x | x in keys[1..] && Holds(s - {k}, x, now);
      assert all == rest + if Holds(s, k, now) then {k} else {};
    }
  }

  // ---------------------------------------------------------------- writing

  lemma PutMatches(t: Tables, s: Store, key: Key, item: Item, now: Time)
    requires Matches(t, s, now)
    ensures var d := if item.deadline.Some? then t.expire[key := item.deadline.value] else t.expire - {key};
            Matches(Tables(t.data[key := item.value], d), s[key := item], now)
  {
    var d := if item.deadline.Some? then t.expire[key := item.deadline.value] else t.expire - {key};
    var u := Tables(t.data[key := item.value], d);
    var v := s[key := item];
    forall k ensures Agree(u, v, k, now) {
      assert Agree(t, s, k, now);
    }
  }

  lemma {:induction false} SetAllMatches(t: Tables, s: Store, pairs: seq<(Key, Value)>, now: Time)
    requires Matches(t, s, now)
    ensures Matches(SetAll(t, pairs), PutAll(s, pairs), now)
    decreases |pairs|
  {
    if pairs != [] {
      PutMatches(t, s, pairs[0].0, Item(pairs[0].1, None), now);
      SetAllMatches(Tables(t.data[pairs[0].0 := pairs[0].1], t.expire - {pairs[0].0}),
          s[pairs[0].0 := Item(pairs[0].1, None)], pairs[1..], now);
    }
  }

  // ---------------------------------------------------------------- one command

  /** When SET does to the tables what it does to the store. It fails only for a plain SET without a
      new deadline on a key that has a deadline: with GET on a live key the deadline is not dropped,
      and on a stale key GET or KEEPTTL leaves the passed deadline in place. */
  predicate Faithful(t: Tables, cmd: Command, now: Time) {
    cmd.Set? && cmd.mode == Regular && cmd.deadline.None? && cmd.key in t.expire ==>
      if Expired(t, cmd.key, now) then !cmd.get && !cmd.keepTtl else !cmd.get || cmd.keepTtl
  }

  /** SET touches nothing but its own key. */
  lemma SetElsewhere(t: Tables, s: Store, cmd: Command, now: Time, k: Key)
    requires Coherent(t) && cmd.Set? && k != cmd.key && Agree(t, s, k, now)
    ensures Agree(After(t, cmd, now), StoreAfter(s, cmd, now), k, now)
  {
    var u := After(t, cmd, now);
    assert (k in u.data <==> k in t.data) && (k in u.expire <==> k in t.expire);
  }

  lemma SetOnKey(t: Tables, s: Store, cmd: Command, now: Time)
    requires Coherent(t) && cmd.Set? && Agree(t, s, cmd.key, now)
    requires Faithful(t, cmd, now)
    ensures Agree(After(t, cmd, now), StoreAfter(s, cmd, now), cmd.key, now)
    ensures Answer(t, cmd, now) == StoreAnswer(s, cmd, now)
    ensures Coherent(After(t, cmd, now))
  {
  }

  lemma SetMatches(t: Tables, s: Store, cmd: Command, now: Time)
    requires Matches(t, s, now) && cmd.Set?
    requires Faithful(t, cmd, now)
    ensures Matches(After(t, cmd, now), StoreAfter(s, cmd, now), now)
    ensures Answer(t, cmd, now) == StoreAnswer(s, cmd, now)
  {
    hide After, StoreAfter, Answer, StoreAnswer, Faithful, Agree, Coherent;
    var u, v := After(t, cmd, now), StoreAfter(s, cmd, now);
    SetOnKey(t, s, cmd, now);
    forall k ensures Agree(u, v, k, now) {
      if k != cmd.key {
        SetElsewhere(t, s, cmd, now, k);
      }
    }
  }

  lemma SetDiffers(t: Tables, s: Store, cmd: Command, now: Time)
    requires Matches(t, s, now) && !Faithful(t, cmd, now)
    ensures Coherent(After(t, cmd, now))
    ensures cmd.deadline.None? && !Agree(After(t, cmd, now), StoreAfter(s, cmd, now), cmd.key, now)
  {
    assert Agree(t, s, cmd.key, now);
  }

  lemma RenewMatches(t: Tables, s: Store, cmd: Command, now: Time)
    requires Matches(t, s, now) && cmd.GetEX?
    ensures Matches(After(t, cmd, now), StoreAfter(s, cmd, now), now)
    ensures Answer(t, cmd, now) == StoreAnswer(s, cmd, now)
  {
    ExpireMatches(t, s, cmd.key, now);
    assert Agree(t, s, cmd.key, now);
    var u, v := After(t, cmd, now), StoreAfter(s, cmd, now);
    forall k ensures Agree(u, v, k, now) {
      assert Agree(t, s, k, now);
    }
  }

  lemma CommandMatches(t: Tables, s: Store, cmd: Command, now: Time)
    requires Matches(t, s, now)
    requires Faithful(t, cmd, now)
    ensures Matches(After(t, cmd, now), StoreAfter(s, cmd, now), now)
    ensures Answer(t, cmd, now) == StoreAnswer(s, cmd, now)
  {
    match cmd
    case Get(k) => ExpireMatches(t, s, k, now);
    case MGet(ks) => LookupAllMatches(t, s, ks, now);
    case Strlen(k) => ExpireMatches(t, s, k, now);
    case Exists(ks) => LookupAllMatches(t, s, ks, now);
    case Ttl(k) => ExpireMatches(t, s, k, now); assert Agree(t, s, k, now);
    case Del(ks) => DeleteAllMatches(t, s, ks, now);
    case GetDel(k) => DeleteMatches(t, s, k, now); assert Agree(t, s, k, now);
    case GetEX(k, _, _) => RenewMatches(t, s, cmd, now);
    case SetNX(k, v) => SetMatches(t, s, Set(k, v, NX, None, false, false), now); assert Agree(t, s, k, now);
    case MSet(kvs) => SetAllMatches(t, s, kvs, now);
    case SetEX(k, v, d) => PutMatches(t, s, k, Item(v, Some(d)), now);
    case Set(_, _, _, _, _, _) => SetMatches(t, s, cmd, now);
  }

  /** A command keeps tables and store alike, and answers alike, exactly when it is faithful. */
  lemma CommandAgrees(t: Tables, s: Store, cmd: Command, now: Time)
    requires Matches(t, s, now)
    ensures Coherent(After(t, cmd, now))
    ensures Matches(After(t, cmd, now), StoreAfter(s, cmd, now), now) && Answer(t, cmd, now) == StoreAnswer(s, cmd, now)
       <==> Faithful(t, cmd, now)
  {
    if Faithful(t, cmd, now) {
      CommandMatches(t, s, cmd, now);
    } else {
      SetDiffers(t, s, cmd, now);
    }
  }

  // ---------------------------------------------------------------- whole runs

  /** What happens to the tables: a command, an active expiry that removes some stale keys, an eviction that drops
      stored keys, or a command that is refused for want of memory. Rehash steps change neither table's contents. */
  datatype Event =
    | Do(at: Time, cmd: Command)
    | Reap(at: Time, gone: set<Key>)
    | Drop(gone: set<Key>)
    | Refuse

  predicate Possible(t: Tables, e: Event) {
    match e
    case Reap(at, gone) => forall k :: k in gone ==> Expired(t, k, at)
    case Drop(gone) => gone <= t.data.Keys
    case _ => true
  }

  function Step(t: Tables, e: Event): Tables {
    match e
    case Do(at, cmd) => After(t, cmd, at)
    case Reap(_, gone) => Tables(t.data - gone, t.expire - gone)
    case Drop(gone) => Tables(t.data - gone, t.expire - gone)
    case Refuse => t
  }

  /** The store forgets what is evicted and nothing else of its own accord. */
  function StoreStep(s: Store, e: Event): Store {
    match e
    case Do(at, cmd) => StoreAfter(s, cmd, at)
    case Drop(gone) => s - gone
    case _ => s
  }

  /** A run in which the time of commands does not go back and active expiry removes only keys that are stale at
      its own time. That time can be ahead of the commands that follow: commands use a time taken once per cron
      tick, active expiry reads the clock again. */
  ghost predicate Run(t: Tables, events: seq<Event>, now: Time)
    decreases |events|
  {
    events == [] ||
    (&& Possible(t, events[0]) && (events[0].Do? ==> now <= events[0].at)
     && Run(Step(t, events[0]), events[1..], if events[0].Do? then events[0].at else now))
  }

  /** Every command of the run is faithful on the tables it meets. */
  ghost predicate AllFaithful(t: Tables, events: seq<Event>)
    decreases |events|
  {
    events == [] ||
    ((events[0].Do? ==> Faithful(t, events[0].cmd, events[0].at)) && AllFaithful(Step(t, events[0]), events[1..]))
  }

  /** The time of the first command. */
  function NextCommand(events: seq<Event>): Option<Time> {
    if events == [] then None
    else if events[0].Do? then Some(events[0].at)
    else NextCommand(events[1..])
  }

  /** No deadline of a removed key is after the time of the next command. */
  predicate Due(t: Tables, gone: set<Key>, next: Option<Time>) {
    next.Some? ==> forall k :: k in gone ==> Expired(t, k, next.value)
  }

  ghost predicate AllDue(t: Tables, events: seq<Event>)
    decreases |events|
  {
    events == [] ||
    (&& (events[0].Reap? ==> Due(t, events[0].gone, NextCommand(events[1..])))
     && AllDue(Step(t, events[0]), events[1..]))
  }

  /** Every command meets tables and a store that show the same at its time, answers the same, and leaves them
      showing the same. */
  ghost predicate Indistinguishable(t: Tables, s: Store, events: seq<Event>)
    decreases |events|
  {
    events == [] ||
    (var e, u, v := events[0], Step(t, events[0]), StoreStep(s, events[0]);
     && (e.Do? ==>
           && Visible(t, e.at) == Current(s, e.at)
           && Answer(t, e.cmd, e.at) == StoreAnswer(s, e.cmd, e.at)
           && Visible(u, e.at) == Current(v, e.at))
     && Indistinguishable(u, v, events[1..]))
  }

  lemma ReapMatches(t: Tables, s: Store, gone: set<Key>, now: Time)
    requires Matches(t, s, now)
    requires forall k :: k in gone ==> Expired(t, k, now)
    ensures Matches(Tables(t.data - gone, t.expire - gone), s, now)
  {
    var u := Tables(t.data - gone, t.expire - gone);
    forall k ensures Agree(u, s, k, now) {
      assert Agree(t, s, k, now);
    }
  }

  lemma DropMatches(t: Tables, s: Store, gone: set<Key>, now: Time)
    requires Matches(t, s, now)
    ensures Matches(Tables(t.data - gone, t.expire - gone), s - gone, now)
  {
    var u := Tables(t.data - gone, t.expire - gone);
    forall k ensures Agree(u, s - gone, k, now) {
      assert Agree(t, s, k, now);
    }
  }

  lemma StepCoherent(t: Tables, e: Event)
    requires Coherent(t)
    ensures Coherent(Step(t, e))
  {
    if e.Do? {
      assert Visible(t, e.at) == Current(Visible(t, e.at), e.at);
      MatchesIsEquality(t, Visible(t, e.at), e.at);
      CommandAgrees(t, Visible(t, e.at), e.cmd, e.at);
    }
  }

  /** A live key that the tables lost is missed by the next command. */
  lemma {:induction false} LostKeyIsMissed(t: Tables, s: Store, events: seq<Event>, now: Time, key: Key)
    requires key !in t.data && NextCommand(events).Some? && Holds(s, key, NextCommand(events).value)
    requires Run(t, events, now)
    ensures !Indistinguishable(t, s, events)
    decreases |events|
  {
    var e := events[0];
    if e.Do? {
      assert key in Current(s, e.at) && key !in Visible(t, e.at);
    } else {
      LostKeyIsMissed(Step(t, e), StoreStep(s, e), events[1..], now, key);
    }
  }

  lemma {:induction false} NextIsLater(t: Tables, events: seq<Event>, now: Time)
    requires Run(t, events, now)
    ensures NextCommand(events).Some? ==> now <= NextCommand(events).value
    decreases |events|
  {
    if events != [] && !events[0].Do? {
      NextIsLater(Step(t, events[0]), events[1..], now);
    }
  }

  /** Invisible deletion. Over every run the tables cannot be told from the store that removes nothing for
      being stale, exactly when every SET of the run is faithful and no removed key's deadline is after the
      time of the commands that follow. */
  lemma InvisibleDeletion(t: Tables, s: Store, events: seq<Event>, now: Time)
    requires Coherent(t) && Visible(t, now) == Current(s, now)
    requires Run(t, events, now)
    ensures Indistinguishable(t, s, events) <==> AllFaithful(t, events) && AllDue(t, events)
  {
    hide *;
    MatchesIsEquality(t, s, now);
    NextIsLater(t, events, now);
    if NextCommand(events).Some? {
      LaterMatches(t, s, now, NextCommand(events).value);
    }
    InvisibleFrom(t, s, events, now);
  }

  /** The same from tables and a store that match at the time of the next command. */
  lemma {:induction false} InvisibleFrom(t: Tables, s: Store, events: seq<Event>, now: Time)
    requires Coherent(t) && Run(t, events, now)
    requires NextCommand(events).Some? ==> Matches(t, s, NextCommand(events).value)
    ensures Indistinguishable(t, s, events) <==> AllFaithful(t, events) && AllDue(t, events)
    decreases |events|
  {
    hide After, StoreAfter, Answer, StoreAnswer, Faithful, Matches, Coherent, Visible, Current, Due;
    if events != [] {
      var e := events[0];
      StepCoherent(t, e);
      if e.Do? {
        InvisibleCommand(t, s, events, now);
      } else if e.Reap? {
        InvisibleReap(t, s, events, now);
      } else {
        StepStillMatches(t, s, events, now);
        InvisibleFrom(Step(t, e), StoreStep(s, e), events[1..], now);
      }
    }
  }

  lemma InvisibleCommand(t: Tables, s: Store, events: seq<Event>, now: Time)
    requires Coherent(t) && Run(t, events, now) && events != [] && events[0].Do?
    requires Matches(t, s, events[0].at) && Coherent(Step(t, events[0]))
    ensures Indistinguishable(t, s, events) <==> AllFaithful(t, events) && AllDue(t, events)
    decreases |events|, 0
  {
    hide After, StoreAfter, Answer, StoreAnswer, Faithful, Matches, Coherent, Visible, Current, Due;
    var e := events[0];
    var u, v := Step(t, e), StoreStep(s, e);
    MatchesIsEquality(t, s, e.at);
    CommandAgrees(t, s, e.cmd, e.at);
    MatchesIsEquality(u, v, e.at);
    if Faithful(t, e.cmd, e.at) {
      StepStillMatches(t, s, events, now);
      InvisibleFrom(u, v, events[1..], e.at);
    }
  }

  lemma InvisibleReap(t: Tables, s: Store, events: seq<Event>, now: Time)
    requires Coherent(t) && Run(t, events, now) && events != [] && events[0].Reap?
    requires NextCommand(events).Some? ==> Matches(t, s, NextCommand(events).value)
    requires Coherent(Step(t, events[0]))
    ensures Indistinguishable(t, s, events) <==> AllFaithful(t, events) && AllDue(t, events)
    decreases |events|, 0
  {
    hide After, StoreAfter, Answer, StoreAnswer, Faithful, Matches, Coherent, Visible, Current;
    var e, rest := events[0], events[1..];
    var next := NextCommand(rest);
    if Due(t, e.gone, next) {
      StepStillMatches(t, s, events, now);
      InvisibleFrom(Step(t, e), s, rest, now);
    } else {
      var k :| k in e.gone && !Expired(t, k, next.value);
      ReapedTooEarly(t, s, e, k, next.value);
      LostKeyIsMissed(Step(t, e), s, rest, now, k);
    }
  }

  lemma ReapedTooEarly(t: Tables, s: Store, e: Event, key: Key, at: Time)
    requires e.Reap? && Possible(t, e) && key in e.gone && !Expired(t, key, at) && Matches(t, s, at)
    ensures key !in Step(t, e).data && Holds(s, key, at)
    ensures Answer(Step(t, e), Get(key), at) == Nil && StoreAnswer(s, Get(key), at).Str?
  {
    assert Expired(t, key, e.at);
    assert Agree(t, s, key, at);
  }

  /** An unfaithful SET can be heard: TTL on its key answers differently. */
  lemma UnfaithfulIsHeard(t: Tables, s: Store, cmd: Command, now: Time)
    requires Matches(t, s, now) && !Faithful(t, cmd, now)
    ensures cmd.Set?
    ensures Answer(After(t, cmd, now), Ttl(cmd.key), now) != StoreAnswer(StoreAfter(s, cmd, now), Ttl(cmd.key), now)
  {
    assert Agree(t, s, cmd.key, now);
  }

  /** Telling apart is hearing: if the condition fails, there is a command that, after some part of the run, the
      tables and the store answer differently. */
  lemma {:induction false} HeardApart(t: Tables, s: Store, events: seq<Event>, now: Time) returns (n: nat, probe: Event)
    requires Coherent(t) && Run(t, events, now) && !(AllFaithful(t, events) && AllDue(t, events))
    requires NextCommand(events).Some? ==> Matches(t, s, NextCommand(events).value)
    ensures n <= |events| && probe.Do? && Run(t, events[..n] + [probe], now)
    ensures Answer(AfterRun(t, events[..n]), probe.cmd, probe.at) != StoreAnswer(StoreRun(s, events[..n]), probe.cmd,
              probe.at)
    decreases |events|
  {
    hide After, StoreAfter, Answer, StoreAnswer, Faithful, Matches, Coherent, Visible, Current;
    var e, rest := events[0], events[1..];
    var next := NextCommand(rest);
    NextIsLater(t, events, now);
    assert events[..1] == [e] && [e][1..] == [];
    if e.Do? && !Faithful(t, e.cmd, e.at) {
      UnfaithfulIsHeard(t, s, e.cmd, e.at);
      assert Run(t, [e], now);
      n, probe := 1, Do(e.at, Ttl(e.cmd.key));
      OneMoreEvent(t, e, probe, now);
    } else if e.Reap? && !Due(t, e.gone, next) {
      var k :| k in e.gone && !Expired(t, k, next.value);
      ReapedTooEarly(t, s, e, k, next.value);
      assert Run(t, [e], now);
      n, probe := 1, Do(next.value, Get(k));
      OneMoreEvent(t, e, probe, now);
    } else {
      StepStillMatches(t, s, events, now);
      n, probe := HeardApart(Step(t, e), StoreStep(s, e), rest, if e.Do? then e.at else now);
      assert events[..n + 1] + [probe] == [e] + (rest[..n] + [probe]) && events[..n + 1][1..] == rest[..n];
      assert ([e] + (rest[..n] + [probe]))[1..] == rest[..n] + [probe];
      n := n + 1;
    }
  }

  lemma OneMoreEvent(t: Tables, e: Event, probe: Event, now: Time)
    requires Run(t, [e], now) && probe.Do? && (if e.Do? then e.at else now) <= probe.at
    ensures Run(t, [e] + [probe], now)
  {
    hide Step;
    var events, from := [e] + [probe], if e.Do? then e.at else now;
    assert events[1..] == [probe] && [probe][1..] == [];
    assert Run(Step(t, e), [probe], from);
  }

  function StoreRun(s: Store, events: seq<Event>): Store
    decreases |events|
  {
    if events == [] then s else StoreRun(StoreStep(s, events[0]), events[1..])
  }

  lemma StepStillMatches(t: Tables, s: Store, events: seq<Event>, now: Time)
    requires Coherent(t) && Run(t, events, now) && events != []
    requires NextCommand(events).Some? ==> Matches(t, s, NextCommand(events).value)
    requires events[0].Do? ==> Faithful(t, events[0].cmd, events[0].at)
    requires events[0].Reap? ==> Due(t, events[0].gone, NextCommand(events[1..]))
    ensures Coherent(Step(t, events[0]))
    ensures var next := NextCommand(events[1..]);
            next.Some? ==> Matches(Step(t, events[0]), StoreStep(s, events[0]), next.value)
  {
    hide After, StoreAfter, Answer, StoreAnswer, Faithful, Matches, Coherent, Visible, Current;
    var e, next := events[0], NextCommand(events[1..]);
    StepCoherent(t, e);
    NextIsLater(Step(t, e), events[1..], if e.Do? then e.at else now);
    if e.Do? {
      CommandMatches(t, s, e.cmd, e.at);
      if next.Some? {
        LaterMatches(Step(t, e), StoreStep(s, e), e.at, next.value);
      }
    } else if next.Some? {
      match e
      case Reap(_, gone) => ReapMatches(t, s, gone, next.value);
      case Drop(gone) => DropMatches(t, s, gone, next.value);
      case Refuse =>
    }
  }

  /** If active expiry never runs ahead of the commands that follow it, nothing is removed too early. */
  lemma {:induction false} InOrderIsDue(t: Tables, events: seq<Event>, now: Time)
    requires Run(t, events, now)
    requires forall i, j :: 0 <= i < j < |events| && events[i].Reap? && events[j].Do? ==> events[i].at <= events[j].at
    ensures AllDue(t, events)
    decreases |events|
  {
    if events != [] {
      var rest := events[1..];
      if NextCommand(rest).Some? {
        var j := NextCommandAt(rest);
        assert events[j + 1] == rest[j];
      }
      forall i, j | 0 <= i < j < |rest| && rest[i].Reap? && rest[j].Do? ensures rest[i].at <= rest[j].at {
        assert events[i + 1] == rest[i] && events[j + 1] == rest[j];
      }
      InOrderIsDue(Step(t, events[0]), rest, if events[0].Do? then events[0].at else now);
    }
  }

  lemma {:induction false} NextCommandAt(events: seq<Event>) returns (j: nat)
    requires NextCommand(events).Some?
    ensures j < |events| && events[j].Do? && events[j].at == NextCommand(events).value
  {
    if events[0].Do? {
      j := 0;
    } else {
      j := NextCommandAt(events[1..]);
      j := j + 1;
    }
  }

  /** Options that make SET faithful on every table: NX, XX, a new deadline, or neither GET nor KEEPTTL. */
  predicate AlwaysFaithful(cmd: Command) {
    cmd.Set? && cmd.mode == Regular && cmd.deadline.None? ==> !cmd.get && !cmd.keepTtl
  }

  /** Such runs answer every command like the store, whatever is expired lazily or actively. */
  lemma {:induction false} PlainRunsInvisible(t: Tables, events: seq<Event>)
    requires forall e :: e in events && e.Do? ==> AlwaysFaithful(e.cmd)
    ensures AllFaithful(t, events)
    decreases |events|
  {
    if events != [] {
      assert events[0] in events;
      forall e | e in events[1..] && e.Do? ensures AlwaysFaithful(e.cmd) {
        assert e in events;
      }
      PlainRunsInvisible(Step(t, events[0]), events[1..]);
    }
  }

  /** Coherence over whole runs: no command and no active expiry leaves a deadline without data. */
  lemma {:induction false} RunCoherent(t: Tables, events: seq<Event>, now: Time)
    requires Coherent(t) && Run(t, events, now)
    ensures Coherent(AfterRun(t, events))
    decreases |events|
  {
    if events != [] {
      var e := events[0];
      StepCoherent(t, e);
      RunCoherent(Step(t, e), events[1..], if e.Do? then e.at else now);
    }
  }

  function AfterRun(t: Tables, events: seq<Event>): Tables
    decreases |events|
  {
    if events == [] then t else AfterRun(Step(t, events[0]), events[1..])
  }

  /** Two ways in which a SET can be told apart: SET with GET keeps a deadline that SET drops, and
      KEEPTTL on a stale key writes a value nobody can read. */
  lemma SetWithGetKeepsDeadline(key: Key)
    ensures var t := Tables(map[key := "a"], map[key := 10]);
            var s := map[key := Item("a", Some(10))];
            var get := Set(key, "b", Regular, None, false, true);
            && Visible(t, 0) == Current(s, 0)
            && Answer(After(t, get, 0), Get(key), 20) == Nil
            && StoreAnswer(StoreAfter(s, get, 0), Get(key), 20) == Str("b")
  {
  }

  lemma KeepTtlOnStaleKeyIsLost(key: Key)
    ensures var t := Tables(map[key := "a"], map[key := 10]);
            var s := map[key := Item("a", Some(10))];
            var keep := Set(key, "b", Regular, None, true, false);
            && Visible(t, 20) == Current(s, 20) == map[]
            && Answer(After(t, keep, 20), Get(key), 20) == Nil
            && StoreAnswer(StoreAfter(s, keep, 20), Get(key), 20) == Str("b")
  {
  }

  /** The third way: active expiry at 10 removes a key with deadline 10, and a GET that still uses the time 9
      does not find it. */
  lemma ExpiredAheadOfCommands(key: Key)
    ensures var t := Tables(map[key := "a"], map[key := 10]);
            var s := map[key := Item("a", Some(10))];
            var events := [Reap(10, {key}), Do(9, Get(key))];
            && Visible(t, 9) == Current(s, 9) && Run(t, events, 9) && AllFaithful(t, events) && !AllDue(t, events)
            && Answer(Step(t, events[0]), Get(key), 9) == Nil
            && StoreAnswer(s, Get(key), 9) == Str("a")
  {
    var t := Tables(map[key := "a"], map[key := 10]);
    var events := [Reap(10, {key}), Do(9, Get(key))];
    assert events[1..] == [Do(9, Get(key))] && events[1..][1..] == [];
    assert !Due(t, {key}, NextCommand(events[1..]));
  }
}
