/** The data structure service: a data table and a deadline table that every command keeps together. */
module DataService {
  import opened Chaining
  import opened Collections
  import opened HashTables
  import opened Keyspace
  import opened RandomDraws
  import opened TableAccess

  /** The keys whose deadline entry does not hold the very key object of the data entry. */
  ghost function Split(data: map<Key, Entry<Value>>, expire: map<Key, Entry<Time>>): set<Key> {
    set k | k in expire && k in data && expire[k].key != data[k].key
  }

  lemma SplitOne(data: map<Key, Entry<Value>>, expire: map<Key, Entry<Time>>, key: Key, entry: Entry<Time>)
    requires key in data && key !in expire && entry.key != data[key].key
    ensures Split(data, expire[key := entry]) == Split(data, expire) + {key}
  {
  }

  class Service {
    const data: Table<Value>
    const expire: Table<Time>

    /** Both tables stand, own different objects, and no deadline is without data. */
    ghost predicate Valid()
      reads data, expire, data.repr, expire.repr
    {
      && data.repr !! expire.repr
      && data.Valid() && expire.Valid()
      && Coherent(View())
    }

    ghost function View(): Tables
      reads data, expire
    {
      Tables(data.contents, expire.contents)
    }

    ghost function Repr(): set<object>
      reads data, expire
    {
      data.repr + expire.repr
    }

    ghost function Unshared(): set<Key>
      reads data, expire
    {
      Split(data.index, expire.index)
    }

    constructor (hash: Key -> nat)
      ensures Valid() && Unshared() == {} && View() == Tables(map[], map[]) && fresh(Repr())
    {
      hide Table.Intact;
      data := new Table(hash);
      expire := new Table(hash);
    }

    lemma OnlyWithDeadline()
      requires Valid()
      ensures Unshared() <= View().expire.Keys
    {
    }

    lemma IsCoherent()
      requires Valid()
      ensures Coherent(View())
    {
    }

    lemma SameKeys()
      requires Valid()
      ensures expire.index.Keys == expire.contents.Keys == View().expire.Keys && data.index.Keys == data.contents.Keys
    {
    }

    // -------------------------------------------------------------- steps on the two tables

    /** Erases the data entry and, if there was one, the deadline entry. */
    method EraseKey(key: Key)
      requires Valid()
      modifies Repr()
      ensures Valid() && fresh(Repr() - old(Repr())) && expire.level >= old(expire.level)
      ensures Unshared() == old(Unshared()) - {key} == old(Unshared()) * View().expire.Keys
      ensures View() == EraseBoth(old(View()), key)
      ensures expire.index == old(expire.index) - {key}
      ensures !old(expire.rehashing) ==> !expire.rehashing && expire.level == old(expire.level)
    {
      hide Table.Intact;
      var erased := data.Erase(key);
      if !erased {
        assert data.index == old(data.index) && expire.index - {key} == expire.index
               && expire.contents - {key} == expire.contents;
        return;
      }
      var _ := expire.Erase(key);
    }

    /** Erases the deadline entry, then the data entry. */
    method EvictKey(key: Key)
      requires Valid()
      modifies Repr()
      ensures Valid() && fresh(Repr() - old(Repr())) && expire.level >= old(expire.level)
      ensures Unshared() == old(Unshared()) - {key} == old(Unshared()) * View().expire.Keys
      ensures data.index == old(data.index) - {key}
      ensures View() == EraseBoth(old(View()), key)
    {
      hide Table.Intact;
      var _ := expire.Erase(key);
      var _ := data.Erase(key);
    }

    method Stale(key: Key, now: Time) returns (stale: bool)
      requires Valid()
      modifies Repr()
      ensures Valid() && fresh(Repr() - old(Repr())) && expire.level >= old(expire.level)
      ensures data.index == old(data.index) && expire.index == old(expire.index)
      ensures View() == old(View()) && (stale <==> Expired(View(), key, now)) && Unshared() == old(Unshared())
      ensures data.repr == old(data.repr) && unchanged(data.repr)
    {
      hide Table.LaidOut;
      hide Searched;
      hide Table.Intact;
      var expireEntry := expire.Find(key);
      stale := expireEntry != null && expireEntry.value <= now;
    }

    /** The data entry of a key, and whether its deadline has passed. */
    method Probe(key: Key, now: Time) returns (entry: Entry?<Value>, stale: bool)
      requires Valid()
      modifies Repr()
      ensures Valid() && fresh(Repr() - old(Repr())) && expire.level >= old(expire.level)
      ensures data.index == old(data.index) && expire.index == old(expire.index)
      ensures View() == old(View())
      ensures entry == if key in data.contents then data.index[key] else null
      ensures entry != null ==> entry in data.repr && entry.key.text == key && entry.value == data.contents[key]
      ensures stale <==> entry != null && Expired(View(), key, now)
    {
      hide Table.LaidOut;
      hide Searched;
      hide Table.Intact;
      entry := data.Find(key);
      if entry == null {
        return null, false;
      }
      stale := Stale(key, now);
    }

    method FindOrCreate(key: Key) returns (entry: Entry<Value>, found: bool)
      requires Valid() && |data.contents| < MAX_ENTRIES
      modifies Repr()
      ensures Valid() && fresh(Repr() - old(Repr())) && expire.level >= old(expire.level)
      ensures data.index == old(data.index)[key := entry] && expire.index == old(expire.index)
      ensures entry in data.repr && entry.key.text == key && (found <==> key in old(data.contents))
      ensures Unshared() == old(Unshared())
      ensures found ==> entry == old(data.index)[key] && View() == old(View()) && entry.value == data.contents[key]
      ensures View() == old(View()).(data := old(View()).data[key := entry.value])
    {
      hide Table.Intact;
      entry, found := data.FindOrCreate(key);
    }

    method Upsert(key: Key, value: Value) returns (entry: Entry<Value>, found: bool)
      requires Valid() && |data.contents| < MAX_ENTRIES
      modifies Repr()
      ensures Valid() && fresh(Repr() - old(Repr())) && expire.level >= old(expire.level)
      ensures data.index == old(data.index)[key := entry] && expire.index == old(expire.index)
      ensures entry.key.text == key && (found <==> key in old(data.contents)) && Unshared() == old(Unshared())
      ensures View() == old(View()).(data := old(View()).data[key := value])
    {
      hide Table.Intact;
      entry, found := data.Upsert(key, value);
    }

    method EraseDeadline(key: Key)
      requires Valid()
      modifies Repr()
      ensures Valid() && fresh(Repr() - old(Repr())) && expire.level >= old(expire.level)
      ensures data.index == old(data.index) && expire.index == old(expire.index) - {key}
      ensures Unshared() == old(Unshared()) - {key} && Unshared() <= View().expire.Keys
      ensures View() == old(View()).(expire := old(View()).expire - {key})
    {
      hide Table.Intact;
      var _ := expire.Erase(key);
    }

    method Overwrite(key: Key, entry: Entry<Value>, value: Value)
      requires Valid() && key in data.index && data.index[key] == entry && entry in data.repr && entry.key.text == key
      modifies Repr()
      ensures Valid() && Repr() == old(Repr()) && expire.level == old(expire.level) && Unshared() == old(Unshared())
      ensures data.index == old(data.index) && expire.index == old(expire.index)
      ensures View() == old(View()).(data := old(View()).data[key := value])
    {
      hide Table.Intact;
      data.Assign(entry, value);
    }

    /** The entry of a live key. A stale key is erased from both tables. */
    method FindOrExpire(key: Key, now: Time) returns (entry: Entry?<Value>)
      requires Valid()
      modifies Repr()
      ensures Valid() && fresh(Repr() - old(Repr())) && expire.level >= old(expire.level)
      ensures Unshared() == old(Unshared()) * View().expire.Keys
      ensures View() == Expire(old(View()), key, now)
      ensures entry != null <==> Alive(old(View()), key, now)
      ensures entry != null ==>
                key in data.contents && entry.value == data.contents[key] && Unshared() == old(Unshared())
    {
      hide Table.Intact;
      var stale;
      entry, stale := Probe(key, now);
      if stale {
        EraseKey(key);
        entry := null;
      }
    }

    /** Puts a deadline on the key of a data entry. The deadline entry shares the key object; one that is there and
        does not fails the assertion of the source. */
    method PutDeadline(key: Key, entry: Entry<Value>, deadline: Time) returns (held: bool)
      requires Valid() && |data.contents| < MAX_ENTRIES
      requires key in data.index && data.index[key] == entry && entry.key.text == key
      modifies Repr()
      ensures Valid() && fresh(Repr() - old(Repr())) && expire.level >= old(expire.level)
      ensures held <==> key !in old(Unshared())
      ensures Unshared() == old(Unshared())
      ensures View() == if held then old(View()).(expire := old(View()).expire[key := deadline]) else old(View())
    {
      hide Table.Intact;
      SubsetSize(expire.contents.Keys, data.contents.Keys);
      held := expire.UpsertShared(entry.key, deadline);
    }

    /** SET's write with GET. Its status never tells whether there was an entry. */
    method SetAndGet(key: Key, value: Value, now: Time) returns (entry: Entry<Value>, oldValue: Option<Value>)
      requires Valid() && |data.contents| < MAX_ENTRIES
      modifies Repr()
      ensures Valid() && fresh(Repr() - old(Repr())) && expire.level >= old(expire.level)
      ensures Unshared() == old(Unshared()) * View().expire.Keys
      ensures (View(), Inserted, oldValue) == Keyspace.SetData(old(View()), key, value, Regular, true, now)
      ensures key in data.index && data.index[key] == entry && entry.key.text == key
    {
      hide Valid;
      hide Unshared;
      oldValue := None;
      var found;
      entry, found := FindOrCreate(key);
      if found {
        var stale := Stale(key, now);
        if !stale {
          oldValue := Some(entry.value);
        }
      }
      Overwrite(key, entry, value);
      assert View().data == old(View()).data[key := value];
      OnlyWithDeadline();
    }

    /** SET's write if the key is absent or stale. */
    method SetIfAbsent(key: Key, value: Value, now: Time) returns (status: SetStatus, entry: Entry?<Value>)
      requires Valid() && |data.contents| < MAX_ENTRIES
      modifies Repr()
      ensures Valid() && fresh(Repr() - old(Repr())) && expire.level >= old(expire.level)
      ensures Unshared() == old(Unshared()) * View().expire.Keys
      ensures forall get :: (View(), status, None) == Keyspace.SetData(old(View()), key, value, NX, get, now)
      ensures if status == NoOp then entry == null
              else entry != null && key in data.index && data.index[key] == entry && entry.key.text == key
    {
      hide Table.Intact;
      var found, stale := Probe(key, now);
      if found == null {
        var added, _ := Upsert(key, value);
        return Inserted, added;
      }
      if !stale {
        return NoOp, null;
      }
      Overwrite(key, found, value);
      EraseDeadline(key);
      return Inserted, found;
    }

    /** SET's write if the key is live. */
    method SetIfPresent(key: Key, value: Value, get: bool, now: Time)
        returns (status: SetStatus, entry: Entry?<Value>, oldValue: Option<Value>)
      requires Valid()
      modifies Repr()
      ensures Valid() && fresh(Repr() - old(Repr())) && expire.level >= old(expire.level)
      ensures Unshared() == old(Unshared()) * View().expire.Keys
      ensures (View(), status, oldValue) == Keyspace.SetData(old(View()), key, value, XX, get, now)
      ensures if status == NoOp then entry == null
              else entry != null && key in data.index && data.index[key] == entry && entry.key.text == key
    {
      hide Table.Intact;
      oldValue := None;
      var found, stale := Probe(key, now);
      if found == null {
        return NoOp, null, None;
      }
      if stale {
        EraseKey(key);
        return NoOp, null, None;
      }
      if get {
        oldValue := Some(found.value);
      }
      Overwrite(key, found, value);
      return Updated, found, oldValue;
    }

    method SetData(key: Key, value: Value, mode: SetMode, get: bool, now: Time)
        returns (status: SetStatus, entry: Entry?<Value>, oldValue: Option<Value>)
      requires Valid() && |data.contents| < MAX_ENTRIES
      modifies Repr()
      ensures Valid() && fresh(Repr() - old(Repr())) && expire.level >= old(expire.level)
      ensures Unshared() == old(Unshared()) * View().expire.Keys
      ensures (View(), status, oldValue) == Keyspace.SetData(old(View()), key, value, mode, get, now)
      ensures if status == NoOp then entry == null
              else entry != null && key in data.index && data.index[key] == entry && entry.key.text == key
    {
      hide Table.Intact;
      oldValue := None;
      match mode
      case Regular =>
        if !get {
          var e, present := Upsert(key, value);
          entry, status := e, if present then Updated else Inserted;
        } else {
          entry, oldValue := SetAndGet(key, value, now);
          status := Inserted;
        }
      case NX =>
        status, entry := SetIfAbsent(key, value, now);
      case XX =>
        status, entry, oldValue := SetIfPresent(key, value, get, now);
    }

    /** The cron job's share of rehashing. */
    method IncrementalRehashing(dataTimeUp: nat -> bool, expireTimeUp: nat -> bool)
      requires Valid()
      modifies Repr()
      ensures Valid() && fresh(Repr() - old(Repr())) && expire.level >= old(expire.level)
      ensures Unshared() == old(Unshared())
      ensures View() == old(View())
      ensures (forall i :: !dataTimeUp(i)) ==> !data.rehashing
      ensures (forall i :: !expireTimeUp(i)) ==> !expire.rehashing
    {
      hide Table.Intact;
      data.Rehash(dataTimeUp);
      expire.Rehash(expireTimeUp);
    }

    // -------------------------------------------------------------- commands

    method Get(key: Key, now: Time) returns (reply: Reply)
      requires Valid()
      modifies Repr()
      ensures Valid() && fresh(Repr() - old(Repr())) && expire.level >= old(expire.level)
      ensures Unshared() == old(Unshared()) * View().expire.Keys
      ensures View() == After(old(View()), Command.Get(key), now) && reply == Answer(old(View()), Command.Get(key), now)
    {
      hide Table.Intact;
      var entry := FindOrExpire(key, now);
      reply := if entry == null then Nil else Str(entry.value);
    }

    method FetchValue(key: Key, now: Time) returns (value: Option<Value>)
      requires Valid()
      modifies Repr()
      ensures Valid() && fresh(Repr() - old(Repr())) && expire.level >= old(expire.level)
      ensures Unshared() == old(Unshared()) * View().expire.Keys
      ensures View() == Expire(old(View()), key, now) && value == Lookup(old(View()), key, now)
      ensures value.Some? ==> Unshared() == old(Unshared())
    {
      hide Table.Intact;
      var entry := FindOrExpire(key, now);
      value := if entry == null then None else Some(entry.value);
    }

    method MGet(keys: seq<Key>, now: Time) returns (reply: Reply)
      requires Valid()
      modifies Repr()
      ensures Valid() && fresh(Repr() - old(Repr())) && expire.level >= old(expire.level)
      ensures Unshared() == old(Unshared()) * View().expire.Keys
      ensures View() == After(old(View()), Command.MGet(keys), now)
      ensures reply == Answer(old(View()), Command.MGet(keys), now)
    {
      hide Valid;
      hide Unshared;
      hide Expire;
      hide Lookup;
      OnlyWithDeadline();
      var values := [];
      for i := 0 to |keys|
        invariant Valid() && fresh(Repr() - old(Repr())) && expire.level >= old(expire.level)
        invariant Unshared() == old(Unshared()) * View().expire.Keys
        invariant ExpireAll(View(), keys[i..], now) == ExpireAll(old(View()), keys, now)
        invariant values + LookupAll(View(), keys[i..], now) == LookupAll(old(View()), keys, now)
      {
        assert keys[i..][0] == keys[i] && keys[i..][1..] == keys[i + 1..];
        ExpireShrinks(View(), keys[i], now);
        var value := FetchValue(keys[i], now);
        values := values + [value];
      }
      reply := Strs(values);
    }

    method Exists(keys: seq<Key>, now: Time) returns (reply: Reply)
      requires Valid()
      modifies Repr()
      ensures Valid() && fresh(Repr() - old(Repr())) && expire.level >= old(expire.level)
      ensures Unshared() == old(Unshared()) * View().expire.Keys
      ensures View() == After(old(View()), Command.Exists(keys), now)
      ensures reply == Answer(old(View()), Command.Exists(keys), now)
    {
      hide Table.Intact;
      var count := 0;
      for i := 0 to |keys|
        invariant Valid() && fresh(Repr() - old(Repr())) && expire.level >= old(expire.level)
        invariant Unshared() == old(Unshared()) * View().expire.Keys
        invariant ExpireAll(View(), keys[i..], now) == ExpireAll(old(View()), keys, now)
        invariant count + CountAlive(View(), keys[i..], now) == CountAlive(old(View()), keys, now)
      {
        assert keys[i..][0] == keys[i] && keys[i..][1..] == keys[i + 1..];
        var entry := FindOrExpire(keys[i], now);
        if entry != null {
          count := count + 1;
        }
      }
      reply := Int(count);
    }

    method Strlen(key: Key, now: Time) returns (reply: Reply)
      requires Valid()
      modifies Repr()
      ensures Valid() && fresh(Repr() - old(Repr())) && expire.level >= old(expire.level)
      ensures Unshared() == old(Unshared()) * View().expire.Keys
      ensures View() == After(old(View()), Command.Strlen(key), now)
      ensures reply == Answer(old(View()), Command.Strlen(key), now)
    {
      hide Table.Intact;
      var entry := FindOrExpire(key, now);
      reply := Int(if entry == null then 0 else |entry.value|);
    }

    method Ttl(key: Key, now: Time) returns (reply: Reply)
      requires Valid()
      modifies Repr()
      ensures Valid() && fresh(Repr() - old(Repr())) && expire.level >= old(expire.level)
      ensures Unshared() == old(Unshared()) * View().expire.Keys
      ensures View() == After(old(View()), Command.Ttl(key), now) && reply == Answer(old(View()), Command.Ttl(key), now)
      ensures TellsTime(old(View()), key, now, reply)
    {
      hide Table.LaidOut;
      hide Searched;
      hide Table.Intact;
      var dataEntry := data.Find(key);
      if dataEntry == null {
        return Int(-2);
      }
      var expireEntry := expire.Find(key);
      if expireEntry == null {
        return Int(-1);
      }
      var deadline := expireEntry.value;
      if deadline <= now {
        EraseKey(key);
        return Int(-2);
      }
      reply := Int(Truncate(deadline - now));
    }

    method Del(keys: seq<Key>, now: Time) returns (reply: Reply)
      requires Valid()
      modifies Repr()
      ensures Valid() && fresh(Repr() - old(Repr())) && expire.level >= old(expire.level)
      ensures Unshared() == old(Unshared()) * View().expire.Keys
      ensures View() == After(old(View()), Command.Del(keys), now)
      ensures reply == Answer(old(View()), Command.Del(keys), now)
    {
      hide Table.Intact;
      var deleted := 0;
      for i := 0 to |keys|
        invariant Valid() && fresh(Repr() - old(Repr())) && expire.level >= old(expire.level)
        invariant Unshared() == old(Unshared()) * View().expire.Keys
        invariant DeleteAll(View(), keys[i..], now) == DeleteAll(old(View()), keys, now)
        invariant deleted + CountDeleted(View(), keys[i..], now) == CountDeleted(old(View()), keys, now)
      {
        assert keys[i..][0] == keys[i] && keys[i..][1..] == keys[i + 1..];
        var removed := DeleteKey(keys[i], now);
        if removed {
          deleted := deleted + 1;
        }
      }
      reply := Int(deleted);
    }

    method DeleteKey(key: Key, now: Time) returns (removed: bool)
      requires Valid()
      modifies Repr()
      ensures Valid() && fresh(Repr() - old(Repr())) && expire.level >= old(expire.level)
      ensures Unshared() == old(Unshared()) * View().expire.Keys
      ensures View() == DeleteOne(old(View()), key, now) && (removed <==> Alive(old(View()), key, now))
    {
      hide Table.Intact;
      var entry := FindOrExpire(key, now);
      removed := entry != null;
      if removed {
        EraseKey(key);
      }
    }

    method GetDel(key: Key, now: Time) returns (reply: Reply)
      requires Valid()
      modifies Repr()
      ensures Valid() && fresh(Repr() - old(Repr())) && expire.level >= old(expire.level)
      ensures Unshared() == old(Unshared()) * View().expire.Keys
      ensures View() == After(old(View()), Command.GetDel(key), now)
      ensures reply == Answer(old(View()), Command.GetDel(key), now)
    {
      hide Table.Intact;
      var entry := FindOrExpire(key, now);
      if entry == null {
        return Nil;
      }
      reply := Str(entry.value);
      EraseKey(key);
    }

    /** GETEX puts its deadline under a key object of its own, so a key that had no deadline ends up with two key
        objects. */
    method GetEX(key: Key, persist: bool, deadline: Option<Time>, now: Time) returns (reply: Reply)
      requires Valid() && |data.contents| < MAX_ENTRIES
      modifies Repr()
      ensures Valid() && fresh(Repr() - old(Repr())) && expire.level >= old(expire.level)
      ensures View() == After(old(View()), Command.GetEX(key, persist, deadline), now)
      ensures reply == Answer(old(View()), Command.GetEX(key, persist, deadline), now)
      ensures var u := if key in old(View()).expire then old(Unshared()) else old(Unshared()) + {key};
              Unshared() == u * View().expire.Keys
    {
      hide Valid;
      hide Unshared;
      hide After;
      hide Answer;
      hide Expire;
      hide Lookup;
      IsCoherent();
      OnlyWithDeadline();
      RenewIs(View(), key, persist, deadline, now);
      var value := FetchValue(key, now);
      OnlyWithDeadline();
      if value.None? {
        return Nil;
      }
      if persist {
        EraseDeadline(key);
      } else if deadline.Some? {
        PutOwnDeadline(key, deadline.value);
      }
      reply := Str(value.value);
    }

    method PutOwnDeadline(key: Key, deadline: Time)
      requires Valid() && |data.contents| < MAX_ENTRIES && key in data.contents
      modifies Repr()
      ensures Valid() && fresh(Repr() - old(Repr())) && expire.level >= old(expire.level)
      ensures View() == old(View()).(expire := old(View()).expire[key := deadline])
      ensures Unshared() == if key in old(View()).expire then old(Unshared()) else old(Unshared()) + {key}
    {
      hide Table.Intact;
      hide Split;
      SubsetSize(expire.contents.Keys, data.contents.Keys);
      var entry, found := expire.Upsert(key, deadline);
      if found {
        assert expire.index == old(expire.index);
      } else {
        SplitOne(data.index, old(expire.index), key, entry);
      }
    }

    method SetNX(key: Key, value: Value, now: Time) returns (reply: Reply)
      requires Valid() && |data.contents| < MAX_ENTRIES
      modifies Repr()
      ensures Valid() && fresh(Repr() - old(Repr())) && expire.level >= old(expire.level)
      ensures Unshared() == old(Unshared()) * View().expire.Keys
      ensures View() == After(old(View()), Command.SetNX(key, value), now)
      ensures reply == Answer(old(View()), Command.SetNX(key, value), now)
    {
      hide Table.Intact;
      var status, _, _ := SetData(key, value, NX, false, now);
      reply := Int(if status == Inserted then 1 else 0);
    }

    /** Sets a key and drops its deadline. */
    method PutPlain(key: Key, value: Value, now: Time)
      requires Valid() && |data.contents| < MAX_ENTRIES
      modifies Repr()
      ensures Valid() && fresh(Repr() - old(Repr())) && expire.level >= old(expire.level)
      ensures Unshared() == old(Unshared()) * View().expire.Keys
      ensures View() == Tables(old(View()).data[key := value], old(View()).expire - {key})
      ensures |data.contents| <= |old(data.contents)| + 1
    {
      hide Table.Intact;
      hide Unshared;
      var _, _, _ := SetData(key, value, Regular, false, now);
      EraseDeadline(key);
    }

    method MSet(pairs: seq<(Key, Value)>, now: Time) returns (reply: Reply)
      requires Valid() && |data.contents| + |pairs| <= MAX_ENTRIES
      modifies Repr()
      ensures Valid() && fresh(Repr() - old(Repr())) && expire.level >= old(expire.level)
      ensures Unshared() == old(Unshared()) * View().expire.Keys
      ensures View() == After(old(View()), Command.MSet(pairs), now)
      ensures reply == Answer(old(View()), Command.MSet(pairs), now)
    {
      hide Valid;
      hide Unshared;
      OnlyWithDeadline();
      for i := 0 to |pairs|
        invariant Valid() && fresh(Repr() - old(Repr())) && expire.level >= old(expire.level)
        invariant Unshared() == old(Unshared()) * View().expire.Keys
        invariant |data.contents| + |pairs| - i <= MAX_ENTRIES
        invariant SetAll(View(), pairs[i..]) == SetAll(old(View()), pairs)
      {
        assert pairs[i..][0] == pairs[i] && pairs[i..][1..] == pairs[i + 1..];
        PutPlain(pairs[i].0, pairs[i].1, now);
      }
      reply := Ok;
    }

    /** SETEX. It gives no reply if the deadline that is there is under another key object. */
    method SetEX(key: Key, value: Value, at: Time, now: Time) returns (reply: Option<Reply>)
      requires Valid() && |data.contents| + 1 < MAX_ENTRIES
      modifies Repr()
      ensures Valid() && fresh(Repr() - old(Repr())) && expire.level >= old(expire.level)
      ensures Does(old(View()), old(Unshared()), Command.SetEX(key, value, at), now, View(), Unshared(), reply)
    {
      hide Valid;
      hide Unshared;
      hide Does;
      ghost var view, split := View(), Unshared();
      OnlyWithDeadline();
      var entry, _ := Upsert(key, value);
      var held := PutDeadline(key, entry, at);
      reply := if held then Some(Ok) else None;
      SetExDoes(view, split, key, value, at, now);
    }

    method ApplyDeadline(key: Key, entry: Entry<Value>, status: SetStatus, deadline: Option<Time>, keepTtl: bool)
        returns (held: bool)
      requires Valid() && |data.contents| < MAX_ENTRIES
      requires key in data.index && data.index[key] == entry && entry.key.text == key
      modifies Repr()
      ensures Valid() && fresh(Repr() - old(Repr())) && expire.level >= old(expire.level)
      ensures held <==> deadline.None? || key !in old(Unshared())
      ensures Unshared() == old(Unshared()) * View().expire.Keys
      ensures View() == if held then SetDeadline(old(View()), key, status, deadline, keepTtl) else old(View())
    {
      hide Valid;
      hide Unshared;
      OnlyWithDeadline();
      held := true;
      if deadline.Some? {
        held := PutDeadline(key, entry, deadline.value);
      } else if status == Updated && !keepTtl {
        EraseDeadline(key);
      }
    }

    /** SET. It gives no reply if it meets a deadline under another key object where it would overwrite it. */
    method Set(key: Key, value: Value, mode: SetMode, deadline: Option<Time>, keepTtl: bool, get: bool, now: Time)
        returns (reply: Option<Reply>)
      requires Valid() && |data.contents| + 1 < MAX_ENTRIES
      modifies Repr()
      ensures Valid() && fresh(Repr() - old(Repr())) && expire.level >= old(expire.level)
      ensures Does(old(View()), old(Unshared()), Command.Set(key, value, mode, deadline, keepTtl, get), now,
                   View(), Unshared(), reply)
    {
      hide Valid;
      hide Unshared;
      hide Does;
      hide SetDeadline;
      hide Keyspace.SetData;
      ghost var view, split := View(), Unshared();
      IsCoherent();
      OnlyWithDeadline();
      SetGrows(view, key, value, mode, get, now);
      var status, entry, oldValue := SetData(key, value, mode, get, now);
      ghost var written := Unshared();
      var held := status == NoOp;
      if !held {
        held := ApplyDeadline(key, entry, status, deadline, keepTtl);
      }
      reply := if held then Some(SetReply(status, get, oldValue)) else None;
      SetDoes(view, split, key, value, mode, deadline, keepTtl, get, now, written, View(), Unshared(), reply);
    }

    /** Any command: the tables, the keys under two key objects and the reply are as the pure model says. */
    method Execute(cmd: Command, now: Time) returns (reply: Option<Reply>)
      requires Valid() && |data.contents| + Growth(cmd) < MAX_ENTRIES
      modifies Repr()
      ensures Valid() && fresh(Repr() - old(Repr())) && expire.level >= old(expire.level)
      ensures Does(old(View()), old(Unshared()), cmd, now, View(), Unshared(), reply)
    {
      hide Valid;
      hide Unshared;
      if cmd.Set? {
        reply := Set(cmd.key, cmd.value, cmd.mode, cmd.deadline, cmd.keepTtl, cmd.get, now);
      } else if cmd.SetEX? {
        reply := SetEX(cmd.key, cmd.value, cmd.at, now);
      } else {
        var r := ExecuteOther(cmd, now);
        reply := Some(r);
      }
    }

    /** The commands that meet no assertion. */
    method ExecuteOther(cmd: Command, now: Time) returns (reply: Reply)
      requires Valid() && |data.contents| + Growth(cmd) < MAX_ENTRIES && !cmd.Set? && !cmd.SetEX?
      modifies Repr()
      ensures Valid() && fresh(Repr() - old(Repr())) && expire.level >= old(expire.level)
      ensures View() == After(old(View()), cmd, now) && reply == Answer(old(View()), cmd, now)
      ensures Unshared() == SplitAfter(old(View()), old(Unshared()), cmd, now)
    {
      hide Valid;
      hide Unshared;
      hide After;
      hide Answer;
      match cmd
      case Get(key) => reply := Get(key, now);
      case MGet(keys) => reply := MGet(keys, now);
      case Strlen(key) => reply := Strlen(key, now);
      case Exists(keys) => reply := Exists(keys, now);
      case Ttl(key) => reply := Ttl(key, now);
      case Del(keys) => reply := Del(keys, now);
      case GetDel(key) => reply := GetDel(key, now);
      case GetEX(key, persist, deadline) => reply := GetEX(key, persist, deadline, now);
      case SetNX(key, value) => reply := SetNX(key, value, now);
      case MSet(pairs) => reply := MSet(pairs, now);
    }
  }

  /** How many data entries a command may add. */
  function Growth(cmd: Command): nat {
    match cmd
    case MSet(pairs) => |pairs|
    case SetNX(_, _) => 1
    case SetEX(_, _, _) => 1
    case Set(_, _, _, _, _, _) => 1
    case _ => 0
  }

  /** The command overwrites any deadline its key has, through the key object of the data entry: the table
      asserts that the deadline entry holds the same one. */
  predicate Rewrites(t: Tables, cmd: Command, now: Time) {
    match cmd
    case SetEX(_, _, _) => true
    case Set(k, _, mode, d, _, _) => d.Some? && (mode == Regular || (mode == XX && Alive(t, k, now)))
    case _ => false
  }

  /** The command fails the assertion on tables `t` whose keys with two key objects are `split`. */
  predicate Fails(t: Tables, split: set<Key>, cmd: Command, now: Time) {
    Rewrites(t, cmd, now) && cmd.key in split
  }

  /** The keys with two key objects after a command: GETEX adds one when it puts a deadline on a key without any,
      SET NX on a stale key makes its deadline anew, and otherwise a key stays until its deadline goes. */
  function SplitAfter(t: Tables, split: set<Key>, cmd: Command, now: Time): set<Key> {
    var u :=
      if cmd.GetEX? && cmd.key !in t.expire then split + {cmd.key}
      else if cmd.Set? && cmd.mode == NX && Expired(t, cmd.key, now) then split - {cmd.key}
      else split;
    u * After(t, cmd, now).expire.Keys
  }

  /** The tables at a failed assertion: the value is written, the deadline is not. */
  function Halted(t: Tables, cmd: Command, now: Time): Tables {
    match cmd
    case SetEX(k, v, _) => t.(data := t.data[k := v])
    case Set(k, v, mode, _, _, get) => Keyspace.SetData(t, k, v, mode, get, now).0
    case _ => t
  }

  /** What a command does: without a reply exactly when it fails the assertion. */
  ghost predicate Does(t: Tables, split: set<Key>, cmd: Command, now: Time, after: Tables, splitAfter: set<Key>,
                       reply: Option<Reply>) {
    match reply
    case None => Fails(t, split, cmd, now) && after == Halted(t, cmd, now) && splitAfter == split
    case Some(r) =>
      && !Fails(t, split, cmd, now) && after == After(t, cmd, now) && r == Answer(t, cmd, now)
      && splitAfter == SplitAfter(t, split, cmd, now)
  }

  /** SET is its write, which keeps the keys `written` of those with two key objects, and its deadline change. */
  lemma SetDoes(t: Tables, split: set<Key>, key: Key, value: Value, mode: SetMode, deadline: Option<Time>,
                keepTtl: bool, get: bool, now: Time, written: set<Key>, after: Tables, splitAfter: set<Key>,
                reply: Option<Reply>)
    requires Coherent(t) && split <= t.expire.Keys
    requires var (s, status, oldValue) := Keyspace.SetData(t, key, value, mode, get, now);
             var held := status == NoOp || deadline.None? || key !in written;
             && written == split * s.expire.Keys && splitAfter == written * after.expire.Keys
             && after == (if held && status != NoOp then SetDeadline(s, key, status, deadline, keepTtl) else s)
             && reply == if held then Some(SetReply(status, get, oldValue)) else None
    ensures Does(t, split, Command.Set(key, value, mode, deadline, keepTtl, get), now, after, splitAfter, reply)
  {
    assert forall k :: k in split ==> k in t.data && k in t.expire;
  }

  lemma SetExDoes(t: Tables, split: set<Key>, key: Key, value: Value, at: Time, now: Time)
    requires split <= t.expire.Keys
    ensures var cmd, s := Command.SetEX(key, value, at), t.(data := t.data[key := value]);
            if key in split then Does(t, split, cmd, now, s, split, None)
            else Does(t, split, cmd, now, s.(expire := s.expire[key := at]), split, Some(Ok))
  {
  }

  lemma RenewIs(t: Tables, key: Key, persist: bool, deadline: Option<Time>, now: Time)
    requires Coherent(t)
    ensures var cmd := Command.GetEX(key, persist, deadline);
            match Lookup(t, key, now)
            case None =>
              && After(t, cmd, now) == Expire(t, key, now) && Answer(t, cmd, now) == Nil
              && key !in Expire(t, key, now).expire && Expire(t, key, now).expire.Keys <= t.expire.Keys
            case Some(v) =>
              && After(t, cmd, now) == Renew(t, key, persist, deadline) && Answer(t, cmd, now) == Str(v)
              && Expire(t, key, now) == t && key in t.data
  {
  }

  lemma ExpireShrinks(t: Tables, key: Key, now: Time)
    ensures Expire(t, key, now).expire.Keys <= t.expire.Keys
  {
  }

  /** A SET adds at most one data entry. */
  lemma SetGrows(t: Tables, key: Key, value: Value, mode: SetMode, get: bool, now: Time)
    ensures |Keyspace.SetData(t, key, value, mode, get, now).0.data| <= |t.data| + 1
  {
    SubsetSize((t.data - {key}).Keys, t.data.Keys);
  }

  /** Three commands on a new service, none of the first two failing. */
  method Three(hash: Key -> nat, a: Command, b: Command, c: Command) returns (reply: Option<Reply>)
    requires Growth(a) + Growth(b) + Growth(c) < MAX_ENTRIES
    requires |After(Tables(map[], map[]), a, 0).data| <= Growth(a)
    requires |After(After(Tables(map[], map[]), a, 0), b, 0).data| <= Growth(a) + Growth(b)
    requires var t := Tables(map[], map[]);
             var u := SplitAfter(t, {}, a, 0);
             !Fails(t, {}, a, 0) && !Fails(After(t, a, 0), u, b, 0)
    ensures var t := Tables(map[], map[]);
            var t1, u1 := After(t, a, 0), SplitAfter(t, {}, a, 0);
            reply.None? <==> Fails(After(t1, b, 0), SplitAfter(t1, u1, b, 0), c, 0)
  {
    hide Service.Valid;
    hide Service.Unshared;
    hide After;
    hide Answer;
    hide Fails;
    hide SplitAfter;
    hide Growth;
    hide Halted;
    var service := new Service(hash);
    var _ := service.Execute(a, 0);
    var _ := service.Execute(b, 0);
    reply := service.Execute(c, 0);
  }

  /** GETEX gives a key its first deadline under a key object of its own, and the SETEX after it fails the
      assertion. If SETEX gave the first deadline, the same two commands are answered. */
  method FirstDeadlineDecides(hash: Key -> nat, key: Key) returns (bySet: Option<Reply>, byGetEX: Option<Reply>)
    ensures byGetEX.None? && bySet.Some?
  {
    var plain, setEX := Command.Set(key, "a", Regular, None, false, false), Command.SetEX(key, "a", 5);
    var getEX, again := Command.GetEX(key, false, Some(10)), Command.SetEX(key, "b", 20);
    var t := Tables(map[], map[]);
    assert After(t, plain, 0) == Tables(map[key := "a"], map[]);
    assert After(t, setEX, 0) == Tables(map[key := "a"], map[key := 5]);
    byGetEX := Three(hash, plain, getEX, again);
    bySet := Three(hash, setEX, getEX, again);
  }
}
