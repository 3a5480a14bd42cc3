/** What the commands do to the data table and the deadline table, and the store that clients believe in. */
module Keyspace {
  import opened Chaining
  import opened Collections

  type Value = string
  type Time = int

  /** The contents of the data table and of the deadline table. */
  datatype Tables = Tables(data: map<Key, Value>, expire: map<Key, Time>)

  datatype SetMode = Regular | NX | XX

  datatype Command =
    | Get(key: Key)
    | MGet(keys: seq<Key>)
    | Strlen(key: Key)
    | Exists(keys: seq<Key>)
    | Ttl(key: Key)
    | Del(keys: seq<Key>)
    | GetDel(key: Key)
    | GetEX(key: Key, persist: bool, deadline: Option<Time>)
    | SetNX(key: Key, value: Value)
    | MSet(pairs: seq<(Key, Value)>)
    | SetEX(key: Key, value: Value, at: Time)
    | Set(key: Key, value: Value, mode: SetMode, deadline: Option<Time>, keepTtl: bool, get: bool)

  datatype Reply = Ok | Nil | Int(n: int) | Str(v: Value) | Strs(vs: seq<Option<Value>>)

  // ---------------------------------------------------------------- the two tables

  predicate Coherent(t: Tables) {
    t.expire.Keys <= t.data.Keys
  }

  predicate Expired(t: Tables, key: Key, now: Time) {
    key in t.expire && t.expire[key] <= now
  }

  predicate Alive(t: Tables, key: Key, now: Time) {
    key in t.data && !Expired(t, key, now)
  }

  function EraseBoth(t: Tables, key: Key): Tables {
    Tables(t.data - {key}, t.expire - {key})
  }

  /** Lazy expiry: a stale key is erased when it is looked up. */
  function Expire(t: Tables, key: Key, now: Time): Tables {
    if key in t.data && Expired(t, key, now) then EraseBoth(t, key) else t
  }

  function Lookup(t: Tables, key: Key, now: Time): Option<Value> {
    if Alive(t, key, now) then Some(t.data[key]) else None
  }

  function ExpireAll(t: Tables, keys: seq<Key>, now: Time): Tables
    decreases |keys|
  {
    if keys == [] then t else ExpireAll(Expire(t, keys[0], now), keys[1..], now)
  }

  function LookupAll(t: Tables, keys: seq<Key>, now: Time): seq<Option<Value>>
    decreases |keys|
  {
    if keys == [] then [] else [Lookup(t, keys[0], now)] + LookupAll(Expire(t, keys[0], now), keys[1..], now)
  }

  function CountAlive(t: Tables, keys: seq<Key>, now: Time): nat
    decreases |keys|
  {
    if keys == [] then 0
    else (if Alive(t, keys[0], now) then 1 else 0) + CountAlive(Expire(t, keys[0], now), keys[1..], now)
  }

  function DeleteAll(t: Tables, keys: seq<Key>, now: Time): Tables
    decreases |keys|
  {
    if keys == [] then t else DeleteAll(DeleteOne(t, keys[0], now), keys[1..], now)
  }

  function DeleteOne(t: Tables, key: Key, now: Time): Tables {
    var s := Expire(t, key, now);
    if Alive(t, key, now) then EraseBoth(s, key) else s
  }

  function CountDeleted(t: Tables, keys: seq<Key>, now: Time): nat
    decreases |keys|
  {
    if keys == [] then 0
    else (if Alive(t, keys[0], now) then 1 else 0) + CountDeleted(DeleteOne(t, keys[0], now), keys[1..], now)
  }

  function SetAll(t: Tables, pairs: seq<(Key, Value)>): Tables
    decreases |pairs|
  {
    if pairs == [] then t
    else SetAll(Tables(t.data[pairs[0].0 := pairs[0].1], t.expire - {pairs[0].0}), pairs[1..])
  }

  datatype SetStatus = NoOp | Inserted | Updated

  /** The data-table part of SET: new tables, what happened, and the old value if it was asked for. */
  function SetData(t: Tables, key: Key, value: Value, mode: SetMode, get: bool,
                   now: Time): (Tables, SetStatus, Option<Value>) {
    match mode
    case Regular =>
      var s := t.(data := t.data[key := value]);
      if !get then (s, if key in t.data then Updated else Inserted, None)
      else (s, Inserted, Lookup(t, key, now))
    case NX =>
      if key in t.data then
        if Expired(t, key, now) then (Tables(t.data[key := value], t.expire - {key}), Inserted, None)
        else (t, NoOp, None)
      else (t.(data := t.data[key := value]), Inserted, None)
    case XX =>
      if key !in t.data then (t, NoOp, None)
      else if Expired(t, key, now) then (EraseBoth(t, key), NoOp, None)
      else (t.(data := t.data[key := value]), Updated, if get then Some(t.data[key]) else None)
  }

  function SetDeadline(t: Tables, key: Key, status: SetStatus, deadline: Option<Time>, keepTtl: bool): Tables {
    match deadline
    case Some(d) => t.(expire := t.expire[key := d])
    case None => if status == Updated && !keepTtl then t.(expire := t.expire - {key}) else t
  }

  function SetReply(status: SetStatus, get: bool, oldValue: Option<Value>): Reply {
    if status == NoOp then Nil
    else if get then match oldValue case None => Nil case Some(v) => Str(v)
    else Ok
  }

  function Renew(t: Tables, key: Key, persist: bool, deadline: Option<Time>): Tables {
    if persist then t.(expire := t.expire - {key})
    else if deadline.Some? then t.(expire := t.expire[key := deadline.value])
    else t
  }

  /** Milliseconds in whole seconds, rounded down. */
  function Truncate(ms: nat): (n: nat)
    ensures 1000 * n <= ms < 1000 * n + 1000
  {
    ms / 1000
  }

  /** The tables after a command. */
  function After(t: Tables, cmd: Command, now: Time): Tables {
    match cmd
    case Get(k) => Expire(t, k, now)
    case MGet(ks) => ExpireAll(t, ks, now)
    case Strlen(k) => Expire(t, k, now)
    case Exists(ks) => ExpireAll(t, ks, now)
    case Ttl(k) => Expire(t, k, now)
    case Del(ks) => DeleteAll(t, ks, now)
    case GetDel(k) => DeleteOne(t, k, now)
    case GetEX(k, persist, d) => if Alive(t, k, now) then Renew(t, k, persist, d) else Expire(t, k, now)
    case SetNX(k, v) => SetData(t, k, v, NX, false, now).0
    case MSet(kvs) => SetAll(t, kvs)
    case SetEX(k, v, d) => Tables(t.data[k := v], t.expire[k := d])
    case Set(k, v, mode, d, keep, get) =>
      var (s, status, _) := SetData(t, k, v, mode, get, now);
      if status == NoOp then s else SetDeadline(s, k, status, d, keep)
  }

  function Answer(t: Tables, cmd: Command, now: Time): Reply {
    match cmd
    case Get(k) => (match Lookup(t, k, now) case None => Nil case Some(v) => Str(v))
    case MGet(ks) => Strs(LookupAll(t, ks, now))
    case Strlen(k) => (match Lookup(t, k, now) case None => Int(0) case Some(v) => Int(|v|))
    case Exists(ks) => Int(CountAlive(t, ks, now))
    case Ttl(k) =>
      if !Alive(t, k, now) then Int(-2)
      else if k !in t.expire then Int(-1)
      else Int(Truncate(t.expire[k] - now))
    case Del(ks) => Int(CountDeleted(t, ks, now))
    case GetDel(k) => (match Lookup(t, k, now) case None => Nil case Some(v) => Str(v))
    case GetEX(k, _, _) => (match Lookup(t, k, now) case None => Nil case Some(v) => Str(v))
    case SetNX(k, v) => Int(if SetData(t, k, v, NX, false, now).1 == Inserted then 1 else 0)
    case MSet(_) => Ok
    case SetEX(_, _, _) => Ok
    case Set(k, v, mode, d, keep, get) =>
      var (_, status, oldValue) := SetData(t, k, v, mode, get, now);
      SetReply(status, get, oldValue)
  }

  /** What the reply to TTL tells: -2 for no such key, -1 for no deadline, else all whole seconds that are left. */
  predicate TellsTime(t: Tables, key: Key, now: Time, reply: Reply) {
    && reply.Int?
    && (reply.n == -2 <==> !Alive(t, key, now))
    && (reply.n == -1 <==> Alive(t, key, now) && key !in t.expire)
    && (Alive(t, key, now) && key in t.expire ==>
          0 <= reply.n && 1000 * reply.n <= t.expire[key] - now < 1000 * reply.n + 1000)
  }

  // ---------------------------------------------------------------- the store clients believe in

  datatype Item = Item(value: Value, deadline: Option<Time>)

  /** Keys with value and deadline. Nothing is ever removed because it is stale. */
  type Store = map<Key, Item>

  predicate Fresh(item: Item, now: Time) {
    item.deadline.None? || now < item.deadline.value
  }

  predicate Holds(s: Store, key: Key, now: Time) {
    key in s && Fresh(s[key], now)
  }

  function Fetch(s: Store, key: Key, now: Time): Option<Value> {
    if Holds(s, key, now) then Some(s[key].value) else None
  }

  function DropAll(s: Store, keys: seq<Key>): Store {
    if keys == [] then s else DropAll(s - {keys[0]}, keys[1..])
  }

  function FetchAll(s: Store, keys: seq<Key>, now: Time): seq<Option<Value>> {
    seq(|keys|, i requires 0 <= i < |keys| => Fetch(s, keys[i], now))
  }

  function CountHeld(s: Store, keys: seq<Key>, now: Time): nat {
    if keys == [] then 0 else (if Holds(s, keys[0], now) then 1 else 0) + CountHeld(s, keys[1..], now)
  }

  /** How many different held keys a list names: what deleting them one after the other removes. */
  function CountDropped(s: Store, keys: seq<Key>, now: Time): nat {
    |set k | k in keys && Holds(s, k, now)|
  }

  function PutAll(s: Store, pairs: seq<(Key, Value)>): Store
    decreases |pairs|
  {
    if pairs == [] then s else PutAll(s[pairs[0].0 := Item(pairs[0].1, None)], pairs[1..])
  }

  /** SET on the store: whether it applies, and the item it writes. */
  predicate SetApplies(s: Store, key: Key, mode: SetMode, now: Time) {
    match mode
    case Regular => true
    case NX => !Holds(s, key, now)
    case XX => Holds(s, key, now)
  }

  function SetItem(s: Store, key: Key, value: Value, deadline: Option<Time>, keepTtl: bool, now: Time): Item {
    Item(value, if deadline.Some? then deadline else if keepTtl && Holds(s, key, now) then s[key].deadline else None)
  }

  function StoreAfter(s: Store, cmd: Command, now: Time): Store {
    match cmd
    case Del(ks) => DropAll(s, ks)
    case GetDel(k) => s - {k}
    case GetEX(k, persist, d) =>
      if !Holds(s, k, now) || (!persist && d.None?) then s
      else s[k := Item(s[k].value, if persist then None else d)]
    case SetNX(k, v) => if Holds(s, k, now) then s else s[k := Item(v, None)]
    case MSet(kvs) => PutAll(s, kvs)
    case SetEX(k, v, d) => s[k := Item(v, Some(d))]
    case Set(k, v, mode, d, keep, _) => if SetApplies(s, k, mode, now) then s[k := SetItem(s, k, v, d, keep, now)]
        else s
    case _ => s
  }

  function StoreAnswer(s: Store, cmd: Command, now: Time): Reply {
    match cmd
    case Get(k) => (match Fetch(s, k, now) case None => Nil case Some(v) => Str(v))
    case MGet(ks) => Strs(FetchAll(s, ks, now))
    case Strlen(k) => (match Fetch(s, k, now) case None => Int(0) case Some(v) => Int(|v|))
    case Exists(ks) => Int(CountHeld(s, ks, now))
    case Ttl(k) =>
      if !Holds(s, k, now) then Int(-2)
      else (match s[k].deadline case None => Int(-1) case Some(d) => Int(Truncate(d - now)))
    case Del(ks) => Int(CountDropped(s, ks, now))
    case GetDel(k) => (match Fetch(s, k, now) case None => Nil case Some(v) => Str(v))
    case GetEX(k, _, _) => (match Fetch(s, k, now) case None => Nil case Some(v) => Str(v))
    case SetNX(k, _) => Int(if Holds(s, k, now) then 0 else 1)
    case MSet(_) => Ok
    case SetEX(_, _, _) => Ok
    case Set(k, _, mode, _, _, get) =>
      if !SetApplies(s, k, mode, now) then Nil
      else if !get then Ok
      else (match Fetch(s, k, now) case None => Nil case Some(v) => Str(v))
  }

  /** The store's reply to TTL for a key with a deadline is the number of whole seconds left, and no other. */
  lemma StoreTellsTime(s: Store, key: Key, now: Time, n: int)
    requires Holds(s, key, now) && s[key].deadline.Some?
    ensures StoreAnswer(s, Ttl(key), now) == Int(n) <==>
            1000 * n <= s[key].deadline.value - now < 1000 * n + 1000
  {
  }

  // ---------------------------------------------------------------- what can be seen

  function ItemOf(t: Tables, key: Key): Item
    requires key in t.data
  {
    Item(t.data[key], if key in t.expire then Some(t.expire[key]) else None)
  }

  /** The part of the tables that is not stale. */
  function Visible(t: Tables, now: Time): Store {
    map k | k in t.data && Alive(t, k, now) :: ItemOf(t, k)
  }

  function Current(s: Store, now: Time): Store {
    map k | k in s && Fresh(s[k], now) :: s[k]
  }
}
