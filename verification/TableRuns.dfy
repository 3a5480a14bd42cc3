/** Whole runs of the hash table against a plain map, and a scan cursor sweep interleaved with them. */
module TableRuns {
  import opened Arithmetic
  import opened Chaining
  import opened Collections
  import opened HashTables
  import opened RandomDraws
  import opened Words
  import opened Scan

  datatype Op<V> =
    | FindOp(key: Key)
    | InsertOp(key: Key, value: V)
    | UpsertOp(key: Key, value: V)
    | EraseOp(key: Key)
    | RehashOp(buckets: nat)

  datatype Reply<V> = Missing | Found(value: V) | Flag(b: bool) | Nothing

  /** What an operation does to a plain map. */
  function StepMap<V>(m: map<Key, V>, op: Op<V>): map<Key, V> {
    match op
    case FindOp(_) => m
    case InsertOp(k, v) => if k in m then m else m[k := v]
    case UpsertOp(k, v) => m[k := v]
    case EraseOp(k) => m - {k}
    case RehashOp(_) => m
  }

  function StepReply<V>(m: map<Key, V>, op: Op<V>): Reply<V> {
    match op
    case FindOp(k) => if k in m then Found(m[k]) else Missing
    case InsertOp(k, _) => Flag(k !in m)
    case UpsertOp(k, _) => Flag(k in m)
    case EraseOp(k) => Flag(k in m)
    case RehashOp(_) => Nothing
  }

  function RunMap<V>(m: map<Key, V>, ops: seq<Op<V>>): map<Key, V> {
    if ops == [] then m else StepMap(RunMap(m, ops[..|ops| - 1]), ops[|ops| - 1])
  }

  function RunReplies<V>(m: map<Key, V>, ops: seq<Op<V>>): seq<Reply<V>> {
    if ops == [] then []
    else RunReplies(m, ops[..|ops| - 1]) + [StepReply(RunMap(m, ops[..|ops| - 1]), ops[|ops| - 1])]
  }

  /** How many buckets the rehash steps at the end of a run ask for. */
  function Trailing<V>(ops: seq<Op<V>>): nat {
    if ops == [] || !ops[|ops| - 1].RehashOp? then 0
    else ops[|ops| - 1].buckets + Trailing(ops[..|ops| - 1])
  }

  predicate Erases<V>(op: Op<V>, k: Key) {
    op.EraseOp? && op.key == k
  }

  method ApplyQuiet<V(0)>(table: HashTable<V>, op: Op<V>) returns (reply: Reply<V>)
    requires op.FindOp? || op.RehashOp?
    requires table.Valid() && |table.Contents()| < MAX_ENTRIES
    modifies table.Footprint()
    ensures table.Valid() && table.level >= old(table.level)
    ensures fresh(table.Footprint() - old(table.Footprint()))
    ensures table.Contents() == StepMap(old(table.Contents()), op)
    ensures reply == StepReply(old(table.Contents()), op)
    ensures forall k :: k in old(table.index) && !Erases(op, k) ==>
              k in table.index && table.index[k] == old(table.index)[k]
    ensures op.RehashOp? && table.rehashIndex >= 0 ==> 0 <= old(table.rehashIndex) <= table.rehashIndex - op.buckets
  {
    hide HashTable.LaidOut;
    hide Rehashed;
    hide Searched;
    hide HashTable.Valid;
    hide HashTable.Contents;
    if op.FindOp? {
      table.ContentAt(op.key);
      var entry := table.Find(op.key);
      reply := if entry == null then Missing else Found(entry.value);
    } else {
      if table.rehashIndex >= 0 && op.buckets != 0 {
        var _ := table.RehashSome(op.buckets);
      }
      reply := Nothing;
    }
  }

  method ApplySet<V(0)>(table: HashTable<V>, op: Op<V>) returns (reply: Reply<V>)
    requires op.InsertOp? || op.UpsertOp?
    requires table.Valid() && |table.Contents()| < MAX_ENTRIES
    modifies table.Footprint()
    ensures table.Valid() && table.level >= old(table.level)
    ensures fresh(table.Footprint() - old(table.Footprint()))
    ensures table.Contents() == StepMap(old(table.Contents()), op)
    ensures reply == StepReply(old(table.Contents()), op)
    ensures forall k :: k in old(table.index) && !Erases(op, k) ==>
              k in table.index && table.index[k] == old(table.index)[k]
  {
    hide HashTable.LaidOut;
    hide Rehashed;
    hide Searched;
    hide HashTable.Valid;
    hide HashTable.Contents;
    table.Counted();
    var entry, b;
    if op.InsertOp? {
      entry, b := table.Insert(op.key, op.value);
    } else {
      entry, b := table.Upsert(op.key, op.value);
    }
    reply := Flag(b);
  }

  method ApplyErase<V(0)>(table: HashTable<V>, op: Op<V>) returns (reply: Reply<V>)
    requires op.EraseOp?
    requires table.Valid() && |table.Contents()| < MAX_ENTRIES
    modifies table.Footprint()
    ensures table.Valid() && table.level >= old(table.level)
    ensures fresh(table.Footprint() - old(table.Footprint()))
    ensures table.Contents() == StepMap(old(table.Contents()), op)
    ensures reply == StepReply(old(table.Contents()), op)
    ensures forall k :: k in old(table.index) && !Erases(op, k) ==>
              k in table.index && table.index[k] == old(table.index)[k]
  {
    hide HashTable.Valid;
    hide HashTable.Contents;
    table.ContentAt(op.key);
    var erased := table.Erase(op.key);
    reply := Flag(erased);
  }

  method Apply<V(0)>(table: HashTable<V>, op: Op<V>) returns (reply: Reply<V>)
    requires table.Valid() && |table.Contents()| < MAX_ENTRIES
    modifies table.Footprint()
    ensures table.Valid() && table.level >= old(table.level)
    ensures fresh(table.Footprint() - old(table.Footprint()))
    ensures table.Contents() == StepMap(old(table.Contents()), op)
    ensures reply == StepReply(old(table.Contents()), op)
    ensures forall k :: k in old(table.index) && !Erases(op, k) ==>
              k in table.index && table.index[k] == old(table.index)[k]
    ensures op.RehashOp? && table.rehashIndex >= 0 ==> 0 <= old(table.rehashIndex) <= table.rehashIndex - op.buckets
  {
    hide HashTable.Valid;
    hide HashTable.Contents;
    hide StepMap;
    hide StepReply;
    if op.FindOp? || op.RehashOp? {
      reply := ApplyQuiet(table, op);
    } else if op.EraseOp? {
      reply := ApplyErase(table, op);
    } else {
      reply := ApplySet(table, op);
    }
  }

  /** In every run, through every half-rehashed state, the table answers like a plain map, and the
      entry of a key stays the same object until the key is erased. */
  method Replay<V(0)>(table: HashTable<V>, ops: seq<Op<V>>) returns (replies: seq<Reply<V>>)
    requires table.Valid() && |table.Contents()| + |ops| <= MAX_ENTRIES
    modifies table.Footprint()
    ensures table.Valid() && table.level >= old(table.level)
    ensures fresh(table.Footprint() - old(table.Footprint()))
    ensures table.Contents() == RunMap(old(table.Contents()), ops)
    ensures replies == RunReplies(old(table.Contents()), ops)
    ensures |table.Contents()| <= |old(table.Contents())| + |ops|
    ensures Trailing(ops) >= MAX_ENTRIES || (ops == [] && old(table.rehashIndex) == -1) ==> table.rehashIndex == -1
    ensures Kept(old(table.index), ops, table.index)
  {
    hide HashTable.Valid;
    hide HashTable.Contents;
    hide StepMap;
    hide StepReply;
    ghost var start, position := table.Contents(), table.rehashIndex;
    replies := [];
    table.Position();
    Unreplayed(start, table.index, position, ops);
    hide Replayed;
    for i := 0 to |ops|
      invariant table.Valid() && table.level >= old(table.level)
      invariant fresh(table.Footprint() - old(table.Footprint()))
      invariant |table.Contents()| <= |start| + i
      invariant Replayed(start, old(table.index), position, ops[..i], table.Contents(), table.index, replies,
                         table.rehashIndex)
    {
      ghost var contents, index, at := table.Contents(), table.index, table.rehashIndex;
      var reply := Apply(table, ops[i]);
      table.Position();
      ReplayedStep(start, old(table.index), position, ops, i, contents, index, replies, at,
                   table.index, reply, table.rehashIndex);
      replies := replies + [reply];
    }
    assert ops[..|ops|] == ops;
    table.Position();
    ReplayedMeans(start, old(table.index), position, ops, table.Contents(), table.index, replies, table.rehashIndex);
  }

  /** What is known after the operations `ops`. */
  ghost predicate Replayed<V(0)>(start: map<Key, V>, before: map<Key, Entry<V>>, position: int, ops: seq<Op<V>>,
                                 contents: map<Key, V>, index: map<Key, Entry<V>>, replies: seq<Reply<V>>, at: int) {
    && contents == RunMap(start, ops) && replies == RunReplies(start, ops) && |contents| <= |start| + |ops|
    && Kept(before, ops, index)
    && (at == -1 || at >= Trailing(ops)) && (ops == [] ==> at == position)
  }

  lemma Unreplayed<V(0)>(start: map<Key, V>, before: map<Key, Entry<V>>, position: int, ops: seq<Op<V>>)
    requires position >= -1
    ensures Replayed(start, before, position, ops[..0], start, before, [], position)
  {
    RunNothing(start, ops);
  }

  lemma ReplayedMeans<V(0)>(start: map<Key, V>, before: map<Key, Entry<V>>, position: int, ops: seq<Op<V>>,
                            contents: map<Key, V>, index: map<Key, Entry<V>>, replies: seq<Reply<V>>, at: int)
    requires Replayed(start, before, position, ops, contents, index, replies, at) && at < MAX_ENTRIES
    ensures contents == RunMap(start, ops) && replies == RunReplies(start, ops) && |contents| <= |start| + |ops|
    ensures Kept(before, ops, index)
    ensures Trailing(ops) >= MAX_ENTRIES || (ops == [] && position == -1) ==> at == -1
  {
  }

  lemma ReplayedStep<V(0)>(start: map<Key, V>, before: map<Key, Entry<V>>, position: int, ops: seq<Op<V>>, i: nat,
                           contents: map<Key, V>, index: map<Key, Entry<V>>, replies: seq<Reply<V>>, at: int,
                           index': map<Key, Entry<V>>, reply: Reply<V>, at': int)
    requires i < |ops| && Replayed(start, before, position, ops[..i], contents, index, replies, at) && at' >= -1
    requires reply == StepReply(contents, ops[i])
    requires forall k :: k in index && !Erases(ops[i], k) ==> k in index' && index'[k] == index[k]
    requires ops[i].RehashOp? && at' >= 0 ==> 0 <= at <= at' - ops[i].buckets
    ensures Replayed(start, before, position, ops[..i + 1], StepMap(contents, ops[i]), index', replies + [reply], at')
    ensures |StepMap(contents, ops[i])| <= |start| + i + 1
  {
    hide Kept;
    hide StepMap;
    hide StepReply;
    hide RunMap;
    hide RunReplies;
    hide Trailing;
    RunOneMore(start, ops, i);
    StepGrowth(contents, ops[i]);
    KeptOneMore(before, ops, i, index, index');
  }

  /** A key that no operation erases keeps its entry. */
  ghost predicate Kept<V(0)>(before: map<Key, Entry<V>>, ops: seq<Op<V>>, after: map<Key, Entry<V>>) {
    forall k :: k in before && (forall i :: 0 <= i < |ops| ==> !Erases(ops[i], k)) ==>
      k in after && after[k] == before[k]
  }

  lemma KeptOneMore<V(0)>(before: map<Key, Entry<V>>, ops: seq<Op<V>>, i: nat, mid: map<Key, Entry<V>>,
                          after: map<Key, Entry<V>>)
    requires i < |ops| && Kept(before, ops[..i], mid)
    requires forall k :: k in mid && !Erases(ops[i], k) ==> k in after && after[k] == mid[k]
    ensures Kept(before, ops[..i + 1], after)
  {
    hide Erases;
    var more := ops[..i + 1];
    forall k | k in before && (forall j :: 0 <= j < |more| ==> !Erases(more[j], k))
      ensures k in after && after[k] == before[k]
    {
      assert forall j :: 0 <= j < i ==> ops[..i][j] == more[j];
      assert !Erases(more[i], k);
    }
  }

  lemma RunNothing<V>(start: map<Key, V>, ops: seq<Op<V>>)
    ensures RunMap(start, ops[..0]) == start && RunReplies(start, ops[..0]) == [] && Trailing(ops[..0]) == 0
    ensures ops == [] ==> Trailing(ops) == 0
  {
  }

  lemma RunOneMore<V>(start: map<Key, V>, ops: seq<Op<V>>, i: nat)
    requires i < |ops|
    ensures RunMap(start, ops[..i + 1]) == StepMap(RunMap(start, ops[..i]), ops[i])
    ensures RunReplies(start, ops[..i + 1]) ==
              RunReplies(start, ops[..i]) + [StepReply(RunMap(start, ops[..i]), ops[i])]
    ensures Trailing(ops[..i + 1]) == if ops[i].RehashOp? then ops[i].buckets + Trailing(ops[..i]) else 0
  {
    hide StepMap;
    hide StepReply;
    assert ops[..i + 1][..i] == ops[..i];
  }

  lemma StepGrowth<V>(m: map<Key, V>, op: Op<V>)
    ensures |StepMap(m, op)| <= |m| + 1
  {
    match op
    case EraseOp(k) => SubsetSize((m - {k}).Keys, m.Keys);
    case _ =>
  }

  // ---------------------------------------------------------------- a sweep between the operations of a run

  /** All operations of the rounds `script[..n]`, in order. */
  function OpsBefore<V>(script: seq<seq<Op<V>>>, n: nat): seq<Op<V>>
    requires n <= |script|
  {
    if n == 0 then [] else OpsBefore(script, n - 1) + script[n - 1]
  }

  lemma {:induction false} RunAppend<V>(m: map<Key, V>, a: seq<Op<V>>, b: seq<Op<V>>)
    ensures RunMap(RunMap(m, a), b) == RunMap(m, a + b)
  {
    if b == [] {
      assert a + b == a;
    } else {
      var c := b[..|b| - 1];
      RunAppend(m, a, c);
      assert (a + b)[..|a + b| - 1] == a + c;
    }
  }

  lemma {:induction false} OpsBeforeGrow<V>(script: seq<seq<Op<V>>>, n: nat, m: nat)
    requires n <= m <= |script|
    ensures |OpsBefore(script, n)| <= |OpsBefore(script, m)|
  {
    if n < m {
      OpsBeforeGrow(script, n, m - 1);
    }
  }

  function KeysOf<V(0)>(entries: seq<Entry<V>>): set<Key> {
    set e | e in entries :: e.key.text
  }

  /** The calls so far, before the cursor first returns to 0. */
  ghost predicate Sweeping(calls: seq<Call>, cursor: nat) {
    Underway(calls) && CursorAt(calls, |calls|) == cursor
  }

  /** What a call hands out: nothing mid-rehash, else the keys of the bucket at the cursor. */
  ghost function Out(call: Call, keys: set<Key>, hash: Key -> nat, cursor: nat): set<Key> {
    if call.rehashing then {} else BucketKeys(keys, hash, Pow2(call.level), cursor)
  }

  ghost predicate HandedOut<V>(hash: Key -> nat, start: map<Key, V>, script: seq<seq<Op<V>>>, calls: seq<Call>,
                               handed: seq<set<Key>>) {
    && |calls| == |handed| <= |script| + 1
    && forall j :: 0 <= j < |calls| ==> handed[j] == Out(calls[j], KeysAt(start, script, j), hash, CursorAt(calls, j))
  }

  lemma {:induction false} CursorPrefix(calls: seq<Call>, call: Call, n: nat)
    requires n <= |calls|
    ensures CursorAt(calls + [call], n) == CursorAt(calls, n)
  {
    hide NextK;
    if n > 0 {
      CursorPrefix(calls, call, n - 1);
    }
  }

  lemma SweepingStep(calls: seq<Call>, cursor: nat, call: Call)
    requires Sweeping(calls, cursor) && (calls == [] || cursor != 0)
    requires forall j :: 0 <= j < |calls| ==> calls[j].level <= call.level
    ensures Sweeping(calls + [call], if call.rehashing then 0 else NextK(cursor, call.level))
  {
    forall n | 0 <= n <= |calls| ensures CursorAt(calls + [call], n) == CursorAt(calls, n) {
      CursorPrefix(calls, call, n);
    }
  }

  lemma HandedOutStep<V>(hash: Key -> nat, start: map<Key, V>, script: seq<seq<Op<V>>>, calls: seq<Call>,
                         handed: seq<set<Key>>, cursor: nat, call: Call)
    requires HandedOut(hash, start, script, calls, handed) && Sweeping(calls, cursor) && |calls| <= |script|
    ensures HandedOut(hash, start, script, calls + [call],
                      handed + [Out(call, KeysAt(start, script, |calls|), hash, cursor)])
  {
    hide Out;
    hide KeysAt;
    hide NextK;
    var out := Out(call, KeysAt(start, script, |calls|), hash, cursor);
    var calls', handed' := calls + [call], handed + [out];
    forall j | 0 <= j < |calls'|
      ensures handed'[j] == Out(calls'[j], KeysAt(start, script, j), hash, CursorAt(calls', j))
    {
      CursorPrefix(calls, call, j);
    }
  }

  /** One call of the scan: the keys it hands out are those of the bucket at the cursor. */
  method Visit<V(0)>(table: HashTable<V>, cursor: bv64) returns (next: bv64, keys: set<Key>)
    requires table.Valid() && table.buckets0.Length > 0 && Val(cursor) < Pow2(table.level)
    ensures Val(next) == if table.rehashIndex >= 0 then 0 else NextK(Val(cursor), table.level)
    ensures Val(next) < Pow2(table.level)
    ensures keys == Out(ThisCall(table), table.index.Keys, table.hash, Val(cursor))
  {
    hide HashTable.Valid;
    table.Position();
    table.Known();
    table.NodesIndexed();
    var visited;
    next, visited := table.TraverseBucket(cursor);
    ValZero(0);
    hide Val;
    hide NextK;
    keys := KeysOf(visited);
    if table.rehashIndex == -1 {
      forall k | k in BucketKeys(table.index.Keys, table.hash, Pow2(table.level), Val(cursor)) ensures k in keys {
        assert table.index[k] in visited;
      }
    }
  }

  /** One call of a sweep, with everything it adds to the trail. */
  method TakeCall<V(0)>(table: HashTable<V>, ghost start: map<Key, V>, ghost script: seq<seq<Op<V>>>, cursor: bv64,
                        handed: seq<set<Key>>, ghost calls: seq<Call>)
      returns (next: bv64, handed': seq<set<Key>>)
    requires table.Valid() && table.buckets0.Length > 0
    requires Trail(table.hash, start, script, calls, handed, Val(cursor), table.level)
    requires (calls == [] || Val(cursor) != 0) && |calls| <= |script|
    requires table.Contents() == RunMap(start, OpsBefore(script, |calls|))
    ensures Trail(table.hash, start, script, calls + [ThisCall(table)], handed', Val(next), table.level)
    ensures next == 0 <==> Val(next) == 0
  {
    hide *;
    table.Counted();
    TrailUse(table.hash, start, script, calls, handed, Val(cursor), table.level);
    CallNow(table);
    KeysNow(start, script, |calls|);
    var keys;
    next, keys := Visit(table, cursor);
    TrailStep(table.hash, start, script, calls, handed, Val(cursor), ThisCall(table));
    handed' := handed + [keys];
    ValZero(next);
  }

  ghost function ThisCall<V(0)>(table: HashTable<V>): Call
    reads table
  {
    Call(table.level, table.rehashIndex >= 0)
  }

  lemma CallNow<V(0)>(table: HashTable<V>)
    ensures ThisCall(table) == Call(table.level, table.rehashIndex >= 0)
  {
  }

  /** The keys a plain map would hold when call `j` is made. */
  function KeysAt<V>(start: map<Key, V>, script: seq<seq<Op<V>>>, j: nat): set<Key>
    requires j <= |script|
  {
    RunMap(start, OpsBefore(script, j)).Keys
  }

  lemma KeysNow<V>(start: map<Key, V>, script: seq<seq<Op<V>>>, j: nat)
    requires j <= |script|
    ensures KeysAt(start, script, j) == RunMap(start, OpsBefore(script, j)).Keys
  {
  }

  /** `key` is in the table at each of the first `n` calls. */
  ghost predicate Stays<V>(start: map<Key, V>, script: seq<seq<Op<V>>>, n: nat, key: Key)
    requires n <= |script| + 1
  {
    forall j :: 0 <= j < n ==> key in KeysAt(start, script, j)
  }

  predicate AtMostOnce(handed: seq<set<Key>>, key: Key) {
    forall i, j :: 0 <= i < j < |handed| ==> !(key in handed[i] && key in handed[j])
  }

  predicate Once(handed: seq<set<Key>>, key: Key) {
    (exists j :: 0 <= j < |handed| && key in handed[j]) && AtMostOnce(handed, key)
  }

  /** What a sweep that began with the call `first` handed out. Each call hands out keys that are there, the
      first those of bucket 0. No key that stays is handed out twice, and each is handed out once if the sweep
      is complete and its last call did not land in the middle of a rehash, which hands out nothing. */
  ghost predicate Swept<V>(hash: Key -> nat, start: map<Key, V>, script: seq<seq<Op<V>>>, first: Call, finished: bool,
                           midRehash: bool, handed: seq<set<Key>>)
    requires 1 <= |handed| <= |script| + 1
  {
    && handed[0] == Out(first, start.Keys, hash, 0)
    && (forall j :: 0 <= j < |handed| ==> handed[j] <= KeysAt(start, script, j))
    && (finished && midRehash ==> handed[|handed| - 1] == {})
    && forall key :: Stays(start, script, |handed|, key) ==>
         AtMostOnce(handed, key) && (finished && !midRehash ==> Once(handed, key))
  }

  /** Each round finishes whatever rehash its operations started. */
  predicate Settled<V>(script: seq<seq<Op<V>>>) {
    forall i :: 0 <= i < |script| ==> script[i] == [] || Trailing(script[i]) >= MAX_ENTRIES
  }

  /** The operations between two calls of a sweep. */
  method RunRound<V(0)>(table: HashTable<V>, ghost start: map<Key, V>, script: seq<seq<Op<V>>>, i: nat,
                        ghost calls: seq<Call>, ghost handed: seq<set<Key>>, ghost cursor: nat)
    requires table.Valid() && table.buckets0.Length > 0 && i < |script|
    requires |start| + |OpsBefore(script, |script|)| <= MAX_ENTRIES
    requires table.Contents() == RunMap(start, OpsBefore(script, i))
    requires |table.Contents()| <= |start| + |OpsBefore(script, i)|
    requires Trail(table.hash, start, script, calls, handed, cursor, table.level)
    modifies table.Footprint()
    ensures table.Valid() && table.buckets0.Length > 0
    ensures fresh(table.Footprint() - old(table.Footprint()))
    ensures table.Contents() == RunMap(start, OpsBefore(script, i + 1))
    ensures |table.Contents()| <= |start| + |OpsBefore(script, i + 1)|
    ensures Trail(table.hash, start, script, calls, handed, cursor, table.level)
    ensures old(table.rehashIndex) == -1 && Settled(script) ==> table.rehashIndex == -1
  {
    hide HashTable.Valid;
    hide HashTable.Contents;
    hide Trail;
    hide RunMap;
    hide RunReplies;
    hide Trailing;
    hide Pow2;
    table.Position();
    OpsBeforeGrow(script, i + 1, |script|);
    RunAppend(start, OpsBefore(script, i), script[i]);
    ghost var level := table.level;
    var _ := Replay(table, script[i]);
    TrailLevel(table.hash, start, script, calls, handed, cursor, level, table.level);
    table.Position();
  }

  /** A sweep that is to make call `i` next. */
  ghost predicate Ready<V(0)>(table: HashTable<V>, start: map<Key, V>, script: seq<seq<Op<V>>>, i: nat, cursor: bv64,
                              handed: seq<set<Key>>, calls: seq<Call>)
    reads table, table.buckets0, table.buckets1, table.nodes`next, table.index.Values`value
  {
    && table.Valid() && table.buckets0.Length > 0 && |calls| == |handed| == i <= |script|
    && table.Contents() == RunMap(start, OpsBefore(script, i))
    && |table.Contents()| <= |start| + |OpsBefore(script, i)|
    && Trail(table.hash, start, script, calls, handed, Val(cursor), table.level)
    && (calls == [] || Val(cursor) != 0)
  }

  lemma ReadyAtFirst<V(0)>(table: HashTable<V>, script: seq<seq<Op<V>>>)
    requires table.Valid() && table.buckets0.Length > 0
    ensures Ready(table, table.Contents(), script, 0, 0, [], [])
  {
    hide HashTable.Valid;
    hide HashTable.Contents;
    hide Trail;
    hide Val;
    TrailStart(table.hash, table.Contents(), script, table.level);
  }

  /** A sweep that is over: the cursor is back at 0, or the script ran out. */
  ghost predicate Over<V(0)>(table: HashTable<V>, start: map<Key, V>, script: seq<seq<Op<V>>>, cursor: bv64,
                             handed: seq<set<Key>>, calls: seq<Call>)
    reads table, table.buckets0, table.buckets1, table.nodes`next, table.index.Values`value
  {
    && table.Valid() && table.buckets0.Length > 0 && 1 <= |calls| == |handed| <= |script| + 1
    && table.Contents() == RunMap(start, OpsBefore(script, |calls| - 1))
    && Trail(table.hash, start, script, calls, handed, Val(cursor), table.level)
    && (cursor == 0 <==> Val(cursor) == 0)
    && if cursor == 0 then calls[|calls| - 1] == ThisCall(table) else |calls| == |script| + 1
  }

  /** A call of a sweep and, unless it is the last, the operations after it. */
  method CallAndRun<V(0)>(table: HashTable<V>, ghost start: map<Key, V>, script: seq<seq<Op<V>>>, i: nat, cursor: bv64,
                          handed: seq<set<Key>>, ghost calls: seq<Call>)
      returns (next: bv64, handed': seq<set<Key>>)
    requires Ready(table, start, script, i, cursor, handed, calls)
    requires |start| + |OpsBefore(script, |script|)| <= MAX_ENTRIES
    modifies table.Footprint()
    ensures fresh(table.Footprint() - old(table.Footprint()))
    ensures if next == 0 || i == |script|
            then Over(table, start, script, next, handed', calls + [old(ThisCall(table))])
            else Ready(table, start, script, i + 1, next, handed', calls + [old(ThisCall(table))])
    ensures old(table.rehashIndex) == -1 && Settled(script) ==> table.rehashIndex == -1
  {
    hide HashTable.Valid;
    hide HashTable.Contents;
    hide Trail;
    hide Val;
    hide Pow2;
    hide RunMap;
    hide Settled;
    hide OpsBefore;
    hide ThisCall;
    ghost var call := ThisCall(table);
    next, handed' := TakeCall(table, start, script, cursor, handed, calls);
    TrailUse(table.hash, start, script, calls + [call], handed', Val(next), table.level);
    if next != 0 && i < |script| {
      RunRound(table, start, script, i, calls + [call], handed', Val(next));
    }
  }

  /** The calls of a sweep, up to the one that returns to 0 or as many as `script` has room for. */
  method RunSweep<V(0)>(table: HashTable<V>, script: seq<seq<Op<V>>>)
      returns (cursor: bv64, handed: seq<set<Key>>, ghost calls: seq<Call>)
    requires table.Valid() && table.buckets0.Length > 0
    requires |table.Contents()| + |OpsBefore(script, |script|)| <= MAX_ENTRIES
    modifies table.Footprint()
    ensures Over(table, old(table.Contents()), script, cursor, handed, calls)
    ensures calls != [] && calls[0] == old(ThisCall(table))
    ensures old(table.rehashIndex) == -1 && Settled(script) ==> table.rehashIndex == -1
  {
    hide HashTable.Valid;
    hide HashTable.Contents;
    hide Settled;
    hide ThisCall;
    hide Ready;
    hide Over;
    hide OpsBefore;
    hide Val;
    cursor, handed, calls := 0, [], [];
    ghost var start, first := table.Contents(), ThisCall(table);
    ReadyAtFirst(table, script);
    var i := 0;
    while true
      invariant i <= |script| && Ready(table, start, script, i, cursor, handed, calls)
      invariant fresh(table.Footprint() - old(table.Footprint()))
      invariant if calls == [] then ThisCall(table) == first else calls[0] == first
      invariant old(table.rehashIndex) == -1 && Settled(script) ==> table.rehashIndex == -1
      decreases |script| - i
    {
      ghost var call := ThisCall(table);
      cursor, handed := CallAndRun(table, start, script, i, cursor, handed, calls);
      calls := calls + [call];
      if cursor == 0 || i == |script| {
        return;
      }
      i := i + 1;
    }
  }

  /** Sweeps the scan cursor once round the table while the rounds of `script` run between its calls. No key
      that stays is handed out twice; each is handed out once if the sweep ends outside a rehash, which it
      does if the table starts outside one and every round finishes what it starts. The sweep ends before it
      has made more calls than the table has buckets. */
  method SweepBetween<V(0)>(table: HashTable<V>, script: seq<seq<Op<V>>>)
      returns (finished: bool, handed: seq<set<Key>>)
    requires table.Valid() && table.buckets0.Length > 0
    requires |table.Contents()| + |OpsBefore(script, |script|)| <= MAX_ENTRIES
    modifies table.Footprint()
    ensures table.Valid() && 1 <= |handed| <= |script| + 1
    ensures table.Contents() == RunMap(old(table.Contents()), OpsBefore(script, |handed| - 1))
    ensures !finished ==> |handed| == |script| + 1 < table.buckets0.Length
    ensures old(table.rehashIndex) >= 0 ==> finished && |handed| == 1
    ensures Swept(table.hash, old(table.Contents()), script, old(ThisCall(table)), finished,
                  finished && table.rehashIndex >= 0, handed)
    ensures old(table.rehashIndex) == -1 && Settled(script) ==> table.rehashIndex == -1
  {
    hide HashTable.Valid;
    hide HashTable.Contents;
    hide Trail;
    hide Val;
    hide Pow2;
    hide RunMap;
    hide Settled;
    hide OpsBefore;
    hide Swept;
    ghost var start := table.Contents();
    var cursor;
    ghost var calls;
    cursor, handed, calls := RunSweep(table, script);
    finished := cursor == 0;
    SweepResult(table.hash, start, script, calls, handed, Val(cursor), table.level);
    table.Position();
  }

  /** What the trail of a sweep says about the keys it handed out. */
  lemma SweepResult<V>(hash: Key -> nat, start: map<Key, V>, script: seq<seq<Op<V>>>, calls: seq<Call>,
                       handed: seq<set<Key>>, cursor: nat, level: nat)
    requires Trail(hash, start, script, calls, handed, cursor, level) && calls != []
    ensures |calls| == |handed| <= |script| + 1 && (cursor != 0 ==> |calls| < Pow2(level))
    ensures calls[0].rehashing ==> cursor == 0 && |calls| == 1
    ensures Swept(hash, start, script, calls[0], cursor == 0,
                  cursor == 0 && calls[|calls| - 1].rehashing, handed)
  {
    SweepLength(calls, cursor, level);
    OutIsPresent(hash, start, script, calls, handed);
    hide HandedOut;
    hide Underway;
    hide KeysAt;
    hide Once;
    hide AtMostOnce;
    forall key | Stays(start, script, |handed|, key)
      ensures AtMostOnce(handed, key) && (cursor == 0 && !calls[|calls| - 1].rehashing ==> Once(handed, key))
    {
      StayingKeyHandedOnce(hash, start, script, calls, handed, key);
    }
  }

  lemma SweepLength(calls: seq<Call>, cursor: nat, level: nat)
    requires Sweeping(calls, cursor) && calls != [] && forall j :: 0 <= j < |calls| ==> calls[j].level <= level
    ensures cursor != 0 ==> |calls| < Pow2(level)
    ensures calls[0].rehashing ==> cursor == 0 && |calls| == 1
  {
    SweepEnds(calls);
    assert calls[0].rehashing ==> CursorAt(calls, 1) == 0;
    Pow2Monotone(calls[|calls| - 1].level, level);
  }

  lemma OutIsPresent<V>(hash: Key -> nat, start: map<Key, V>, script: seq<seq<Op<V>>>, calls: seq<Call>,
                        handed: seq<set<Key>>)
    requires HandedOut(hash, start, script, calls, handed) && calls != []
    ensures handed[0] == Out(calls[0], start.Keys, hash, 0)
    ensures forall j :: 0 <= j < |handed| ==> handed[j] <= KeysAt(start, script, j)
    ensures calls[|calls| - 1].rehashing ==> handed[|handed| - 1] == {}
  {
    FirstKeys(start, script);
    assert CursorAt(calls, 0) == 0;
    hide KeysAt;
    hide Out;
    hide NextK;
    forall j | 0 <= j < |handed|
      ensures handed[j] <= KeysAt(start, script, j) && (calls[j].rehashing ==> handed[j] == {})
    {
      OutSubset(calls[j], KeysAt(start, script, j), hash, CursorAt(calls, j));
    }
  }

  lemma FirstKeys<V>(start: map<Key, V>, script: seq<seq<Op<V>>>)
    ensures KeysAt(start, script, 0) == start.Keys
  {
  }

  lemma OutSubset(call: Call, keys: set<Key>, hash: Key -> nat, cursor: nat)
    ensures Out(call, keys, hash, cursor) <= keys && (call.rehashing ==> Out(call, keys, hash, cursor) == {})
  {
  }

  /** Everything known about the calls so far. */
  ghost predicate Trail<V>(hash: Key -> nat, start: map<Key, V>, script: seq<seq<Op<V>>>, calls: seq<Call>,
                           handed: seq<set<Key>>, cursor: nat, level: nat) {
    && Sweeping(calls, cursor) && HandedOut(hash, start, script, calls, handed) && cursor < Pow2(level)
    && forall j :: 0 <= j < |calls| ==> calls[j].level <= level
  }

  lemma TrailStart<V>(hash: Key -> nat, start: map<Key, V>, script: seq<seq<Op<V>>>, level: nat)
    ensures Trail(hash, start, script, [], [], Val(0), level) && RunMap(start, OpsBefore(script, 0)) == start
  {
  }

  lemma TrailUse<V>(hash: Key -> nat, start: map<Key, V>, script: seq<seq<Op<V>>>, calls: seq<Call>,
                    handed: seq<set<Key>>, cursor: nat, level: nat)
    requires Trail(hash, start, script, calls, handed, cursor, level)
    ensures cursor < Pow2(level) && |calls| == |handed|
  {
  }

  lemma TrailStep<V>(hash: Key -> nat, start: map<Key, V>, script: seq<seq<Op<V>>>, calls: seq<Call>,
                     handed: seq<set<Key>>, cursor: nat, call: Call)
    requires Trail(hash, start, script, calls, handed, cursor, call.level) && (calls == [] || cursor != 0)
    requires |calls| <= |script|
    ensures Trail(hash, start, script, calls + [call],
                  handed + [Out(call, KeysAt(start, script, |calls|), hash, cursor)],
                  if call.rehashing then 0 else NextK(cursor, call.level), call.level)
  {
    hide Sweeping;
    hide HandedOut;
    hide KeysAt;
    hide Out;
    hide NextK;
    SweepingStep(calls, cursor, call);
    HandedOutStep(hash, start, script, calls, handed, cursor, call);
  }

  lemma TrailLevel<V>(hash: Key -> nat, start: map<Key, V>, script: seq<seq<Op<V>>>, calls: seq<Call>,
                      handed: seq<set<Key>>, cursor: nat, low: nat, high: nat)
    requires Trail(hash, start, script, calls, handed, cursor, low) && low <= high
    ensures Trail(hash, start, script, calls, handed, cursor, high)
  {
    Pow2Monotone(low, high);
    hide Sweeping;
    hide HandedOut;
  }

  /** A key that stays in the table throughout a sweep is handed out by at most one of its calls, and by
      exactly one if the sweep is complete and its last call does not land in the middle of a rehash. */
  lemma StayingKeyHandedOnce<V>(hash: Key -> nat, start: map<Key, V>, script: seq<seq<Op<V>>>, calls: seq<Call>,
                                handed: seq<set<Key>>, key: Key)
    requires Underway(calls) && calls != [] && HandedOut(hash, start, script, calls, handed)
    requires Stays(start, script, |calls|, key)
    ensures AtMostOnce(handed, key)
    ensures Sweep(calls) && !calls[|calls| - 1].rehashing ==> Once(handed, key)
  {
    hide Underway;
    hide KeysAt;
    var present := seq(|calls|, j requires 0 <= j < |calls| <= |script| + 1 => KeysAt(start, script, j));
    StayingKeyVisitedOnce(calls, present, hash, key);
    assert forall j :: 0 <= j < |calls| ==> (key in handed[j] <==> Handed(calls, present, hash, key, j));
  }
}
