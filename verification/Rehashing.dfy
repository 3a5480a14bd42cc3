/** The two bucket vectors of a hash table whose rehash is pending: which bucket a hash belongs
    to, moving one bucket, and adding and erasing single entries. */
module Rehashing {
  import opened Chaining
  import opened Collections

  // ---------------------------------------------------------------- the bucket of a hash

  /** The bucket of a key with hash `h` when vector 0 has been emptied below `boundary`. */
  function Home(h: nat, n0: nat, n1: nat, boundary: int): Slot
    requires n0 > 0 && (boundary > 0 ==> n1 > 0)
  {
    if h % n0 >= boundary then Slot(0, h % n0) else Slot(1, h % n1)
  }

  ghost predicate Homed<V(0)>(hash: Key -> nat, n0: nat, n1: nat, boundary: int, places: Places<V>)
    requires n0 > 0 && (boundary > 0 ==> n1 > 0)
  {
    forall e :: e in places ==> places[e] == Home(hash(e.key.text), n0, n1, boundary)
  }

  /** Every entry is found in the index under its own key, and nothing else is. */
  ghost predicate Indexed<V(0)>(nodes: set<Entry<V>>, index: map<Key, Entry<V>>) {
    && (forall e :: e in nodes ==> e.key.text in index && index[e.key.text] == e)
    && (forall k :: k in index ==> index[k] in nodes && index[k].key.text == k)
  }

  /** The two bucket vectors are well linked and hold every entry of `nodes` once, in the bucket
      that `boundary` assigns to its hash. */
  ghost predicate Wired<V(0)>(hash: Key -> nat, b0: array<Entry?<V>>, b1: array<Entry?<V>>, boundary: int,
                              chains: Chains<V>, places: Places<V>, nodes: set<Entry<V>>)
    reads b0, b1, nodes`next
  {
    && b0 != b1 && b0.Length > 0 && (boundary > 0 ==> b1.Length > 0)
    && nodes == places.Keys
    && AllLinked(0, b0, chains, nodes)
    && AllLinked(1, b1, chains, nodes)
    && Stored(chains, places)
    && Homed(hash, b0.Length, b1.Length, boundary, places)
  }

  // ---------------------------------------------------------------- rehashing one bucket

  /** The entries of bucket `i` may already be where boundary `i + 1` puts them. */
  ghost predicate HalfHomed<V(0)>(hash: Key -> nat, n0: nat, n1: nat, i: nat, places: Places<V>)
    requires n0 > 0 && n1 > 0
  {
    forall e :: e in places ==>
      places[e] == Home(hash(e.key.text), n0, n1, i) || places[e] == Home(hash(e.key.text), n0, n1, i + 1)
  }

  lemma HalfHomedStart<V(0)>(hash: Key -> nat, n0: nat, n1: nat, i: nat, places: Places<V>)
    requires n0 > 0 && n1 > 0 && Homed(hash, n0, n1, i, places)
    ensures HalfHomed(hash, n0, n1, i, places)
  {
  }

  lemma HalfHomedMove<V(0)>(hash: Key -> nat, n0: nat, n1: nat, i: nat, places: Places<V>, entry: Entry<V>)
    requires n0 > 0 && n1 > 0 && HalfHomed(hash, n0, n1, i, places)
    requires entry in places && places[entry] == Slot(0, i)
    ensures HalfHomed(hash, n0, n1, i, places[entry := Slot(1, hash(entry.key.text) % n1)])
  {
  }

  lemma HalfHomedDone<V(0)>(hash: Key -> nat, n0: nat, n1: nat, i: nat, chains: Chains<V>, places: Places<V>)
    requires n0 > 0 && n1 > 0 && HalfHomed(hash, n0, n1, i, places)
    requires Stored(chains, places) && Slot(0, i) in chains && chains[Slot(0, i)] == []
    ensures Homed(hash, n0, n1, i + 1, places)
  {
  }

  /** Between two turns of the rehash loop on bucket `i`: `entry` is the first one not yet moved.
      The bucket itself is only cleared after the last turn. */
  ghost predicate Moving<V(0)>(hash: Key -> nat, b0: array<Entry?<V>>, b1: array<Entry?<V>>, i: nat, entry: Entry?<V>,
                               chains: Chains<V>, places: Places<V>, nodes: set<Entry<V>>)
    reads b0, b1, nodes`next
  {
    && b0 != b1 && i < b0.Length && b1.Length > 0
    && nodes == places.Keys
    && Slot(0, i) in chains && Within(chains[Slot(0, i)], nodes) && Linked(entry, chains[Slot(0, i)])
    && (forall k :: 0 <= k < b0.Length && k != i ==> LinkedAt(0, k, b0, chains, nodes))
    && AllLinked(1, b1, chains, nodes)
    && Stored(chains, places)
    && HalfHomed(hash, b0.Length, b1.Length, i, places)
  }

  /** The keys of a chain, and of all chains. */
  ghost function Texts<V(0)>(chain: seq<Entry<V>>): (r: seq<Key>)
    ensures |r| == |chain| && forall i :: 0 <= i < |chain| ==> r[i] == chain[i].key.text
  {
    seq(|chain|, i requires 0 <= i < |chain| => chain[i].key.text)
  }

  ghost function AllTexts<V(0)>(chains: Chains<V>): map<Slot, seq<Key>> {
    map s | s in chains :: Texts(chains[s])
  }

  function KeysIn(keys: map<Slot, seq<Key>>, s: Slot): seq<Key> {
    if s in keys then keys[s] else []
  }

  /** The first key of bucket `i` goes to the front of its bucket in vector 1. */
  function MoveFirst(hash: Key -> nat, n1: nat, keys: map<Slot, seq<Key>>, i: nat): map<Slot, seq<Key>>
    requires n1 > 0 && KeysIn(keys, Slot(0, i)) != []
  {
    var s := Slot(0, i);
    var t := Slot(1, hash(keys[s][0]) % n1);
    keys[s := keys[s][1..]][t := [keys[s][0]] + KeysIn(keys, t)]
  }

  /** All keys of bucket `i` go to vector 1, one after the other. */
  function MoveAll(hash: Key -> nat, n1: nat, keys: map<Slot, seq<Key>>, i: nat): map<Slot, seq<Key>>
    requires n1 > 0
    decreases |KeysIn(keys, Slot(0, i))|
  {
    if KeysIn(keys, Slot(0, i)) == [] then keys else MoveAll(hash, n1, MoveFirst(hash, n1, keys, i), i)
  }

  lemma TextsMoved<V(0)>(hash: Key -> nat, n1: nat, chains: Chains<V>, i: nat, t: Slot)
    requires n1 > 0 && Slot(0, i) in chains && chains[Slot(0, i)] != [] && t in chains
    requires t == Slot(1, hash(chains[Slot(0, i)][0].key.text) % n1)
    ensures var s := Slot(0, i);
            KeysIn(AllTexts(chains), s) != []
            && AllTexts(chains[s := chains[s][1..]][t := [chains[s][0]] + chains[t]])
               == MoveFirst(hash, n1, AllTexts(chains), i)
  {
    var s := Slot(0, i);
    assert Texts(chains[s][1..]) == Texts(chains[s])[1..];
    assert Texts([chains[s][0]] + chains[t]) == [Texts(chains[s])[0]] + Texts(chains[t]);
  }

  method MoveEntry<V(0)>(hash: Key -> nat, b0: array<Entry?<V>>, b1: array<Entry?<V>>, i: nat, entry: Entry<V>,
                         ghost chains: Chains<V>, ghost places: Places<V>, ghost nodes: set<Entry<V>>)
      returns (next: Entry?<V>, ghost moved: Chains<V>, ghost placed: Places<V>)
    requires Moving(hash, b0, b1, i, entry, chains, places, nodes)
    modifies b1, nodes`next
    ensures Moving(hash, b0, b1, i, next, moved, placed, nodes)
    ensures |moved[Slot(0, i)]| == |chains[Slot(0, i)]| - 1
    ensures KeysIn(AllTexts(chains), Slot(0, i)) != []
    ensures AllTexts(moved) == MoveFirst(hash, b1.Length, AllTexts(chains), i)
  {
    hide Stored;
    hide NoDuplicates;
    hide HalfHomed;
    var target := hash(entry.key.text) % b1.Length;
    ghost var s, t := Slot(0, i), Slot(1, target);
    assert LinkedAt(1, target, b1, chains, nodes);
    LinkedTail(entry, chains[s]);
    Apart(chains, places, s, 0);
    StoredMove(chains, places, s, t);
    HalfHomedMove(hash, b0.Length, b1.Length, i, places, entry);
    TextsMoved(hash, b1.Length, chains, i, t);
    hide AllTexts;
    next := entry.next;
    ghost var shorter := chains[s := chains[s][1..]];
    moved, placed := shorter[t := [entry] + shorter[t]], places[entry := t];
    forall k | 0 <= k < b1.Length ensures LinkedAt(1, k, b1, shorter, nodes) {
      assert LinkedAt(1, k, b1, chains, nodes);
    }
    PushFront(b1, target, entry, 1, shorter, nodes);
    assert Linked(next, moved[s]);
    forall k | 0 <= k < b0.Length && k != i ensures LinkedAt(0, k, b0, moved, nodes) {
      assert old(LinkedAt(0, k, b0, chains, nodes));
      assert moved[Slot(0, k)] == chains[Slot(0, k)];
    }
    assert placed.Keys == nodes;
  }

  method RehashBucket<V(0)>(hash: Key -> nat, b0: array<Entry?<V>>, b1: array<Entry?<V>>, i: nat,
                            ghost chains: Chains<V>, ghost places: Places<V>, ghost nodes: set<Entry<V>>)
      returns (count: nat, ghost moved: Chains<V>, ghost placed: Places<V>)
    requires Wired(hash, b0, b1, i, chains, places, nodes) && i < b0.Length && b1.Length > 0
    modifies b0, b1, nodes`next
    ensures Wired(hash, b0, b1, i + 1, moved, placed, nodes)
    ensures Slot(0, i) in chains && count == |chains[Slot(0, i)]|
    ensures AllTexts(moved) == MoveAll(hash, b1.Length, AllTexts(chains), i)
    ensures count == |KeysIn(AllTexts(chains), Slot(0, i))|
  {
    hide Stored;
    hide HalfHomed;
    hide Homed;
    moved, placed := chains, places;
    HalfHomedStart(hash, b0.Length, b1.Length, i, places);
    var entry := b0[i];
    assert LinkedAt(0, i, b0, chains, nodes);
    count := 0;
    while entry != null
      invariant Moving(hash, b0, b1, i, entry, moved, placed, nodes)
      invariant count + |moved[Slot(0, i)]| == |chains[Slot(0, i)]|
      invariant MoveAll(hash, b1.Length, AllTexts(moved), i) == MoveAll(hash, b1.Length, AllTexts(chains), i)
      decreases |moved[Slot(0, i)]|
    {
      entry, moved, placed := MoveEntry(hash, b0, b1, i, entry, moved, placed, nodes);
      count := count + 1;
    }
    label emptied:
    b0[i] := null;
    HalfHomedDone(hash, b0.Length, b1.Length, i, moved, placed);
    forall k | 0 <= k < b0.Length ensures LinkedAt(0, k, b0, moved, nodes) {
      assert k != i ==> old@emptied(LinkedAt(0, k, b0, moved, nodes));
    }
  }

  // ---------------------------------------------------------------- looking up, adding, erasing

  /** An entry is in the table exactly if it is in the bucket of its hash. */
  lemma Lookup<V(0)>(hash: Key -> nat, b0: array<Entry?<V>>, b1: array<Entry?<V>>, boundary: int, chains: Chains<V>,
                     places: Places<V>, nodes: set<Entry<V>>, index: map<Key, Entry<V>>, key: Key)
    requires Wired(hash, b0, b1, boundary, chains, places, nodes) && Indexed(nodes, index)
    ensures var s := Home(hash(key), b0.Length, b1.Length, boundary);
            && s in chains
            && s.bucket < (if s.vector == 0 then b0 else b1).Length
            && LinkedAt(s.vector, s.bucket, if s.vector == 0 then b0 else b1, chains, nodes)
            && (forall e :: e in chains[s] && e.key.text == key ==> key in index && index[key] == e)
            && (key in index ==> index[key] in chains[s] && index[key].key.text == key)
  {
    var s := Home(hash(key), b0.Length, b1.Length, boundary);
    assert LinkedAt(s.vector, s.bucket, if s.vector == 0 then b0 else b1, chains, nodes);
  }

  method FindAt<V(0)>(hash: Key -> nat, b0: array<Entry?<V>>, b1: array<Entry?<V>>, s: Slot, key: Key,
                      ghost boundary: int, ghost chains: Chains<V>, ghost places: Places<V>, ghost nodes: set<Entry<V>>,
                      ghost index: map<Key, Entry<V>>)
      returns (entry: Entry?<V>)
    requires Wired(hash, b0, b1, boundary, chains, places, nodes) && Indexed(nodes, index)
    requires s == Home(hash(key), b0.Length, b1.Length, boundary)
    ensures entry == if key in index then index[key] else null
  {
    hide Stored;
    hide Homed;
    hide Indexed;
    Lookup(hash, b0, b1, boundary, chains, places, nodes, index, key);
    entry := FindInBucket(if s.vector == 0 then b0[s.bucket] else b1[s.bucket], key, chains[s]);
  }

  method LocateAt<V(0)>(hash: Key -> nat, b0: array<Entry?<V>>, b1: array<Entry?<V>>, s: Slot, key: Key,
                        ghost boundary: int, ghost chains: Chains<V>, ghost places: Places<V>,
                        ghost nodes: set<Entry<V>>, ghost index: map<Key, Entry<V>>)
      returns (entry: Entry?<V>, prev: Entry?<V>, ghost at: nat)
    requires Wired(hash, b0, b1, boundary, chains, places, nodes) && Indexed(nodes, index)
    requires s == Home(hash(key), b0.Length, b1.Length, boundary)
    ensures s in chains && s.bucket < (if s.vector == 0 then b0 else b1).Length
    ensures entry == if key in index then index[key] else null
    ensures entry != null ==> entry.key.text == key
    ensures entry != null ==> at < |chains[s]| && entry == chains[s][at] && prev == if at == 0 then null
              else chains[s][at - 1]
  {
    hide Stored;
    hide Homed;
    hide Indexed;
    Lookup(hash, b0, b1, boundary, chains, places, nodes, index, key);
    entry, prev, at := Locate(if s.vector == 0 then b0[s.bucket] else b1[s.bucket], key, chains[s]);
  }

  lemma GrowNodes<V(0)>(v: nat, buckets: array<Entry?<V>>, chains: Chains<V>, nodes: set<Entry<V>>, more: set<Entry<V>>)
    requires AllLinked(v, buckets, chains, nodes) && nodes <= more
    ensures AllLinked(v, buckets, chains, more)
  {
    forall i | 0 <= i < buckets.Length ensures LinkedAt(v, i, buckets, chains, more) {
      assert LinkedAt(v, i, buckets, chains, nodes);
    }
  }

  ghost function VectorNodes<V(0)>(v: nat, places: Places<V>): set<Entry<V>> {
    set e | e in places && places[e].vector == v
  }

  lemma OwnNodes<V(0)>(v: nat, buckets: array<Entry?<V>>, chains: Chains<V>, places: Places<V>, nodes: set<Entry<V>>)
    requires AllLinked(v, buckets, chains, nodes) && Stored(chains, places)
    ensures AllLinked(v, buckets, chains, VectorNodes(v, places))
  {
    forall i | 0 <= i < buckets.Length ensures LinkedAt(v, i, buckets, chains, VectorNodes(v, places)) {
      assert LinkedAt(v, i, buckets, chains, nodes);
    }
  }

  lemma OtherVector<V(0)>(v: nat, buckets: array<Entry?<V>>, chains: Chains<V>, nodes: set<Entry<V>>, s: Slot,
                          chain: seq<Entry<V>>)
    requires AllLinked(v, buckets, chains, nodes) && s.vector != v
    ensures AllLinked(v, buckets, chains[s := chain], nodes)
  {
    var changed := chains[s := chain];
    forall i | 0 <= i < buckets.Length ensures LinkedAt(v, i, buckets, changed, nodes) {
      assert LinkedAt(v, i, buckets, chains, nodes);
    }
  }

  lemma HomedAdd<V(0)>(hash: Key -> nat, n0: nat, n1: nat, boundary: int, places: Places<V>, e: Entry<V>)
    requires n0 > 0 && (boundary > 0 ==> n1 > 0) && Homed(hash, n0, n1, boundary, places)
    ensures Homed(hash, n0, n1, boundary, places[e := Home(hash(e.key.text), n0, n1, boundary)])
    ensures Homed(hash, n0, n1, boundary, places - {e})
  {
  }

  method AddEntry<V(0)>(hash: Key -> nat, b0: array<Entry?<V>>, b1: array<Entry?<V>>, s: Slot, entry: Entry<V>,
                        ghost boundary: int, ghost chains: Chains<V>, ghost places: Places<V>,
                        ghost nodes: set<Entry<V>>)
      returns (ghost grown: Chains<V>, ghost placed: Places<V>)
    requires Wired(hash, b0, b1, boundary, chains, places, nodes) && entry !in nodes
    requires s == Home(hash(entry.key.text), b0.Length, b1.Length, boundary)
    modifies b0, b1, entry`next
    ensures Wired(hash, b0, b1, boundary, grown, placed, nodes + {entry})
  {
    assert LinkedAt(s.vector, s.bucket, if s.vector == 0 then b0 else b1, chains, nodes);
    hide Stored;
    hide Homed;
    hide AllLinked;
    grown, placed := chains[s := [entry] + chains[s]], places[entry := s];
    NotChained(chains, places, entry);
    StoredAdd(chains, places, s, entry);
    HomedAdd(hash, b0.Length, b1.Length, boundary, places, entry);
    GrowNodes(0, b0, chains, nodes, nodes + {entry});
    GrowNodes(1, b1, chains, nodes, nodes + {entry});
    if s.vector == 0 {
      OtherVector(1, b1, chains, nodes, s, grown[s]);
      PushFront(b0, s.bucket, entry, 0, chains, nodes + {entry});
      GrowNodes(1, b1, grown, nodes, nodes + {entry});
    } else {
      OtherVector(0, b0, chains, nodes, s, grown[s]);
      PushFront(b1, s.bucket, entry, 1, chains, nodes + {entry});
      GrowNodes(0, b0, grown, nodes, nodes + {entry});
    }
    assert placed.Keys == nodes + {entry};
  }

  lemma NotChained<V(0)>(chains: Chains<V>, places: Places<V>, e: Entry<V>)
    requires Stored(chains, places) && e !in places
    ensures forall s, a :: s in chains && 0 <= a < |chains[s]| ==> chains[s][a] != e
  {
  }

  method EraseEntry<V(0)>(hash: Key -> nat, b0: array<Entry?<V>>, b1: array<Entry?<V>>, s: Slot, entry: Entry<V>,
                          prev: Entry?<V>, ghost at: nat, ghost boundary: int, ghost chains: Chains<V>,
                          ghost places: Places<V>, ghost nodes: set<Entry<V>>)
      returns (ghost shrunk: Chains<V>, ghost placed: Places<V>)
    requires Wired(hash, b0, b1, boundary, chains, places, nodes)
    requires s == Home(hash(entry.key.text), b0.Length, b1.Length, boundary)
    requires s in chains && at < |chains[s]| && entry == chains[s][at] && prev == if at == 0 then null
               else chains[s][at - 1]
    modifies b0, b1, nodes`next
    ensures Wired(hash, b0, b1, boundary, shrunk, placed, nodes - {entry})
  {
    hide Stored;
    hide Homed;
    hide AllLinked;
    shrunk, placed := chains[s := Without(chains[s], at)], places - {entry};
    PrevKnown(chains, places, s, at);
    StoredRemove(chains, places, s, at);
    HomedAdd(hash, b0.Length, b1.Length, boundary, places, entry);
    ghost var other := VectorNodes(1 - s.vector, placed);
    if s.vector == 0 {
      OtherVector(1, b1, chains, nodes, s, shrunk[s]);
      OwnNodes(1, b1, shrunk, placed, nodes);
      Unlink(b0, s.bucket, prev, entry, 0, at, chains, places, nodes);
      ForgetNode(0, b0, shrunk, placed, nodes, entry);
      GrowNodes(1, b1, shrunk, other, nodes - {entry});
    } else {
      OtherVector(0, b0, chains, nodes, s, shrunk[s]);
      OwnNodes(0, b0, shrunk, placed, nodes);
      Unlink(b1, s.bucket, prev, entry, 1, at, chains, places, nodes);
      ForgetNode(1, b1, shrunk, placed, nodes, entry);
      GrowNodes(0, b0, shrunk, other, nodes - {entry});
    }
  }

  lemma PrevKnown<V(0)>(chains: Chains<V>, places: Places<V>, s: Slot, at: nat)
    requires Stored(chains, places) && s in chains && at < |chains[s]|
    ensures chains[s][at] in places
    ensures at > 0 ==> chains[s][at - 1] in places && places[chains[s][at - 1]] == s
  {
  }

  lemma IndexedAdd<V(0)>(nodes: set<Entry<V>>, index: map<Key, Entry<V>>, e: Entry<V>)
    requires Indexed(nodes, index) && e.key.text !in index
    ensures Indexed(nodes + {e}, index[e.key.text := e])
    ensures |index[e.key.text := e]| == |index| + 1 && e !in nodes
  {
  }

  lemma NodeIndexed<V(0)>(nodes: set<Entry<V>>, index: map<Key, Entry<V>>, e: Entry<V>)
    requires Indexed(nodes, index) && e in nodes
    ensures e.key.text in index && index[e.key.text] == e
  {
  }

  lemma IndexedRemove<V(0)>(nodes: set<Entry<V>>, index: map<Key, Entry<V>>, key: Key, smaller: map<Key, Entry<V>>)
    requires Indexed(nodes, index) && smaller == index - {key}
    ensures key !in index ==> smaller == index
    ensures key in index ==> Indexed(nodes - {index[key]}, smaller) && |smaller| == |index| - 1
  {
    assert smaller.Keys == index.Keys - {key};
  }

  // ---------------------------------------------------------------- finishing a rehash

  ghost function PromotedChains<V(0)>(chains: Chains<V>, n1: nat): Chains<V> {
    map i: nat | i < n1 && Slot(1, i) in chains :: Slot(0, i) := chains[Slot(1, i)]
  }

  function Promoted(keys: map<Slot, seq<Key>>, n1: nat): map<Slot, seq<Key>> {
    map i: nat | i < n1 && Slot(1, i) in keys :: Slot(0, i) := keys[Slot(1, i)]
  }

  lemma PromotedTexts<V(0)>(chains: Chains<V>, n1: nat)
    ensures AllTexts(PromotedChains(chains, n1)) == Promoted(AllTexts(chains), n1)
  {
  }

  ghost function PromotedPlaces<V(0)>(places: Places<V>): Places<V> {
    map e | e in places :: Slot(0, places[e].bucket)
  }

  /** With vector 0 empty, vector 1 can take its place. */
  lemma Promote<V(0)>(hash: Key -> nat, b0: array<Entry?<V>>, b1: array<Entry?<V>>, none: array<Entry?<V>>,
                      chains: Chains<V>, places: Places<V>, nodes: set<Entry<V>>)
    requires Wired(hash, b0, b1, b0.Length, chains, places, nodes) && none.Length == 0 && none != b1
    ensures Wired(hash, b1, none, -1, PromotedChains(chains, b1.Length), PromotedPlaces(places), nodes)
  {
    var n0, n1 := b0.Length, b1.Length;
    forall e | e in places ensures places[e] == Slot(1, hash(e.key.text) % n1) {
      assert hash(e.key.text) % n0 < n0;
    }
    forall i | 0 <= i < n1 ensures LinkedAt(0, i, b1, PromotedChains(chains, n1), nodes) {
      assert LinkedAt(1, i, b1, chains, nodes);
    }
  }

  // ---------------------------------------------------------------- opening a bucket vector

  ghost function EmptyBuckets<V(0)>(v: nat, n: nat): Chains<V> {
    map i: nat | i < n :: Slot(v, i) := []
  }

  ghost predicate AllNull<V(0)>(buckets: array<Entry?<V>>)
    reads buckets
  {
    forall i :: 0 <= i < buckets.Length ==> buckets[i] == null
  }

  lemma EmptyLinked<V(0)>(v: nat, buckets: array<Entry?<V>>, chains: Chains<V>, nodes: set<Entry<V>>)
    requires AllNull(buckets)
    ensures AllLinked(v, buckets, chains + EmptyBuckets(v, buckets.Length), nodes)
  {
    var d := chains + EmptyBuckets(v, buckets.Length);
    forall i | 0 <= i < buckets.Length ensures LinkedAt(v, i, buckets, d, nodes) {
      assert d[Slot(v, i)] == [];
    }
  }

  lemma OpenFirst<V(0)>(hash: Key -> nat, b0: array<Entry?<V>>, b1: array<Entry?<V>>)
    requires b0 != b1 && b0.Length > 0 && b1.Length == 0 && AllNull(b0)
    ensures Wired(hash, b0, b1, -1, EmptyBuckets(0, b0.Length), map[], {})
  {
    EmptyLinked(0, b0, map[], {});
    assert map[] + EmptyBuckets<V>(0, b0.Length) == EmptyBuckets<V>(0, b0.Length);
  }

  lemma OpenSecond<V(0)>(hash: Key -> nat, b0: array<Entry?<V>>, none: array<Entry?<V>>, b1: array<Entry?<V>>,
                         chains: Chains<V>, places: Places<V>, nodes: set<Entry<V>>)
    requires Wired(hash, b0, none, -1, chains, places, nodes) && b1 != b0 && b1.Length > 0 && AllNull(b1)
    ensures Wired(hash, b0, b1, 0, chains + EmptyBuckets(1, b1.Length), places, nodes)
  {
    EmptyLinked(1, b1, chains, nodes);
    var d := chains + EmptyBuckets(1, b1.Length);
    forall i | 0 <= i < b0.Length ensures LinkedAt(0, i, b0, d, nodes) {
      assert LinkedAt(0, i, b0, chains, nodes);
    }
  }
}
