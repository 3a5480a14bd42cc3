/** The linked chains of the hash table's buckets and the bookkeeping that says which bucket
    holds which entry. Methods here work on one bucket at a time. */
module Chaining {
  import opened Collections

  type Key = string

  /** A key object; two tables may share one. */
  class KeyObject {
    const text: Key
    var lru: nat

    constructor (text: Key)
      ensures this.text == text
    {
      this.text := text;
      lru := 0;
    }
  }

  class Entry<V(0)> {
    const key: KeyObject
    var value: V
    var next: Entry?<V>

    constructor (key: KeyObject)
      ensures this.key == key && next == null
    {
      this.key := key;
      next := null;
    }
  }

  /** Bucket `bucket` of bucket vector `vector` (0 or 1). */
  datatype Slot = Slot(vector: nat, bucket: nat)

  type Chains<!V(0)> = map<Slot, seq<Entry<V>>>
  type Places<!V(0)> = map<Entry<V>, Slot>

  // ---------------------------------------------------------------- links

  /** The entry at place `a` of a chain, or null behind its end. */
  ghost function Follow<V(0)>(chain: seq<Entry<V>>, a: nat): Entry?<V> {
    if a < |chain| then chain[a] else null
  }

  /** `chain` is the list of entries reached from `head` along `next`. */
  ghost predicate Linked<V(0)>(head: Entry?<V>, chain: seq<Entry<V>>)
    reads (set e | e in chain)`next
  {
    && head == Follow(chain, 0)
    && forall a :: 0 <= a < |chain| ==> chain[a].next == Follow(chain, a + 1)
  }

  /** Every bucket of vector `v` heads the chain recorded for it. */
  ghost predicate AllLinked<V(0)>(v: nat, buckets: array<Entry?<V>>, chains: Chains<V>, nodes: set<Entry<V>>)
    reads buckets, nodes`next
  {
    forall i :: 0 <= i < buckets.Length ==> LinkedAt(v, i, buckets, chains, nodes)
  }

  ghost predicate LinkedAt<V(0)>(v: nat, i: nat, buckets: array<Entry?<V>>, chains: Chains<V>, nodes: set<Entry<V>>)
    requires i < buckets.Length
    reads buckets, nodes`next
  {
    && Slot(v, i) in chains
    && Within(chains[Slot(v, i)], nodes)
    && Linked(buckets[i], chains[Slot(v, i)])
  }

  ghost predicate Within<T>(s: seq<T>, nodes: set<T>) {
    forall a :: 0 <= a < |s| ==> s[a] in nodes
  }

  lemma LinkedTail<V(0)>(head: Entry<V>, chain: seq<Entry<V>>)
    requires Linked(head, chain)
    ensures chain != [] && chain[0] == head && Linked(head.next, chain[1..])
  {
    forall a | 0 <= a < |chain[1..]| ensures chain[1..][a].next == Follow(chain[1..], a + 1) {
      assert chain[1..][a] == chain[a + 1];
    }
  }

  /** Puts `entry` in front of bucket `i`. */
  method PushFront<V(0)>(buckets: array<Entry?<V>>, i: nat, entry: Entry<V>, ghost v: nat, ghost chains: Chains<V>,
                         ghost nodes: set<Entry<V>>)
    requires AllLinked(v, buckets, chains, nodes) && i < buckets.Length && entry in nodes
    requires Slot(v, i) in chains
    requires forall s, a :: s in chains && 0 <= a < |chains[s]| ==> chains[s][a] != entry
    modifies buckets, entry`next
    ensures AllLinked(v, buckets, chains[Slot(v, i) := [entry] + chains[Slot(v, i)]], nodes)
    ensures forall k :: 0 <= k < buckets.Length && k != i ==> buckets[k] == old(buckets[k])
  {
    assert LinkedAt(v, i, buckets, chains, nodes);
    entry.next := buckets[i];
    buckets[i] := entry;
    ghost var chain := chains[Slot(v, i)];
    ghost var longer := [entry] + chain;
    ghost var d := chains[Slot(v, i) := longer];
    forall a | 0 <= a < |longer| ensures longer[a].next == Follow(longer, a + 1) {
      assert a > 0 ==> longer[a] == chain[a - 1];
    }
    forall k | 0 <= k < buckets.Length ensures LinkedAt(v, k, buckets, d, nodes) {
      assert old(LinkedAt(v, k, buckets, chains, nodes));
    }
  }

  // ---------------------------------------------------------------- which bucket holds which entry

  /** `places` records for every chained entry the bucket that holds it. */
  ghost predicate Stored<V(0)>(chains: Chains<V>, places: Places<V>) {
    && (forall s, a :: s in chains && 0 <= a < |chains[s]| ==> chains[s][a] in places && places[chains[s][a]] == s)
    && (forall s :: s in chains ==> NoDuplicates(chains[s]))
    && (forall e :: e in places ==> places[e] in chains && e in chains[places[e]])
  }

  /** The chain without its entry at place `at`. */
  ghost function Without<T>(s: seq<T>, at: nat): (r: seq<T>)
    requires at < |s|
    ensures |r| == |s| - 1
    ensures forall a :: 0 <= a < |r| ==> r[a] == if a < at then s[a] else s[a + 1]
  {
    s[..at] + s[at + 1..]
  }

  lemma StoredAdd<V(0)>(chains: Chains<V>, places: Places<V>, s: Slot, e: Entry<V>)
    requires Stored(chains, places) && e !in places && s in chains
    ensures Stored(chains[s := [e] + chains[s]], places[e := s])
  {
    var chain, longer, p := chains[s], [e] + chains[s], places[e := s];
    assert longer[0] == e && forall a :: 0 < a < |longer| ==> longer[a] == chain[a - 1];
    forall f | f in p ensures p[f] == s ==> f in longer {
      if f != e && p[f] == s {
        var a :| 0 <= a < |chain| && chain[a] == f;
        assert longer[a + 1] == f;
      }
    }
  }

  lemma StoredRemove<V(0)>(chains: Chains<V>, places: Places<V>, s: Slot, at: nat)
    requires Stored(chains, places) && s in chains && at < |chains[s]|
    ensures Stored(chains[s := Without(chains[s], at)], places - {chains[s][at]})
  {
    var chain, shorter, p := chains[s], Without(chains[s], at), places - {chains[s][at]};
    forall f | f in p ensures p[f] == s ==> f in shorter {
      if p[f] == s {
        var a :| 0 <= a < |chain| && chain[a] == f;
        assert shorter[if a < at then a else a - 1] == f;
      }
    }
  }

  lemma StoredMove<V(0)>(chains: Chains<V>, places: Places<V>, s: Slot, t: Slot)
    requires Stored(chains, places) && s in chains && t in chains && s != t && chains[s] != []
    ensures var e := chains[s][0];
            Stored(chains[s := chains[s][1..]][t := [e] + chains[t]], places[e := t])
  {
    hide Stored;
    var e := chains[s][0];
    StoredRemove(chains, places, s, 0);
    assert Without(chains[s], 0) == chains[s][1..];
    StoredAdd(chains[s := chains[s][1..]], places - {e}, t, e);
    assert (places - {e})[e := t] == places[e := t];
  }

  /** An entry is chained in one place only. */
  lemma Apart<V(0)>(chains: Chains<V>, places: Places<V>, s: Slot, at: nat)
    requires Stored(chains, places) && s in chains && at < |chains[s]|
    ensures chains[s][at] in places && places[chains[s][at]] == s
    ensures forall t, a :: t in chains && 0 <= a < |chains[t]| && chains[t][a] == chains[s][at] ==> t == s && a == at
  {
  }

  // ---------------------------------------------------------------- searching and unlinking

  method FindInBucket<V(0)>(head: Entry?<V>, key: Key, ghost chain: seq<Entry<V>>) returns (entry: Entry?<V>)
    requires Linked(head, chain)
    ensures entry == null ==> forall a :: 0 <= a < |chain| ==> chain[a].key.text != key
    ensures entry != null ==> entry in chain && entry.key.text == key
  {
    if head == null {
      return null;
    }
    entry := head;
    ghost var at := 0;
    while entry.key.text != key
      invariant 0 <= at < |chain| && entry == chain[at]
      invariant forall a :: 0 <= a < at ==> chain[a].key.text != key
      decreases |chain| - at
    {
      if entry.next == null {
        return null;
      }
      entry := entry.next;
      at := at + 1;
    }
  }

  /** Walks a bucket to the entry of `key`, remembering the entry before it. */
  method Locate<V(0)>(head: Entry?<V>, key: Key, ghost chain: seq<Entry<V>>)
      returns (entry: Entry?<V>, prev: Entry?<V>, ghost at: nat)
    requires Linked(head, chain)
    ensures entry == null ==> forall a :: 0 <= a < |chain| ==> chain[a].key.text != key
    ensures entry != null ==> at < |chain| && entry == chain[at] && entry.key.text == key
    ensures entry != null ==> prev == if at == 0 then null else chain[at - 1]
  {
    prev, at := null, 0;
    if head == null {
      return null, null, 0;
    }
    entry := head;
    while entry.key.text != key
      invariant 0 <= at < |chain| && entry == chain[at]
      invariant prev == if at == 0 then null else chain[at - 1]
      invariant forall a :: 0 <= a < at ==> chain[a].key.text != key
      decreases |chain| - at
    {
      if entry.next == null {
        return null, null, 0;
      }
      prev := entry;
      entry := entry.next;
      at := at + 1;
    }
  }

  lemma UnlinkDone<V(0)>(head: Entry?<V>, chain: seq<Entry<V>>, at: nat)
    requires at < |chain|
    requires head == if at == 0 then Follow(chain, 1) else chain[0]
    requires forall a :: 0 <= a < |chain| && a != at ==>
               chain[a].next == Follow(chain, if a + 1 == at then at + 1 else a + 1)
    ensures Linked(head, Without(chain, at))
  {
  }

  /** Takes the entry at place `at` out of bucket `i`. */
  method Unlink<V(0)>(buckets: array<Entry?<V>>, i: nat, prev: Entry?<V>, entry: Entry<V>, ghost v: nat, ghost at: nat,
                      ghost chains: Chains<V>, ghost places: Places<V>, ghost nodes: set<Entry<V>>)
    requires AllLinked(v, buckets, chains, nodes) && i < buckets.Length
    requires Stored(chains, places) && Slot(v, i) in chains && at < |chains[Slot(v, i)]|
    requires entry == chains[Slot(v, i)][at] && prev == if at == 0 then null else chains[Slot(v, i)][at - 1]
    modifies buckets
    modifies (if prev == null then {} else {prev})`next
    ensures AllLinked(v, buckets, chains[Slot(v, i) := Without(chains[Slot(v, i)], at)], nodes)
  {
    hide Stored;
    hide NoDuplicates;
    ghost var s := Slot(v, i);
    ghost var d := chains[s := Without(chains[s], at)];
    assert LinkedAt(v, i, buckets, chains, nodes);
    Apart(chains, places, s, at);
    if prev == null {
      buckets[i] := entry.next;
    } else {
      Apart(chains, places, s, at - 1);
      prev.next := entry.next;
    }
    UnlinkDone(buckets[i], chains[s], at);
    WithinWithout(chains[s], at, nodes);
    hide Without;
    forall k | 0 <= k < buckets.Length && k != i ensures LinkedAt(v, k, buckets, d, nodes) {
      assert old(LinkedAt(v, k, buckets, chains, nodes));
      assert d[Slot(v, k)] == chains[Slot(v, k)];
      assert Linked(buckets[k], chains[Slot(v, k)]);
    }
    assert LinkedAt(v, i, buckets, d, nodes);
  }

  lemma WithinWithout<T>(s: seq<T>, at: nat, nodes: set<T>)
    requires at < |s| && Within(s, nodes)
    ensures Within(Without(s, at), nodes)
  {
  }

  /** An entry that is in no chain can be forgotten. */
  lemma ForgetNode<V(0)>(v: nat, buckets: array<Entry?<V>>, chains: Chains<V>, places: Places<V>, nodes: set<Entry<V>>,
                         e: Entry<V>)
    requires AllLinked(v, buckets, chains, nodes) && Stored(chains, places) && e !in places
    ensures AllLinked(v, buckets, chains, nodes - {e})
  {
    forall i | 0 <= i < buckets.Length ensures LinkedAt(v, i, buckets, chains, nodes - {e}) {
      assert LinkedAt(v, i, buckets, chains, nodes);
    }
  }
}
