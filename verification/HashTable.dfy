/** The incrementally rehashing hash table. While a rehash is pending the entries are split
    between two bucket vectors; every operation also moves a bounded number of buckets. */
module HashTables {
  import opened Arithmetic
  import opened Chaining
  import opened Collections
  import opened RandomDraws
  import opened Rehashing
  import opened Words
  import opened Scan

  /** Bucket numbers are 32-bit signed in the table; this many entries keep them so. */
  const MAX_ENTRIES: nat := 0x4000_0000

  datatype ExpandResult = NoExpand | Rehashing | ExpandDone

  /** Vector 0 has 2^k buckets; while rehashing vector 1 has twice as many. The entries never outgrow
      the buckets of vector 0 and those the pending rehash has already passed. */
  ghost predicate SizedFor(n0: nat, n1: nat, position: int, k: nat, count: nat) {
    && k >= 2 && n0 == Pow2(k) <= MAX_ENTRIES
    && if position == -1 then
         n1 == 0 && count <= n0
       else
         0 <= position < n0 && n1 == 2 * n0 <= MAX_ENTRIES && count <= n0 + position
  }

  class HashTable<V(0)> {
    const hash: Key -> nat
    var buckets0: array<Entry?<V>>
    var buckets1: array<Entry?<V>>
    var entries: nat
    var rehashIndex: int

    ghost var chains: Chains<V>
    ghost var places: Places<V>
    ghost var nodes: set<Entry<V>>
    ghost var index: map<Key, Entry<V>>
    ghost var level: nat

    /** `index` is the map the table represents. */
    ghost predicate Valid()
      reads this, buckets0, buckets1, nodes`next
    {
      && buckets0 != buckets1
      && Indexed(nodes, index)
      && entries == |index|
      && if buckets0.Length == 0 then
           buckets1.Length == 0 && rehashIndex == -1 && nodes == {} && level == 0
         else
           Wired(hash, buckets0, buckets1, rehashIndex, chains, places, nodes)
           && SizedFor(buckets0.Length, buckets1.Length, rehashIndex, level, entries)
    }

    /** The map from keys to values that the table stands for. */
    ghost function Contents(): (m: map<Key, V>)
      reads this`index, index.Values`value
    {
      map k | k in index :: index[k].value
    }

    /** The bucket vectors, the objects besides entries that the table owns. */
    ghost function Vectors(): set<object>
      reads this
    {
      {buckets0, buckets1}
    }

    /** Everything the table owns. */
    ghost function Footprint(): (owned: set<object>)
      reads this
      ensures this in owned
    {
      {this, buckets0, buckets1} + nodes
    }

    /** The table as the sampler sees it. */
    ghost function LaidOut(): Layout
      reads this
    {
      Layout(buckets0.Length, buckets1.Length, rehashIndex, AllTexts(chains))
    }

    /** One more entry fits under the load bound. */
    ghost predicate HasRoom()
      reads this, buckets0
    {
      entries < buckets0.Length + if rehashIndex > 0 then rehashIndex else 0
    }

    constructor (hash: Key -> nat)
      ensures Valid() && index == map[] && this.hash == hash && nodes == {}
      ensures fresh(buckets0) && fresh(buckets1)
    {
      this.hash := hash;
      buckets0 := new Entry?<V>[0];
      buckets1 := new Entry?<V>[0];
      entries := 0;
      rehashIndex := -1;
      chains, places, nodes, index, level := map[], map[], {}, map[], 0;
    }

    /** Switches to other bucket vectors or another rehash position that hold the same entries. */
    method Install(b0: array<Entry?<V>>, b1: array<Entry?<V>>, position: int, ghost c: Chains<V>, ghost p: Places<V>,
                   ghost k: nat)
      requires Wired(hash, b0, b1, position, c, p, nodes) && Indexed(nodes, index) && entries == |index|
      requires SizedFor(b0.Length, b1.Length, position, k, entries)
      modifies this`buckets0, this`buckets1, this`rehashIndex, this`chains, this`places, this`level
      ensures Valid() && buckets0 == b0 && buckets1 == b1 && rehashIndex == position && level == k && chains == c
    {
      assert b0 != b1 && b0.Length > 0;
      hide Wired;
      hide Indexed;
      hide Pow2;
      buckets0, buckets1, rehashIndex, chains, places, level := b0, b1, position, c, p, k;
    }

    method FinishRehash()
      requires 0 < buckets0.Length == rehashIndex && Wired(hash, buckets0, buckets1, rehashIndex, chains, places, nodes)
      requires Indexed(nodes, index) && entries == |index|
      requires level >= 2 && buckets0.Length == Pow2(level)
      requires entries <= buckets1.Length == 2 * buckets0.Length <= MAX_ENTRIES
      modifies this`buckets0, this`buckets1, this`rehashIndex, this`chains, this`places, this`level
      ensures Valid() && rehashIndex == -1
      ensures buckets0 == old(buckets1) && fresh(buckets1) && level == old(level) + 1
      ensures LaidOut() == Layout(old(buckets1.Length), 0, -1, Promoted(old(LaidOut()).chains, old(buckets1.Length)))
    {
      hide Wired;
      hide Indexed;
      var none := new Entry?<V>[0];
      Promote(hash, buckets0, buckets1, none, chains, places, nodes);
      PromotedTexts(chains, buckets1.Length);
      Install(buckets1, none, -1, PromotedChains(chains, buckets1.Length), PromotedPlaces(places), level + 1);
    }

    lemma LaidOutIs()
      ensures LaidOut() == Layout(buckets0.Length, buckets1.Length, rehashIndex, AllTexts(chains))
    {
    }

    /** Moves the bucket at the rehash position and steps over it. */
    method PassBucket() returns (moved: nat)
      requires Wired(hash, buckets0, buckets1, rehashIndex, chains, places, nodes)
      requires 0 <= rehashIndex < buckets0.Length && buckets1.Length > 0
      modifies this`rehashIndex, this`chains, this`places, buckets0, buckets1, nodes`next
      ensures Wired(hash, buckets0, buckets1, rehashIndex, chains, places, nodes)
      ensures rehashIndex == old(rehashIndex) + 1
      ensures LaidOut() == Layout(buckets0.Length, buckets1.Length, rehashIndex,
                                  MoveAll(hash, buckets1.Length, old(LaidOut()).chains, old(rehashIndex)))
      ensures moved == |KeysIn(old(LaidOut()).chains, Slot(0, old(rehashIndex)))|
    {
      hide Wired;
      hide MoveAll;
      hide AllTexts;
      hide KeysIn;
      moved, chains, places := RehashBucket(hash, buckets0, buckets1, rehashIndex, chains, places, nodes);
      rehashIndex := rehashIndex + 1;
    }

    /** Moves up to `bucketsToRehash` non-empty buckets, or ten times as many empty ones. */
    method RehashSome(bucketsToRehash: nat) returns (done: bool)
      requires Valid() && rehashIndex >= 0 && bucketsToRehash != 0
      modifies this`buckets0, this`buckets1, this`rehashIndex, this`chains, this`places, this`level
      modifies buckets0, buckets1, nodes`next
      ensures Valid()
      ensures LaidOut() == Rehashed(old(LaidOut()), hash, bucketsToRehash, bucketsToRehash * 10)
      ensures done <==> rehashIndex == -1
      ensures done ==> buckets0 == old(buckets1) && fresh(buckets1)
      ensures !done ==> buckets0 == old(buckets0) && buckets1 == old(buckets1)
      ensures !done ==> old(rehashIndex) + bucketsToRehash <= rehashIndex
      ensures level == old(level) + if done then 1 else 0
      ensures HasRoom()
      ensures (if done then old(buckets0.Length) else rehashIndex) - old(rehashIndex) <= 11 * bucketsToRehash - 1
    {
      hide Wired;
      hide Indexed;
      hide Rehashed;
      hide MoveAll;
      hide Promoted;
      hide KeysIn;
      hide LaidOut;
      LaidOutIs();
      var full, empty := bucketsToRehash, bucketsToRehash * 10;
      while true
        invariant 0 < full <= bucketsToRehash && 0 < empty <= bucketsToRehash * 10
        invariant old(rehashIndex) <= rehashIndex < buckets0.Length
        invariant (bucketsToRehash - full) + (bucketsToRehash * 10 - empty) == rehashIndex - old(rehashIndex)
        invariant Wired(hash, buckets0, buckets1, rehashIndex, chains, places, nodes)
        invariant buckets0 == old(buckets0) && buckets1 == old(buckets1) && level == old(level)
        invariant LaidOut().n0 == buckets0.Length && LaidOut().n1 == buckets1.Length > 0
        invariant LaidOut().boundary == rehashIndex
        invariant Rehashed(LaidOut(), hash, full, empty)
               == Rehashed(old(LaidOut()), hash, bucketsToRehash, bucketsToRehash * 10)
        decreases buckets0.Length - rehashIndex
      {
        RehashedIs(LaidOut(), hash, full, empty);
        var moved := PassBucket();
        if rehashIndex == buckets0.Length {
          FinishRehash();
          return true;
        }
        if moved == 0 {
          empty := empty - 1;
          if empty == 0 {
            return false;
          }
        } else {
          full := full - 1;
          if full == 0 {
            return false;
          }
        }
      }
    }

    /** Takes over the bookkeeping of a finished change. */
    method Record(ghost c: Chains<V>, ghost p: Places<V>, ghost n: set<Entry<V>>, ghost i: map<Key, Entry<V>>,
                  count: nat)
      requires Wired(hash, buckets0, buckets1, rehashIndex, c, p, n) && Indexed(n, i) && |i| == count
      requires SizedFor(buckets0.Length, buckets1.Length, rehashIndex, level, count)
      modifies this`chains, this`places, this`nodes, this`index, this`entries
      ensures Valid() && nodes == n && index == i
    {
      hide Wired;
      hide Indexed;
      hide Pow2;
      assert buckets0 != buckets1 && buckets0.Length > 0;
      chains, places, nodes, index, entries := c, p, n, i, count;
    }

    /** The bucket of `key`, after a bounded piece of any pending rehash. */
    method FindBucket(key: Key) returns (s: Slot)
      requires Valid() && buckets0.Length > 0
      modifies this`buckets0, this`buckets1, this`rehashIndex, this`chains, this`places, this`level
      modifies buckets0, buckets1, nodes`next
      ensures Valid() && buckets0.Length > 0
      ensures s == Home(hash(key), buckets0.Length, buckets1.Length, rehashIndex)
      ensures rehashIndex >= 0 || old(rehashIndex) >= 0 ==> HasRoom()
      ensures old(HasRoom()) ==> HasRoom()
      ensures buckets0 == old(buckets0) || buckets0 == old(buckets1)
      ensures buckets1 == old(buckets1) || fresh(buckets1)
      ensures level == old(level) || (level == old(level) + 1 && old(rehashIndex) >= 0 && rehashIndex == -1)
      ensures old(rehashIndex) == -1 ==> rehashIndex == -1
      ensures LaidOut() == Searched(old(LaidOut()), hash)
    {
      hide Wired;
      hide Indexed;
      if rehashIndex >= 0 {
        var _ := RehashSome(1);
      }
      var h := hash(key);
      var i := h % buckets0.Length;
      if i >= rehashIndex {
        return Slot(0, i);
      }
      return Slot(1, h % buckets1.Length);
    }

    method InitBuckets()
      requires Valid() && buckets0.Length == 0
      modifies this`buckets0, this`chains, this`places, this`level
      ensures Valid() && buckets0.Length == 4 && fresh(buckets0) && entries == 0
    {
      hide Wired;
      assert index == map[];
      buckets0 := new Entry?<V>[4](_ => null);
      OpenFirst(hash, buckets0, buckets1);
      chains, places, level := EmptyBuckets(0, 4), map[], 2;
      assert Pow2(2) == 4;
    }

    method StartRehashing()
      requires Valid() && rehashIndex == -1 && 0 < buckets0.Length <= entries < MAX_ENTRIES
      modifies this`buckets0, this`buckets1, this`rehashIndex, this`chains, this`places, this`level
      modifies buckets0, nodes`next
      ensures Valid() && buckets0.Length > 0 && HasRoom()
      ensures buckets0 == old(buckets0) || fresh(buckets0)
      ensures fresh(buckets1)
      ensures if rehashIndex == -1 then level == old(level) + 1 else level == old(level) && rehashIndex > 0
    {
      hide Wired;
      hide Indexed;
      DoubleBelowMax(level);
      var wide := new Entry?<V>[buckets0.Length * 2](_ => null);
      OpenSecond(hash, buckets0, buckets1, wide, chains, places, nodes);
      Install(buckets0, wide, 0, chains + EmptyBuckets(1, wide.Length), places, level);
      var _ := RehashSome(1);
    }

    method Expand() returns (r: ExpandResult)
      requires Valid() && entries < MAX_ENTRIES
      modifies this`buckets0, this`buckets1, this`rehashIndex, this`chains, this`places, this`level
      modifies buckets0, nodes`next
      ensures level >= old(level)
      ensures Valid() && buckets0.Length > 0
      ensures buckets0 == old(buckets0) || fresh(buckets0)
      ensures buckets1 == old(buckets1) || fresh(buckets1)
      ensures r == NoExpand <==> old(rehashIndex) == -1 && (old(buckets0.Length) == 0 || entries < old(buckets0.Length))
      ensures r == NoExpand && old(buckets0.Length) > 0 ==>
                buckets0 == old(buckets0) && buckets1 == old(buckets1) && rehashIndex == -1
      ensures old(rehashIndex) >= 0 ==>
                rehashIndex == old(rehashIndex) && buckets0 == old(buckets0) && buckets1 == old(buckets1)
      ensures old(rehashIndex) >= 0 || HasRoom()
    {
      hide Wired;
      hide Indexed;
      if rehashIndex >= 0 {
        return Rehashing;
      }
      if buckets0.Length == 0 {
        InitBuckets();
        return NoExpand;
      }
      if entries < buckets0.Length {
        return NoExpand;
      }
      StartRehashing();
      return if rehashIndex >= 0 then Rehashing else ExpandDone;
    }

    method FindEntry(key: Key) returns (entry: Entry?<V>, s: Slot)
      requires Valid() && buckets0.Length > 0
      modifies this`buckets0, this`buckets1, this`rehashIndex, this`chains, this`places, this`level
      modifies buckets0, buckets1, nodes`next
      ensures level >= old(level)
      ensures Valid() && buckets0.Length > 0
      ensures s == Home(hash(key), buckets0.Length, buckets1.Length, rehashIndex)
      ensures entry == if key in index then index[key] else null
      ensures LaidOut() == Searched(old(LaidOut()), hash)
      ensures rehashIndex >= 0 ==> HasRoom()
      ensures buckets0 == old(buckets0) || buckets0 == old(buckets1)
      ensures buckets1 == old(buckets1) || fresh(buckets1)
    {
      hide LaidOut;
      hide Searched;
      hide Wired;
      hide Indexed;
      s := FindBucket(key);
      entry := FindAt(hash, buckets0, buckets1, s, key, rehashIndex, chains, places, nodes, index);
    }

    method CreateEntry(key: Key, shared: KeyObject?, s: Slot) returns (entry: Entry<V>)
      requires Valid() && buckets0.Length > 0 && key !in index && HasRoom()
      requires shared != null ==> shared.text == key
      requires s == Home(hash(key), buckets0.Length, buckets1.Length, rehashIndex)
      modifies this`entries, this`chains, this`places, this`nodes, this`index, buckets0, buckets1
      ensures Valid()
      ensures fresh(entry) && nodes == old(nodes) + {entry} && index == old(index)[key := entry]
      ensures entry.key.text == key && if shared != null then entry.key == shared else fresh(entry.key)
    {
      hide Wired;
      hide Indexed;
      hide Home;
      hide Pow2;
      var keyObject := shared;
      if keyObject == null {
        keyObject := new KeyObject(key);
      }
      entry := new Entry(keyObject);
      IndexedAdd(nodes, index, entry);
      ghost var grown, placed := AddEntry(hash, buckets0, buckets1, s, entry, rehashIndex, chains, places, nodes);
      Record(grown, placed, nodes + {entry}, index[key := entry], entries + 1);
    }

    lemma Counted()
      requires Valid()
      ensures entries == |index| == |Contents()|
      ensures Contents().Keys == index.Keys
    {
      assert Contents().Keys == index.Keys;
    }

    lemma ContentAt(key: Key)
      ensures key in Contents() <==> key in index
      ensures key in index ==> Contents()[key] == index[key].value
    {
    }

    lemma NodesIndexed()
      requires Valid()
      ensures forall e :: e in nodes ==> e.key.text in index && index[e.key.text] == e
    {
    }

    lemma Known()
      requires Valid()
      ensures forall k :: k in index ==> index[k] in nodes && index[k].key.text == k
    {
    }

    lemma EmptyTable()
      requires Valid() && buckets0.Length == 0
      ensures index == map[] && LaidOut() == Searched(LaidOut(), hash)
    {
    }

    /** Adds an entry for a key that was searched in bucket `s` and not found. */
    method AddMissing(key: Key, shared: KeyObject?, s: Slot) returns (entry: Entry<V>)
      requires Valid() && buckets0.Length > 0 && entries < MAX_ENTRIES && key !in index
      requires s == Home(hash(key), buckets0.Length, buckets1.Length, rehashIndex)
      requires rehashIndex >= 0 ==> HasRoom()
      requires shared != null ==> shared.text == key
      modifies this, buckets0, buckets1, nodes`next
      ensures Valid() && level >= old(level)
      ensures fresh(entry) && nodes == old(nodes) + {entry} && index == old(index)[key := entry]
      ensures entry.key.text == key && if shared != null then entry.key == shared else fresh(entry.key)
      ensures fresh(Vectors() - old(Vectors()))
    {
      hide LaidOut;
      hide Searched;
      hide Valid;
      hide Home;
      var target := s;
      var expanded := Expand();
      if expanded != NoExpand {
        target := FindBucket(key);
      }
      entry := CreateEntry(key, shared, target);
    }

    /** The entry of `key`; if there is none and `createOnMissing`, a new one. A new entry shares the
        given key object or makes its own. */
    method FindOrCreate(key: Key, createOnMissing: bool, shared: KeyObject?) returns (entry: Entry?<V>, existed: bool)
      requires Valid() && (createOnMissing ==> entries < MAX_ENTRIES)
      requires shared != null ==> shared.text == key
      modifies this, buckets0, buckets1, nodes`next
      ensures Valid() && level >= old(level)
      ensures existed <==> key in old(index)
      ensures existed || !createOnMissing ==> index == old(index) && nodes == old(nodes)
      ensures existed ==> entry == old(index)[key]
      ensures !existed && !createOnMissing ==> entry == null
      ensures !createOnMissing ==> LaidOut() == Searched(old(LaidOut()), hash)
      ensures !existed && createOnMissing ==>
                && entry != null && fresh(entry) && index == old(index)[key := entry] && nodes == old(nodes) + {entry}
                && entry.key.text == key && if shared != null then entry.key == shared else fresh(entry.key)
      ensures fresh(Vectors() - old(Vectors()))
    {
      hide LaidOut;
      hide Searched;
      hide Valid;
      hide Home;
      if buckets0.Length == 0 {
        if !createOnMissing {
          EmptyTable();
          return null, false;
        }
        var _ := Expand();
      }
      var s;
      entry, s := FindEntry(key);
      if entry != null {
        return entry, true;
      }
      if createOnMissing {
        entry := AddMissing(key, shared, s);
      }
      existed := false;
    }

    method Find(key: Key) returns (entry: Entry?<V>)
      requires Valid()
      modifies this, buckets0, buckets1, nodes`next
      ensures Valid() && level >= old(level) && index == old(index) && nodes == old(nodes)
      ensures LaidOut() == Searched(old(LaidOut()), hash)
      ensures entry == if key in index then index[key] else null
      ensures Contents() == old(Contents())
      ensures fresh(Vectors() - old(Vectors()))
    {
      hide Valid;
      var found;
      entry, found := FindOrCreate(key, false, null);
    }

    /** Adds `key` with `value` if it is not there. */
    method Insert(key: Key, value: V) returns (entry: Entry<V>, inserted: bool)
      requires Valid() && entries < MAX_ENTRIES
      modifies this, buckets0, buckets1, nodes`next
      ensures Valid() && level >= old(level)
      ensures inserted <==> key !in old(index)
      ensures index == old(index)[key := entry] && nodes == if inserted then old(nodes) + {entry} else old(nodes)
      ensures if inserted then fresh(entry) && fresh(entry.key) && entry.value == value else entry == old(index)[key]
      ensures Contents() == if inserted then old(Contents())[key := value] else old(Contents())
      ensures fresh(Vectors() - old(Vectors()))
    {
      hide LaidOut;
      hide Searched;
      hide Valid;
      Known();
      var found, e;
      e, found := FindOrCreate(key, true, null);
      if !found {
        e.value := value;
      }
      entry, inserted := e, !found;
    }

    /** Sets `key` to `value`; a new entry makes its own key object. */
    method Upsert(key: Key, value: V) returns (entry: Entry<V>, overwritten: bool)
      requires Valid() && entries < MAX_ENTRIES
      modifies this, buckets0, buckets1, nodes`next, nodes`value
      ensures Valid() && level >= old(level)
      ensures overwritten <==> key in old(index)
      ensures index == old(index)[key := entry] && nodes == if overwritten then old(nodes) else old(nodes) + {entry}
      ensures if overwritten then entry == old(index)[key] else fresh(entry) && fresh(entry.key)
      ensures entry.value == value && forall e :: e in old(nodes) && e != entry ==> e.value == old(e.value)
      ensures Contents() == old(Contents())[key := value]
      ensures fresh(Vectors() - old(Vectors()))
    {
      hide LaidOut;
      hide Searched;
      hide Valid;
      Known();
      var e;
      e, overwritten := FindOrCreate(key, true, null);
      e.value := value;
      entry := e;
    }

    /** Sets the key of `shared` to `value`; a new entry shares the key object. The source asserts that an
        existing entry already holds that object: `held` says whether it does, and if not it ends there. */
    method UpsertShared(shared: KeyObject, value: V) returns (entry: Entry<V>, overwritten: bool, held: bool)
      requires Valid() && entries < MAX_ENTRIES
      modifies this, buckets0, buckets1, nodes`next, nodes`value
      ensures Valid() && level >= old(level)
      ensures overwritten <==> shared.text in old(index)
      ensures held <==> (shared.text in old(index) ==> old(index)[shared.text].key == shared)
      ensures index == old(index)[shared.text := entry]
      ensures nodes == if overwritten then old(nodes) else old(nodes) + {entry}
      ensures if overwritten then entry == old(index)[shared.text] else fresh(entry) && entry.key == shared
      ensures forall e :: e in old(nodes) && (e != entry || !held) ==> e.value == old(e.value)
      ensures Contents() == if held then old(Contents())[shared.text := value] else old(Contents())
      ensures fresh(Vectors() - old(Vectors()))
    {
      hide LaidOut;
      hide Searched;
      hide Valid;
      Known();
      var e;
      e, overwritten := FindOrCreate(shared.text, true, shared);
      entry, held := e, e.key == shared;
      if held {
        e.value := value;
      }
    }

    method Erase(key: Key) returns (erased: bool)
      requires Valid()
      modifies this, buckets0, buckets1, nodes`next
      ensures Valid() && level >= old(level) && (old(rehashIndex) == -1 ==> rehashIndex == -1 && level == old(level))
      ensures erased <==> key in old(index)
      ensures index == old(index) - {key} && nodes == if erased then old(nodes) - {old(index)[key]} else old(nodes)
      ensures Contents() == old(Contents()) - {key}
      ensures fresh(Vectors() - old(Vectors()))
    {
      hide LaidOut;
      hide Searched;
      hide Valid;
      hide Home;
      ghost var before := Contents();
      if buckets0.Length == 0 {
        EmptyTable();
        return false;
      }
      var s := FindBucket(key);
      erased := EraseAt(key, s);
      assert forall k :: k in index ==> k in before && index[k].value == before[k];
      assert Contents().Keys == before.Keys - {key};
    }

    /** Unlinks the entry found at place `at` of bucket `s`. */
    method EraseFound(s: Slot, found: Entry<V>, prev: Entry?<V>, ghost at: nat)
      requires Valid() && buckets0.Length > 0 && found in nodes
      requires s == Home(hash(found.key.text), buckets0.Length, buckets1.Length, rehashIndex)
      requires s in chains && at < |chains[s]| && found == chains[s][at] && prev == if at == 0 then null
                 else chains[s][at - 1]
      modifies this`entries, this`chains, this`places, this`nodes, this`index, buckets0, buckets1, nodes`next
      ensures Valid()
      ensures index == old(index) - {found.key.text} && nodes == old(nodes) - {found}
    {
      hide Wired;
      hide Indexed;
      hide Home;
      hide Pow2;
      ghost var smaller, fewer := index - {found.key.text}, nodes - {found};
      NodeIndexed(nodes, index, found);
      IndexedRemove(nodes, index, found.key.text, smaller);
      ghost var shrunk, placed := EraseEntry(hash, buckets0, buckets1, s, found, prev, at, rehashIndex, chains, places,
                                             nodes);
      Record(shrunk, placed, fewer, smaller, entries - 1);
    }

    method EraseAt(key: Key, s: Slot) returns (erased: bool)
      requires Valid() && buckets0.Length > 0
      requires s == Home(hash(key), buckets0.Length, buckets1.Length, rehashIndex)
      modifies this`entries, this`chains, this`places, this`nodes, this`index, buckets0, buckets1, nodes`next
      ensures Valid()
      ensures erased <==> key in old(index)
      ensures index == old(index) - {key} && nodes == if erased then old(nodes) - {old(index)[key]} else old(nodes)
    {
      hide Wired;
      hide Home;
      var entry, prev, at := LocateAt(hash, buckets0, buckets1, s, key, rehashIndex, chains, places, nodes, index);
      erased := entry != null;
      if erased {
        EraseFound(s, entry, prev, at);
      } else {
        IndexedRemove(nodes, index, key, index - {key});
      }
    }

    // -------------------------------------------------------------- scanning and sampling

    /** Hands the entries that bucket `bucketIndex` holds to the caller and advances the scan cursor.
        In the middle of a rehash it hands out nothing and resets the cursor. */
    method TraverseBucket(bucketIndex: bv64) returns (next: bv64, visited: seq<Entry<V>>)
      requires Valid() && (rehashIndex == -1 ==> Val(bucketIndex) < buckets0.Length)
      ensures rehashIndex >= 0 ==> next == 0 && visited == []
      ensures rehashIndex == -1 ==> Val(next) == NextK(Val(bucketIndex), level) < buckets0.Length
      ensures rehashIndex == -1 ==> NoDuplicates(visited)
      ensures rehashIndex == -1 ==> forall e :: e in visited <==>
                e in nodes && hash(e.key.text) % buckets0.Length == Val(bucketIndex)
    {
      hide Val;
      hide Valid;
      Position();
      if rehashIndex >= 0 {
        return 0, [];
      }
      BucketHolds(Val(bucketIndex));
      ghost var chain := chains[Slot(0, Val(bucketIndex))];
      var entry := buckets0[Val(bucketIndex)];
      next := Advance(bucketIndex);
      visited := [];
      while entry != null
        invariant |visited| <= |chain| && visited == chain[..|visited|] && entry == Follow(chain, |visited|)
        decreases |chain| - |visited|
      {
        visited := visited + [entry];
        entry := entry.next;
      }
    }

    lemma Position()
      requires Valid()
      ensures -1 <= rehashIndex < MAX_ENTRIES
      ensures buckets0.Length > 0 ==> buckets0.Length == Pow2(level)
      ensures buckets0.Length > 0 <==> level >= 2
    {
    }

    lemma Pending()
      requires Valid()
      ensures rehashIndex >= 0 ==> rehashIndex < buckets0.Length
    {
    }

    method Advance(bucketIndex: bv64) returns (next: bv64)
      requires Valid() && buckets0.Length > 0 && Val(bucketIndex) < buckets0.Length
      ensures Val(next) == NextK(Val(bucketIndex), level)
    {
      hide Wired;
      hide Indexed;
      hide Val;
      hide NextK;
      MaxIsPower();
      if level > 30 {
        Pow2Monotone(31, level);
      }
      ghost var k := ShiftOf(level);
      WordOfPower(k);
      next := NextIndex(bucketIndex, WordOf(buckets0.Length), k);
      NextWordValue(bucketIndex, k);
    }

    lemma BucketHolds(i: nat)
      requires Valid() && rehashIndex == -1 && i < buckets0.Length
      ensures Slot(0, i) in chains && Linked(buckets0[i], chains[Slot(0, i)]) && NoDuplicates(chains[Slot(0, i)])
      ensures forall e :: e in chains[Slot(0, i)] <==> e in nodes && hash(e.key.text) % buckets0.Length == i
    {
      assert LinkedAt(0, i, buckets0, chains, nodes);
    }

    /** The bucket a draw selects: the one `FindBucket` would assign to an equal hash. */
    ghost function DrawnSlot(draw: nat): (s: Slot)
      requires Valid() && buckets0.Length > 0
      reads this, buckets0, buckets1, nodes`next
      ensures s in chains
    {
      Drawable(draw);
      Home(draw, buckets0.Length, buckets1.Length, rehashIndex)
    }

    lemma Drawable(draw: nat)
      requires Valid() && buckets0.Length > 0
      ensures rehashIndex > 0 ==> buckets1.Length > 0
      ensures var s := Home(draw, buckets0.Length, buckets1.Length, rehashIndex);
              && s in chains && Within(chains[s], nodes)
              && s.bucket < (if s.vector == 0 then buckets0 else buckets1).Length
              && Linked((if s.vector == 0 then buckets0 else buckets1)[s.bucket], chains[s])
    {
      var s := Home(draw, buckets0.Length, buckets1.Length, rehashIndex);
      assert LinkedAt(s.vector, s.bucket, if s.vector == 0 then buckets0 else buckets1, chains, nodes);
    }

    /** Draws buckets until one is not empty, then draws one of its entries. The random number generator
        returns `rand(from)`, `rand(from + 1)` and so on; the loop ends because draw `until` would hit. */
    method GetRandomEntry(rand: nat -> nat, from: nat, ghost until: nat) returns (entry: Entry?<V>, next: nat)
      requires Valid()
      requires buckets0.Length > 0 ==> from <= until && chains[DrawnSlot(rand(until))] != []
      ensures entry == null <==> buckets0.Length == 0
      ensures entry != null ==>
                && entry in nodes && from + 2 <= next <= until + 2 && IsFirstHit(rand, from, next - 2)
                && var chain := chains[DrawnSlot(rand(next - 2))]; entry == chain[rand(next - 1) % |chain|]
    {
      hide Valid;
      hide Home;
      if buckets0.Length == 0 {
        return null, from;
      }
      var bucket: Entry?<V> := null;
      next := from;
      while bucket == null
        invariant from <= next <= until + 1
        invariant bucket == null ==> next <= until && forall k :: from <= k < next ==> chains[DrawnSlot(rand(k))] == []
        invariant bucket != null ==>
                    && from < next && IsFirstHit(rand, from, next - 1)
                    && Linked(bucket, chains[DrawnSlot(rand(next - 1))])
                    && Within(chains[DrawnSlot(rand(next - 1))], nodes)
        decreases until + 1 - next
      {
        bucket := DrawBucket(rand(next));
        next := next + 1;
      }
      entry := PickInBucket(bucket, rand(next), chains[DrawnSlot(rand(next - 1))]);
      next := next + 1;
    }

    /** The bucket that a draw selects. */
    method DrawBucket(draw: nat) returns (bucket: Entry?<V>)
      requires Valid() && buckets0.Length > 0
      ensures Linked(bucket, chains[DrawnSlot(draw)]) && Within(chains[DrawnSlot(draw)], nodes)
    {
      hide Valid;
      var bucketIndex := draw % buckets0.Length;
      Drawable(draw);
      if bucketIndex >= rehashIndex {
        bucket := buckets0[bucketIndex];
      } else {
        bucket := buckets1[draw % buckets1.Length];
      }
    }

    /** Of the draws from number `from` on, draw `i` is the first to select a non-empty bucket. */
    ghost predicate IsFirstHit(rand: nat -> nat, from: nat, i: nat)
      requires Valid() && buckets0.Length > 0
      reads this, buckets0, buckets1, nodes`next
    {
      && chains[DrawnSlot(rand(i))] != []
      && forall k :: from <= k < i ==> chains[DrawnSlot(rand(k))] == []
    }

    /** Every stored entry can be drawn, in every rehash state, by draws the generator can return. */
    lemma EveryEntryCanBeDrawn(key: Key) returns (draw: nat, entryDraw: nat)
      requires Valid() && key in index
      ensures buckets0.Length > 0 && draw <= RAND_MAX && entryDraw <= RAND_MAX
      ensures var chain := chains[DrawnSlot(draw)];
              chain != [] && chain[entryDraw % |chain|] == index[key]
    {
      hide Wired;
      hide Indexed;
      hide Home;
      hide Pow2;
      if buckets0.Length == 0 {
        EmptyTable();
      }
      var s := Home(hash(key), buckets0.Length, buckets1.Length, rehashIndex);
      draw := s.bucket;
      Lookup(hash, buckets0, buckets1, rehashIndex, chains, places, nodes, index, key);
      ChainFits(hash, buckets0, buckets1, rehashIndex, chains, places, nodes, s);
      SameHome(hash(key), buckets0.Length, buckets1.Length, rehashIndex);
      IndexSize(nodes, index);
      entryDraw :| 0 <= entryDraw < |chains[s]| && chains[s][entryDraw] == index[key];
      DivUnique(entryDraw, |chains[s]|, 0, entryDraw);
    }
  }

  const RAND_MAX: nat := 0x7FFF_FFFF

  /** Picks entry number `draw % length` of a bucket by walking it twice. */
  method PickInBucket<V(0)>(bucket: Entry<V>, draw: nat, ghost chain: seq<Entry<V>>) returns (entry: Entry<V>)
    requires Linked(bucket, chain)
    ensures chain != [] && entry == chain[draw % |chain|]
  {
    var length := 1;
    entry := bucket;
    while entry.next != null
      invariant 1 <= length <= |chain| && entry == chain[length - 1]
      decreases |chain| - length
    {
      length := length + 1;
      entry := entry.next;
    }
    var target := draw % length;
    entry := bucket;
    for i := 0 to target
      invariant entry == chain[i]
    {
      entry := entry.next;
    }
  }

  /** The bucket number of a hash, used as a hash, has the same home. */
  lemma SameHome(h: nat, n0: nat, n1: nat, boundary: int)
    requires n0 > 0 && (boundary > 0 ==> n1 == 2 * n0)
    ensures Home(Home(h, n0, n1, boundary).bucket, n0, n1, boundary) == Home(h, n0, n1, boundary)
  {
    if h % n0 >= boundary {
      DivUnique(h % n0, n0, 0, h % n0);
    } else {
      ModOfDouble(h, n0);
      DivUnique(h % n1, n1, 0, h % n1);
    }
  }

  lemma {:induction false} ChainShort<T>(s: seq<T>, nodes: set<T>)
    requires NoDuplicates(s) && Within(s, nodes)
    ensures |s| <= |nodes|
  {
    if s != [] {
      ChainShort(s[1..], nodes - {s[0]});
    }
  }

  lemma ChainFits<V(0)>(hash: Key -> nat, b0: array<Entry?<V>>, b1: array<Entry?<V>>, boundary: int, chains: Chains<V>,
                        places: Places<V>, nodes: set<Entry<V>>, s: Slot)
    requires Wired(hash, b0, b1, boundary, chains, places, nodes) && s in chains
    ensures |chains[s]| <= |nodes|
  {
    ChainShort(chains[s], nodes);
  }

  lemma {:induction false} IndexSize<V(0)>(nodes: set<Entry<V>>, index: map<Key, Entry<V>>)
    requires Indexed(nodes, index)
    ensures |nodes| == |index|
  {
    if nodes == {} {
      assert index == map[];
    } else {
      var e :| e in nodes;
      var smaller := index - {e.key.text};
      IndexedRemove(nodes, index, e.key.text, smaller);
      IndexSize(nodes - {e}, smaller);
    }
  }

  /** A power of two below 2^30 can be doubled once. */
  lemma DoubleBelowMax(k: nat)
    ensures Pow2(k) < MAX_ENTRIES ==> 2 * Pow2(k) <= MAX_ENTRIES
  {
    MaxIsPower();
    if k >= 30 {
      Pow2Monotone(30, k);
    } else {
      Pow2Monotone(k + 1, 30);
    }
  }

  lemma MaxIsPower()
    ensures Pow2(30) == MAX_ENTRIES
  {
    assert Pow2(10) == 1024;
    Pow2Add(10, 10);
    Pow2Add(10, 20);
  }
}
