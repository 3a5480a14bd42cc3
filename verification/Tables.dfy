/** The table operations as the owner of several tables sees them: an operation touches nothing
    outside the table's own objects, so tables that own different objects do not interfere. */
module TableAccess {
  import opened Chaining
  import opened Collections
  import opened HashTables
  import opened Arithmetic
  import opened RandomDraws
  import opened Rehashing
  import opened Scan
  import opened Words

  /** The random number generator: an endless stream of draws and how many were taken. */
  class Generator {
    const rand: nat -> nat
    var position: nat

    constructor (rand: nat -> nat)
      ensures this.rand == rand && position == 0
    {
      this.rand, position := rand, 0;
    }
  }

  ghost predicate Recurs(rand: nat -> nat, value: nat, from: nat) {
    exists i :: i >= from && rand(i) == value
  }

  /** Every number the generator can return comes again and again. */
  ghost predicate Fair(rand: nat -> nat) {
    forall value: nat, from: nat :: value <= RAND_MAX ==> Recurs(rand, value, from)
  }

  /** Some stream is fair: counting round and round. */
  lemma FairStream() returns (rand: nat -> nat)
    ensures Fair(rand)
  {
    rand := i => i % (RAND_MAX + 1);
    forall value: nat, from: nat | value <= RAND_MAX ensures Recurs(rand, value, from) {
      var i := from * (RAND_MAX + 1) + value;
      DivUnique(i, RAND_MAX + 1, from, value);
      assert i >= from && rand(i) == value;
    }
  }

  class Table<V(0)> {
    const ht: HashTable<V>
    ghost var repr: set<object>
    ghost var index: map<Key, Entry<V>>
    ghost var contents: map<Key, V>
    ghost var level: nat
    ghost var rehashing: bool

    ghost predicate Intact()
      reads this, repr
    {
      && ht in repr && repr == {this} + ht.Footprint()
      && ht.Valid() && index == ht.index && contents == ht.Contents()
      && level == ht.level && rehashing == (ht.rehashIndex >= 0)
    }

    ghost predicate Valid()
      reads this, repr
    {
      this in repr && contents.Keys == index.Keys && Intact()
    }

    constructor (hash: Key -> nat)
      ensures Valid() && fresh(repr) && index == map[] && contents == map[]
    {
      hide HashTable.Valid;
      ht := new HashTable(hash);
      new;
      Sync(map[], map[]);
    }

    /** Brings the specification fields up to date. */
    method Sync(ghost i: map<Key, Entry<V>>, ghost c: map<Key, V>)
      requires ht.Valid() && ht.index == i && ht.Contents() == c
      modifies this`repr, this`index, this`contents, this`level, this`rehashing
      ensures Valid() && repr == {this} + ht.Footprint() && index == i && contents == c
      ensures level == ht.level && rehashing == (ht.rehashIndex >= 0)
    {
      hide HashTable.Valid;
      ht.Counted();
      repr, index, contents, level, rehashing := {this} + ht.Footprint(), i, c, ht.level, ht.rehashIndex >= 0;
    }

    lemma At(key: Key)
      requires Valid()
      ensures |contents| == |index| == ht.entries
      ensures key in index ==> contents[key] == index[key].value && index[key].key.text == key && index[key] in repr
    {
      hide HashTable.Valid;
      ht.Known();
      ht.Counted();
    }

    lemma Each()
      requires Valid()
      ensures forall k :: k in index ==> index[k] in ht.nodes && index[k].value == contents[k]
    {
      hide HashTable.Valid;
      ht.Known();
    }

    method Find(key: Key) returns (entry: Entry?<V>)
      requires Valid()
      modifies repr
      ensures Valid() && fresh(repr - old(repr)) && level >= old(level)
      ensures index == old(index) && contents == old(contents)
      ensures LaidOut() == Searched(old(LaidOut()), ht.hash)
      ensures entry == if key in index then index[key] else null
      ensures entry != null ==>
                key in contents && entry.value == contents[key] && entry.key.text == key && entry in repr
    {
      hide Searched;
      hide HashTable.LaidOut;
      hide HashTable.Valid;
      hide HashTable.Contents;
      ht.Position();
      entry := ht.Find(key);
      Sync(index, contents);
      At(key);
    }

    method Erase(key: Key) returns (erased: bool)
      requires Valid()
      modifies repr
      ensures Valid() && fresh(repr - old(repr)) && level >= old(level)
      ensures index == old(index) - {key} && contents == old(contents) - {key}
      ensures erased <==> key in old(index)
      ensures !old(rehashing) ==> !rehashing && level == old(level)
    {
      hide HashTable.Valid;
      hide HashTable.Contents;
      ht.Position();
      erased := ht.Erase(key);
      Sync(index - {key}, contents - {key});
    }

    method Upsert(key: Key, value: V) returns (entry: Entry<V>, overwritten: bool)
      requires Valid() && |contents| < MAX_ENTRIES
      modifies repr
      ensures Valid() && fresh(repr - old(repr)) && level >= old(level)
      ensures index == old(index)[key := entry] && contents == old(contents)[key := value]
      ensures entry in repr && entry.key.text == key
      ensures overwritten <==> key in old(index)
      ensures if overwritten then entry == old(index)[key] else fresh(entry.key)
    {
      hide HashTable.Valid;
      hide HashTable.Contents;
      At(key);
      entry, overwritten := ht.Upsert(key, value);
      Sync(index[key := entry], contents[key := value]);
      At(key);
    }

    /** Sets the key of `shared`; a new entry holds that key object, and if an old one does not, nothing is set. */
    method UpsertShared(shared: KeyObject, value: V) returns (held: bool)
      requires Valid() && |contents| < MAX_ENTRIES
      modifies repr
      ensures Valid() && fresh(repr - old(repr)) && level >= old(level)
      ensures held <==> (shared.text in old(index) ==> old(index)[shared.text].key == shared)
      ensures held ==>
                && contents == old(contents)[shared.text := value]
                && shared.text in index && index[shared.text].key == shared
                && index == old(index)[shared.text := index[shared.text]]
      ensures !held ==> contents == old(contents) && index == old(index)
    {
      hide HashTable.Valid;
      hide HashTable.Contents;
      At(shared.text);
      var entry, _, same := ht.UpsertShared(shared, value);
      held := same;
      if held {
        Sync(index[shared.text := entry], contents[shared.text := value]);
      } else {
        assert index[shared.text := entry] == index;
        Sync(index, contents);
      }
    }

    /** The entry of `key`, new if there was none; a new entry holds any value. */
    method FindOrCreate(key: Key) returns (entry: Entry<V>, existed: bool)
      requires Valid() && |contents| < MAX_ENTRIES
      modifies repr
      ensures Valid() && fresh(repr - old(repr)) && level >= old(level)
      ensures index == old(index)[key := entry] && contents == old(contents)[key := entry.value]
      ensures entry in repr && entry.key.text == key
      ensures existed <==> key in old(index)
      ensures existed ==> entry == old(index)[key] && key in old(contents) && entry.value == old(contents)[key]
    {
      hide HashTable.Valid;
      hide HashTable.Contents;
      Each();
      At(key);
      var e;
      e, existed := ht.FindOrCreate(key, true, null);
      ContentsAre(ht, contents[key := e.value]);
      entry := e;
      Sync(index[key := e], contents[key := e.value]);
      At(key);
    }

    /** Overwrites the value of an entry through its pointer. */
    method Assign(entry: Entry<V>, value: V)
      requires Valid() && entry.key.text in index && index[entry.key.text] == entry
      modifies this`contents, entry`value
      ensures Valid() && contents == old(contents)[entry.key.text := value]
    {
      hide HashTable.Valid;
      ht.Known();
      entry.value := value;
      contents := contents[entry.key.text := value];
    }

    method Count() returns (n: nat)
      requires Valid()
      ensures n == |contents|
    {
      At("");
      n := ht.entries;
    }

    /** The entries of the bucket at the scan cursor, and the next cursor. */
    method TraverseBucket(cursor: bv64) returns (next: bv64, visited: seq<Entry<V>>)
      requires Valid() && contents != map[] && Val(cursor) < Pow2(level)
      ensures rehashing ==> next == 0 && visited == []
      ensures !rehashing ==> Val(next) == NextK(Val(cursor), level)
      ensures NoDuplicates(visited)
      ensures forall e :: e in visited ==> e.key.text in index && index[e.key.text] == e
      ensures forall k :: k in index ==> index[k].key.text == k
      ensures !rehashing ==> forall k :: k in index ==>
                (index[k] in visited <==> ht.hash(k) % Pow2(level) == Val(cursor))
    {
      hide HashTable.Valid;
      hide Val;
      hide NextK;
      At("");
      ht.Position();
      ht.Known();
      ht.NodesIndexed();
      if ht.buckets0.Length == 0 {
        ht.EmptyTable();
      }
      next, visited := ht.TraverseBucket(cursor);
    }

    /** The table as the sampler sees it. */
    ghost function LaidOut(): Layout
      requires Valid()
      reads this, repr
    {
      ht.LaidOut()
    }

    lemma LaysKeys()
      requires Valid() && contents != map[]
      ensures Lays(LaidOut(), ht.hash, index.Keys)
    {
      if ht.buckets0.Length == 0 {
        ht.EmptyTable();
      }
      LayoutLays(ht.hash, ht.buckets0, ht.buckets1, ht.rehashIndex, ht.chains, ht.places, ht.nodes, index);
    }

    /** The entry that the generator's next draws select. */
    method GetRandomEntry(generator: Generator) returns (entry: Entry<V>)
      requires Valid() && contents != map[] && Fair(generator.rand) && generator !in repr
      modifies generator`position
      ensures Valid() && LaidOut() == old(LaidOut())
      ensures entry.key.text in index && index[entry.key.text] == entry
      ensures Selects(LaidOut(), generator.rand, old(generator.position), generator.position, entry.key.text)
    {
      hide HashTable.Valid;
      hide HashTable.Contents;
      ghost var until := WillHit(generator.rand, generator.position);
      ht.NodesIndexed();
      var e, next := ht.GetRandomEntry(generator.rand, generator.position, until);
      DrawSelects(generator.rand, generator.position, next, e);
      generator.position := next;
      entry := e;
    }

    lemma DrawSelects(rand: nat -> nat, from: nat, next: nat, entry: Entry<V>)
      requires Valid() && ht.buckets0.Length > 0 && from + 2 <= next && ht.IsFirstHit(rand, from, next - 2)
      requires var chain := ht.chains[ht.DrawnSlot(rand(next - 2))]; entry == chain[rand(next - 1) % |chain|]
      ensures Selects(LaidOut(), rand, from, next, entry.key.text)
    {
      hide HashTable.Valid;
      hide HashTable.Contents;
      hide Home;
      ht.Drawable(0);
      forall i ensures ChainAt(LaidOut(), rand(i)) == Texts(ht.chains[ht.DrawnSlot(rand(i))]) {
        ht.Drawable(rand(i));
      }
    }

    /** Some later draw selects a non-empty bucket. */
    lemma WillHit(rand: nat -> nat, from: nat) returns (until: nat)
      requires Valid() && contents != map[] && Fair(rand)
      ensures ht.buckets0.Length > 0 && from <= until && ht.chains[ht.DrawnSlot(rand(until))] != []
    {
      hide HashTable.Valid;
      var key :| key in contents;
      var draw, _ := ht.EveryEntryCanBeDrawn(key);
      assert Recurs(rand, draw, from);
      until :| until >= from && rand(until) == draw;
    }

    /** Key objects are not owned by the table. */
    lemma KeysApart(key: KeyObject)
      requires Valid()
      ensures key !in repr
    {
      hide HashTable.Valid;
      hide HashTable.Contents;
    }

    /** Moves a hundred buckets at a time until a pending rehash is finished or time is up. */
    method Rehash(timeUp: nat -> bool)
      requires Valid()
      modifies repr
      ensures Valid() && fresh(repr - old(repr)) && level >= old(level)
      ensures index == old(index) && contents == old(contents)
      ensures !old(rehashing) || (forall i :: !timeUp(i)) ==> !rehashing
    {
      hide HashTable.LaidOut;
      hide Rehashed;
      hide HashTable.Valid;
      hide HashTable.Contents;
      ht.Position();
      if ht.rehashIndex < 0 {
        return;
      }
      var round := 0;
      while true
        invariant Valid() && fresh(repr - old(repr)) && level >= old(level)
        invariant index == old(index) && contents == old(contents)
        invariant 0 <= ht.rehashIndex
        decreases ht.buckets0.Length - ht.rehashIndex
      {
        ht.Pending();
        var done := ht.RehashSome(100);
        Sync(index, contents);
        if done || timeUp(round) {
          break;
        }
        ht.Pending();
        round := round + 1;
      }
    }
  }

  lemma LayoutLays<V(0)>(hash: Key -> nat, b0: array<Entry?<V>>, b1: array<Entry?<V>>, boundary: int, chains: Chains<V>,
                         places: Places<V>, nodes: set<Entry<V>>, index: map<Key, Entry<V>>)
    requires Wired(hash, b0, b1, boundary, chains, places, nodes) && Indexed(nodes, index)
    ensures Lays(Layout(b0.Length, b1.Length, boundary, AllTexts(chains)), hash, index.Keys)
  {
    hide AllLinked;
    hide Home;
    var l := Layout(b0.Length, b1.Length, boundary, AllTexts(chains));
    forall k | k in index ensures k in ChainAt(l, hash(k)) {
      var e := index[k];
      var s := places[e];
      var i :| 0 <= i < |chains[s]| && chains[s][i] == e;
      assert l.chains[s][i] == k;
    }
    forall s, i | s in chains && 0 <= i < |chains[s]| ensures l.chains[s][i] in index
        && Home(hash(l.chains[s][i]), b0.Length, b1.Length, boundary) == s {
      var e := chains[s][i];
      assert e in places && places[e] == s;
    }
    forall s | s in chains ensures NoDuplicates(l.chains[s]) {
      forall i, j | 0 <= i < j < |chains[s]| ensures l.chains[s][i] != l.chains[s][j] {
        assert chains[s][i] in places && chains[s][j] in places;
      }
    }
  }

  lemma ContentsAre<V(0)>(t: HashTable<V>, m: map<Key, V>)
    requires m.Keys == t.index.Keys
    requires forall k :: k in m ==> t.index[k].value == m[k]
    ensures t.Contents() == m
  {
  }
}
