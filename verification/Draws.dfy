/** Which key a stream of random draws selects: what a table looks like to the sampler, by value. */
module RandomDraws {
  import opened Chaining
  import opened Collections
  import opened Rehashing

  /** The sizes of the two bucket vectors, the rehash position and the keys of every bucket, in order. */
  datatype Layout = Layout(n0: nat, n1: nat, boundary: int, chains: map<Slot, seq<Key>>)

  predicate Drawable(l: Layout) {
    l.n0 > 0 && (l.boundary > 0 ==> l.n1 > 0)
  }

  /** The keys of the bucket that a draw selects. */
  function ChainAt(l: Layout, draw: nat): seq<Key>
    requires Drawable(l)
  {
    var s := Home(draw, l.n0, l.n1, l.boundary);
    if s in l.chains then l.chains[s] else []
  }

  /** `l` holds each of `keys` once, in the bucket of its hash, and nothing else. */
  ghost predicate Lays(l: Layout, hash: Key -> nat, keys: set<Key>) {
    && Drawable(l)
    && (forall k :: k in keys ==> k in ChainAt(l, hash(k)))
    && (forall s, k :: s in l.chains && k in l.chains[s] ==> k in keys && Home(hash(k), l.n0, l.n1, l.boundary) == s)
    && (forall s :: s in l.chains ==> NoDuplicates(l.chains[s]))
  }

  /** Of the draws from number `from` on, the first that hits a non-empty bucket is number `to - 2`, and draw
      `to - 1` picks `key` there. */
  ghost predicate Selects(l: Layout, rand: nat -> nat, from: nat, to: nat, key: Key) {
    && Drawable(l) && from + 2 <= to
    && (forall i :: from <= i < to - 2 ==> ChainAt(l, rand(i)) == [])
    && var chain := ChainAt(l, rand(to - 2)); chain != [] && key == chain[rand(to - 1) % |chain|]
  }

  /** The draws numbered `from` to `to` select `keys`, one after the other. */
  ghost predicate SelectsAll(l: Layout, rand: nat -> nat, from: nat, to: nat, keys: seq<Key>)
    decreases keys
  {
    if keys == [] then from == to
    else exists mid: nat :: Selects(l, rand, from, mid, keys[0]) && SelectsAll(l, rand, mid, to, keys[1..])
  }

  lemma {:induction false} SelectsNext(l: Layout, rand: nat -> nat, from: nat, mid: nat, to: nat, keys: seq<Key>,
                                       key: Key)
    requires SelectsAll(l, rand, from, mid, keys) && Selects(l, rand, mid, to, key)
    ensures SelectsAll(l, rand, from, to, keys + [key])
    decreases keys
  {
    hide Selects;
    if keys == [] {
      assert (keys + [key])[1..] == [] && SelectsAll(l, rand, to, to, []);
    } else {
      var next: nat :| Selects(l, rand, from, next, keys[0]) && SelectsAll(l, rand, next, mid, keys[1..]);
      SelectsNext(l, rand, next, mid, to, keys[1..], key);
      assert (keys + [key])[1..] == keys[1..] + [key];
    }
  }

  lemma SelectsOne(l: Layout, rand: nat -> nat, from: nat, to: nat, key: Key, to': nat, key': Key)
    requires Selects(l, rand, from, to, key) && Selects(l, rand, from, to', key')
    ensures to == to' && key == key'
  {
  }

  /** The draws decide: from one layout, one stream and one position, only one sample of a size can come. */
  lemma {:induction false} SampleIsDetermined(l: Layout, rand: nat -> nat, from: nat, to: nat, keys: seq<Key>, to': nat,
                                              keys': seq<Key>)
    requires SelectsAll(l, rand, from, to, keys) && SelectsAll(l, rand, from, to', keys') && |keys| == |keys'|
    ensures to == to' && keys == keys'
    decreases keys
  {
    hide Selects;
    if keys != [] {
      var mid: nat :| Selects(l, rand, from, mid, keys[0]) && SelectsAll(l, rand, mid, to, keys[1..]);
      var mid': nat :| Selects(l, rand, from, mid', keys'[0]) && SelectsAll(l, rand, mid', to', keys'[1..]);
      SelectsOne(l, rand, from, mid, keys[0], mid', keys'[0]);
      SampleIsDetermined(l, rand, mid, to, keys[1..], to', keys'[1..]);
      assert keys == [keys[0]] + keys[1..] && keys' == [keys'[0]] + keys'[1..];
    }
  }

  // ---------------------------------------------------------------- what lookups do to the layout

  /** A step of a pending rehash that may move `full` non-empty and pass `empty` empty buckets. */
  function Rehashed(l: Layout, hash: Key -> nat, full: nat, empty: nat): Layout
    requires l.n1 > 0 && 0 <= l.boundary < l.n0 && full > 0 && empty > 0
    decreases l.n0 - l.boundary
  {
    var vacant := KeysIn(l.chains, Slot(0, l.boundary)) == [];
    var moved := l.(boundary := l.boundary + 1, chains := MoveAll(hash, l.n1, l.chains, l.boundary));
    if moved.boundary == l.n0 then Layout(l.n1, 0, -1, Promoted(moved.chains, l.n1))
    else if vacant then if empty == 1 then moved else Rehashed(moved, hash, full, empty - 1)
    else if full == 1 then moved else Rehashed(moved, hash, full - 1, empty)
  }

  lemma RehashedIs(l: Layout, hash: Key -> nat, full: nat, empty: nat)
    requires l.n1 > 0 && 0 <= l.boundary < l.n0 && full > 0 && empty > 0
    ensures var vacant := KeysIn(l.chains, Slot(0, l.boundary)) == [];
            var moved := Layout(l.n0, l.n1, l.boundary + 1, MoveAll(hash, l.n1, l.chains, l.boundary));
            Rehashed(l, hash, full, empty) ==
            if moved.boundary == l.n0 then Layout(l.n1, 0, -1, Promoted(moved.chains, l.n1))
            else if vacant then if empty == 1 then moved else Rehashed(moved, hash, full, empty - 1)
            else if full == 1 then moved else Rehashed(moved, hash, full - 1, empty)
  {
    hide MoveAll;
    hide Promoted;
    hide KeysIn;
  }

  /** A lookup does a step of any pending rehash first. */
  function Searched(l: Layout, hash: Key -> nat): Layout {
    if 0 <= l.boundary < l.n0 && l.n1 > 0 then Rehashed(l, hash, 1, 10) else l
  }

  function SearchedTimes(l: Layout, hash: Key -> nat, n: nat): Layout {
    if n == 0 then l else Searched(SearchedTimes(l, hash, n - 1), hash)
  }
}
