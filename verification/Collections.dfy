/** Optional values, and facts about finite sets and sequences. */
module Collections {
  datatype Option<T> = None | Some(value: T)

  ghost predicate NoDuplicates<T>(s: seq<T>) {
    forall a, b :: 0 <= a < b < |s| ==> s[a] != s[b]
  }

  lemma {:induction false} SubsetSize<T>(a: set<T>, b: set<T>)
    requires a <= b
    ensures |a| <= |b|
  {
    if a != {} {
      var x :| x in a;
      SubsetSize(a - {x}, b - {x});
    }
  }

  lemma SameSize<T>(a: set<T>, b: set<T>)
    requires a <= b && |a| >= |b|
    ensures a == b
  {
    if x :| x in b && x !in a {
      SubsetSize(a, b - {x});
    }
  }

  lemma MapMinusSize<K, V>(m: map<K, V>, gone: set<K>)
    ensures |m - gone| <= |m|
  {
    SubsetSize((m - gone).Keys, m.Keys);
  }
}
