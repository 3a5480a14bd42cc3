/** The reverse-binary scan order on bucket numbers, and why a sweep of the cursor survives
    the table doubling between two calls. */
module Scan {
  import opened Arithmetic
  import opened Words

  // ---------------------------------------------------------------- k-bit reversal of numbers

  lemma {:induction false} RevKSplit(x: nat, k: nat)
    ensures RevK(x, k + 1) == 2 * RevK(x, k) + (x / Pow2(k)) % 2
  {
    if k > 0 {
      var h := x / 2;
      RevKSplit(h, k - 1);
      DivStep(x, k);
      assert RevK(x, k + 1) == (x % 2) * Pow2(k) + RevK(h, k);
      assert RevK(x, k) == (x % 2) * Pow2(k - 1) + RevK(h, k - 1);
      hide *;
      DoubleTop(x % 2, k);
    }
  }

  lemma DoubleTop(bit: nat, k: nat)
    requires k > 0
    ensures bit * Pow2(k) == 2 * (bit * Pow2(k - 1))
  {
  }

  lemma DivStep(x: nat, k: nat)
    requires k > 0
    ensures (x / 2) / Pow2(k - 1) == x / Pow2(k)
  {
    DivDiv(x, 2, Pow2(k - 1));
  }

  /** Only the low k bits matter. */
  lemma {:induction false} RevKMod(h: nat, k: nat)
    ensures RevK(h % Pow2(k), k) == RevK(h, k)
  {
    if k > 0 {
      ModHalf(h, k);
      RevKMod(h / 2, k - 1);
    }
  }

  lemma ModHalf(h: nat, k: nat)
    requires k > 0
    ensures (h % Pow2(k)) % 2 == h % 2
    ensures (h % Pow2(k)) / 2 == (h / 2) % Pow2(k - 1)
  {
    var p := Pow2(k - 1);
    var q, r := h / 2 / p, h / 2 % p;
    assert h / 2 == q * p + r;
    assert h == q * (2 * p) + (2 * r + h % 2) by {
      assert q * (2 * p) == 2 * (q * p);
    }
    DivUnique(h, 2 * p, q, 2 * r + h % 2);
  }

  lemma HalfBelow(x: nat, k: nat)
    requires k > 0 && x < Pow2(k)
    ensures x / 2 < Pow2(k - 1) && x == 2 * (x / 2) + x % 2 && (x % 2) % 2 == x % 2 && 0 < Pow2(k - 1)
  {
  }

  lemma NoBits(x: nat)
    requires x < Pow2(0)
    ensures RevK(RevK(x, 0), 0) == x
  {
  }

  lemma LowestBit(x: nat, k: nat)
    requires k > 0
    ensures RevK(x, k) == (x % 2) * Pow2(k - 1) + RevK(x / 2, k - 1) && RevK(x / 2, k - 1) < Pow2(k - 1)
  {
  }

  lemma {:induction false} RevKInvolution(x: nat, k: nat)
    requires x < Pow2(k)
    ensures RevK(RevK(x, k), k) == x
  {
    hide *;
    if k == 0 {
      NoBits(x);
    } else {
      var r, y := RevK(x, k), RevK(x / 2, k - 1);
      LowestBit(x, k);
      HalfBelow(x, k);
      RevKInvolution(x / 2, k - 1);
      DivUnique(r, Pow2(k - 1), x % 2, y);
      RevKSplit(r, k - 1);
      RevKMod(r, k - 1);
    }
  }

  /** The index after `c` in the scan order of 2^k buckets: one more in reversed binary. */
  function NextK(c: nat, k: nat): (r: nat)
    ensures r < Pow2(k)
  {
    RevK((RevK(c, k) + 1) % Pow2(k), k)
  }

  lemma NextKReversed(c: nat, k: nat)
    ensures RevK(NextK(c, k), k) == (RevK(c, k) + 1) % Pow2(k)
  {
    RevKInvolution((RevK(c, k) + 1) % Pow2(k), k);
  }

  /** The machine-word cursor follows `NextK`. */
  lemma NextWordValue(index: bv64, k: bv7)
    requires 1 <= k <= 31 && Val(index) < Pow2(Width(k))
    ensures Val(NextWord(index, k)) == NextK(Val(index), Width(k))
  {
    hide Val;
    hide NextWord;
    hide Width;
    NextWordIsReverseIncrement(index, k);
    RevKInvolution(Val(NextWord(index, k)), Width(k));
  }

  lemma RevKZero(x: nat, k: nat)
    requires x < Pow2(k)
    ensures RevK(x, k) == 0 <==> x == 0
  {
    RevKInvolution(x, k);
    RevKOfZero(k);
  }

  lemma {:induction false} RevKOfZero(k: nat)
    ensures RevK(0, k) == 0
  {
    if k > 0 {
      RevKOfZero(k - 1);
    }
  }

  function Iterate(k: nat, n: nat): (c: nat)
    ensures c < Pow2(k)
  {
    if n == 0 then 0 else NextK(Iterate(k, n - 1), k)
  }

  lemma {:induction false} IterateReversed(k: nat, n: nat)
    ensures RevK(Iterate(k, n), k) == n % Pow2(k)
  {
    if n == 0 {
      RevKOfZero(k);
    } else {
      IterateReversed(k, n - 1);
      NextKReversed(Iterate(k, n - 1), k);
      ModStep(n - 1, Pow2(k));
    }
  }

  /** On a fixed table the cursor is one cycle through all 2^k indices: index `b` is met after
      exactly `RevK(b, k)` steps and at no other step of a round, and a round has 2^k steps. */
  lemma SingleCycle(k: nat, b: nat, n: nat)
    requires b < Pow2(k)
    ensures Iterate(k, n) == b <==> n % Pow2(k) == RevK(b, k)
    ensures Iterate(k, n) == 0 <==> n % Pow2(k) == 0
  {
    IterateReversed(k, n);
    RevKInvolution(b, k);
    RevKInvolution(Iterate(k, n), k);
    RevKZero(Iterate(k, n), k);
  }

  // ---------------------------------------------------------------- sweeps over a growing table

  /** One `TraverseBucket` call: the table had 2^level buckets in vector 0 and was or was not
      in the middle of a rehash. */
  datatype Call = Call(level: nat, rehashing: bool)

  /** The cursor before call `n` of a sweep that starts at index 0. */
  function CursorAt(calls: seq<Call>, n: nat): nat
    requires n <= |calls|
  {
    if n == 0 then 0
    else if calls[n - 1].rehashing then 0
    else NextK(CursorAt(calls, n - 1), calls[n - 1].level)
  }

  /** The calls of a sweep that has not returned to 0 before the last one. A table only ever doubles, so the
      levels grow. */
  predicate Underway(calls: seq<Call>) {
    && (forall i, j :: 0 <= i < j < |calls| ==> calls[i].level <= calls[j].level)
    && (forall n :: 0 < n < |calls| ==> CursorAt(calls, n) != 0)
  }

  /** A whole sweep ends at the first return to 0. */
  predicate Sweep(calls: seq<Call>) {
    |calls| > 0 && Underway(calls) && CursorAt(calls, |calls|) == 0
  }

  /** Call `j` visits the entries with hash `h`. */
  predicate Visits(calls: seq<Call>, h: nat, j: nat)
    requires j < |calls|
  {
    !calls[j].rehashing && h % Pow2(calls[j].level) == CursorAt(calls, j)
  }

  function VisitCount(calls: seq<Call>, h: nat, n: nat): nat
    requires n <= |calls|
  {
    if n == 0 then 0 else VisitCount(calls, h, n - 1) + if Visits(calls, h, n - 1) then 1 else 0
  }

  /** Doubling splits every bucket in two and keeps the split images on their side of the
      cursor: what is behind the cursor of the smaller table is behind it in the larger one. */
  lemma {:induction false} BehindCursorStable(h: nat, c: nat, small: nat, large: nat)
    requires small <= large && c < Pow2(small)
    ensures RevK(h, small) < RevK(c, small) <==> RevK(h, large) < RevK(c, large)
    ensures c < Pow2(large)
    decreases large - small
  {
    if small < large {
      hide RevK;
      RevKSplit(h, small);
      RevKSplit(c, small);
      DivUnique(c, Pow2(small), 0, c);
      Pow2Double(small);
      BehindCursorStable(h, c, small + 1, large);
    }
  }

  lemma SameBucket(h: nat, c: nat, k: nat)
    requires c < Pow2(k)
    ensures h % Pow2(k) == c <==> RevK(h, k) == RevK(c, k)
  {
    RevKMod(h, k);
    RevKInvolution(c, k);
    RevKInvolution(h % Pow2(k), k);
  }

  /** Before call `n` a hash has been visited once if it lies behind the cursor, else never. */
  lemma {:induction false} VisitedBehindCursor(calls: seq<Call>, h: nat, n: nat)
    requires Underway(calls) && n < |calls|
    ensures CursorAt(calls, n) < Pow2(calls[n].level)
    ensures VisitCount(calls, h, n)
         == if RevK(h, calls[n].level) < RevK(CursorAt(calls, n), calls[n].level) then 1 else 0
  {
    if n == 0 {
      RevKOfZero(calls[0].level);
    } else {
      var k, c := calls[n - 1].level, CursorAt(calls, n - 1);
      VisitedBehindCursor(calls, h, n - 1);
      assert CursorAt(calls, n) == NextK(c, k) != 0;
      StepVisits(h, c, k);
      BehindCursorStable(h, NextK(c, k), k, calls[n].level);
    }
  }

  /** One step of the cursor moves exactly the visited bucket behind it; the step that returns
      to 0 leaves nothing ahead. */
  lemma StepVisits(h: nat, c: nat, k: nat)
    requires c < Pow2(k)
    ensures NextK(c, k) != 0 ==>
              (RevK(h, k) < RevK(NextK(c, k), k) <==> RevK(h, k) < RevK(c, k) || h % Pow2(k) == c)
    ensures NextK(c, k) == 0 ==> RevK(h, k) < RevK(c, k) || h % Pow2(k) == c
    ensures h % Pow2(k) == c ==> !(RevK(h, k) < RevK(c, k))
  {
    SameBucket(h, c, k);
    NextKReversed(c, k);
    RevKZero(NextK(c, k), k);
    SmallMod(RevK(c, k) + 1, Pow2(k));
    hide NextK;
  }

  lemma SmallMod(x: nat, d: nat)
    requires 0 < x <= d
    ensures x % d == if x < d then x else 0
  {
    if x < d {
      DivUnique(x, d, 0, x);
    } else {
      DivUnique(x, d, 1, 0);
    }
  }

  lemma SweepCount(calls: seq<Call>, h: nat)
    requires Underway(calls) && calls != []
    ensures VisitCount(calls, h, |calls|) <= 1
    ensures Sweep(calls) && !calls[|calls| - 1].rehashing ==> VisitCount(calls, h, |calls|) == 1
    ensures calls[|calls| - 1].rehashing && h == CursorAt(calls, |calls| - 1) ==> VisitCount(calls, h, |calls|) == 0
  {
    hide RevK;
    hide NextK;
    var n := |calls| - 1;
    VisitedBehindCursor(calls, h, n);
    StepVisits(h, CursorAt(calls, n), calls[n].level);
  }

  /** A sweep visits every hash exactly once, whatever doublings happen between its calls,
      precisely when none of its calls lands in the middle of a rehash; no sweep visits a hash twice. */
  lemma SweepVisitsEveryHashOnce(calls: seq<Call>)
    requires Sweep(calls)
    ensures (forall h: nat :: VisitCount(calls, h, |calls|) == 1) <==>
              (forall j :: 0 <= j < |calls| ==> !calls[j].rehashing)
    ensures forall h: nat :: VisitCount(calls, h, |calls|) <= 1
  {
    hide VisitCount;
    forall j | 0 <= j < |calls| - 1 ensures !calls[j].rehashing {
      assert CursorAt(calls, j + 1) != 0;
    }
    forall h: nat
      ensures VisitCount(calls, h, |calls|) <= 1
      ensures !calls[|calls| - 1].rehashing ==> VisitCount(calls, h, |calls|) == 1
    {
      SweepCount(calls, h);
    }
    SweepCount(calls, CursorAt(calls, |calls| - 1));
  }

  /** The entries of a bucket, as keys. */
  ghost function BucketKeys<K>(keys: set<K>, hash: K -> nat, size: nat, index: nat): set<K>
    requires size > 0
  {
    set key | key in keys && hash(key) % size == index
  }

  /** Every call takes the cursor at least one place further in scan order. */
  lemma {:induction false} CursorAhead(calls: seq<Call>, n: nat)
    requires Underway(calls) && n < |calls|
    ensures n <= RevK(CursorAt(calls, n), calls[n].level) && CursorAt(calls, n) < Pow2(calls[n].level)
  {
    if n == 0 {
      RevKOfZero(calls[0].level);
    } else {
      var k, c := calls[n - 1].level, CursorAt(calls, n - 1);
      CursorAhead(calls, n - 1);
      assert CursorAt(calls, n) == NextK(c, k) != 0;
      StepAhead(c, k);
      LargerAhead(NextK(c, k), k, calls[n].level);
    }
  }

  lemma StepAhead(c: nat, k: nat)
    requires c < Pow2(k) && NextK(c, k) != 0
    ensures RevK(NextK(c, k), k) == RevK(c, k) + 1
  {
    NextKReversed(c, k);
    RevKZero(NextK(c, k), k);
    SmallMod(RevK(c, k) + 1, Pow2(k));
    hide NextK;
  }

  lemma {:induction false} LargerAhead(c: nat, small: nat, large: nat)
    requires small <= large && c < Pow2(small)
    ensures RevK(c, small) <= RevK(c, large) && c < Pow2(large)
    decreases large - small
  {
    if small < large {
      hide RevK;
      RevKSplit(c, small);
      Pow2Double(small);
      LargerAhead(c, small + 1, large);
    }
  }

  /** A sweep underway has made fewer calls than the table has buckets. */
  lemma SweepEnds(calls: seq<Call>)
    requires Underway(calls) && calls != []
    ensures Sweep(calls) || |calls| < Pow2(calls[|calls| - 1].level)
  {
    var n := |calls| - 1;
    var k, c := calls[n].level, CursorAt(calls, n);
    CursorAhead(calls, n);
    if !Sweep(calls) {
      assert CursorAt(calls, |calls|) == NextK(c, k) != 0;
      StepAhead(c, k);
    }
  }

  /** With `present[j]` the keys stored at call `j`: a key stored throughout the sweep is handed
      to the callback by at most one call, and by one if no call lands in the middle of a rehash. */
  lemma StayingKeyVisitedOnce<K>(calls: seq<Call>, present: seq<set<K>>, hash: K -> nat, key: K)
    requires Underway(calls) && calls != [] && |present| == |calls|
    requires forall j :: 0 <= j < |calls| ==> key in present[j]
    ensures Sweep(calls) && !calls[|calls| - 1].rehashing ==>
              exists j :: 0 <= j < |calls| && Handed(calls, present, hash, key, j)
    ensures forall i, j :: 0 <= i < j < |calls| ==>
              !(Handed(calls, present, hash, key, i) && Handed(calls, present, hash, key, j))
  {
    var h := hash(key);
    SweepCount(calls, h);
    if Sweep(calls) && !calls[|calls| - 1].rehashing {
      var j := VisitIndex(calls, h, |calls|);
      assert Handed(calls, present, hash, key, j);
    }
    forall i, j | 0 <= i < j < |calls| && Handed(calls, present, hash, key, i) && Handed(calls, present, hash, key, j)
      ensures false
    {
      TwoVisits(calls, h, i, j, |calls|);
    }
  }

  ghost predicate Handed<K>(calls: seq<Call>, present: seq<set<K>>, hash: K -> nat, key: K, j: nat)
    requires j < |calls| == |present|
  {
    !calls[j].rehashing && key in BucketKeys(present[j], hash, Pow2(calls[j].level), CursorAt(calls, j))
  }

  lemma {:induction false} VisitIndex(calls: seq<Call>, h: nat, n: nat) returns (j: nat)
    requires n <= |calls| && VisitCount(calls, h, n) > 0
    ensures j < n && Visits(calls, h, j)
  {
    if Visits(calls, h, n - 1) {
      j := n - 1;
    } else {
      j := VisitIndex(calls, h, n - 1);
    }
  }

  lemma {:induction false} TwoVisits(calls: seq<Call>, h: nat, i: nat, j: nat, n: nat)
    requires i < j < n <= |calls| && Visits(calls, h, i) && Visits(calls, h, j)
    ensures VisitCount(calls, h, n) >= 2
  {
    if j < n - 1 {
      TwoVisits(calls, h, i, j, n - 1);
    } else {
      OneVisit(calls, h, i, n - 1);
    }
  }

  lemma {:induction false} OneVisit(calls: seq<Call>, h: nat, i: nat, n: nat)
    requires i < n <= |calls| && Visits(calls, h, i)
    ensures VisitCount(calls, h, n) >= 1
  {
    if i < n - 1 {
      OneVisit(calls, h, i, n - 1);
    }
  }
}
