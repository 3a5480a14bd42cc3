/** Machine-word side of the reverse-binary scan cursor: the bit reversal and the
    successor computed on 64-bit words, and the natural numbers they denote.

    A lemma about one or two word operations is left to the solver's bit-level reasoning;
    the inductive lemmas hide every definition and combine those facts only. */
module Words {
  import opened Arithmetic

  // ---------------------------------------------------------------- word operations

  function Half(v: bv64): bv64 { v >> 1 }
  function Twice(v: bv64): bv64 { v << 1 }
  function TwicePlus(v: bv64): bv64 { (v << 1) | 1 }
  function Succ(v: bv64): bv64 { v + 1 }
  predicate Odd(v: bv64) { v & 1 == 1 }
  predicate Small(v: bv64) { v >> 63 == 0 }

  predicate Bit(v: bv64, i: bv7)
    requires i < 64
  {
    (v >> i) & 1 == 1
  }

  /** The word 1...1 of `k` ones, the mask `(1 << k) - 1`. */
  function Ones(k: bv7): bv64
    requires k < 64
  {
    (1 << k) - 1
  }

  // ---------------------------------------------------------------- bit reversal

  /** Exchanges neighbouring groups of `s` bits; `mask` selects the lower group of each pair. */
  function Exchange(v: bv64, s: bv7, mask: bv64): bv64
    requires s <= 64
  {
    ((v >> s) & mask) | ((v << s) & !mask)
  }

  const M32: bv64 := 0x0000_0000_FFFF_FFFF
  const M16: bv64 := 0x0000_FFFF_0000_FFFF
  const M8: bv64 := 0x00FF_00FF_00FF_00FF
  const M4: bv64 := 0x0F0F_0F0F_0F0F_0F0F
  const M2: bv64 := 0x3333_3333_3333_3333
  const M1: bv64 := 0x5555_5555_5555_5555

  function Rev32(v: bv64): bv64 { Exchange(v, 32, M32) }
  function Rev16(v: bv64): bv64 { Exchange(Rev32(v), 16, M16) }
  function Rev8(v: bv64): bv64 { Exchange(Rev16(v), 8, M8) }
  function Rev4(v: bv64): bv64 { Exchange(Rev8(v), 4, M4) }
  function Rev2(v: bv64): bv64 { Exchange(Rev4(v), 2, M2) }
  function Rev(v: bv64): bv64 { Exchange(Rev2(v), 1, M1) }

  method Reverse(word: bv64) returns (v: bv64)
    ensures v == Rev(word)
  {
    v := word;
    var s: bv7 := 64;
    var mask: bv64 := !0;
    s := s >> 1;
    while s > 0
      invariant s == 32 || s == 16 || s == 8 || s == 4 || s == 2 || s == 1 || s == 0
      invariant s == 32 ==> mask == !0 && v == word
      invariant s == 16 ==> mask == M32 && v == Rev32(word)
      invariant s == 8 ==> mask == M16 && v == Rev16(word)
      invariant s == 4 ==> mask == M8 && v == Rev8(word)
      invariant s == 2 ==> mask == M4 && v == Rev4(word)
      invariant s == 1 ==> mask == M2 && v == Rev2(word)
      invariant s == 0 ==> v == Rev(word)
      decreases s
    {
      mask := mask ^ (mask << s);
      v := Exchange(v, s, mask);
      s := s >> 1;
    }
  }

  // Halving a word moves its reversal up by one place: the recursion behind the proofs below.

  lemma RevHalf(v: bv64)
    ensures Rev(Half(v)) == Twice(Rev(v))
    ensures Odd(v) == !Small(Rev(v))
  {
  }

  lemma BitHalf(v: bv64, i: bv7)
    requires 1 <= i < 64
    ensures Bit(v, i) == Bit(Half(v), i - 1)
    ensures Bit(Twice(v), i) == Bit(v, i - 1)
  {
  }

  lemma BitEnds(v: bv64)
    ensures Bit(v, 0) == Odd(v) && Bit(v, 63) == !Small(v)
  {
  }

  /** The log-step exchange is bit reversal. */
  lemma {:induction false} RevReversesBits(v: bv64, i: bv7)
    requires i < 64
    ensures Bit(Rev(v), 63 - i) == Bit(v, i)
    decreases i
  {
    hide *;
    RevHalf(v);
    if i == 0 {
      BitEnds(v);
      BitEnds(Rev(v));
    } else {
      RevReversesBits(Half(v), i - 1);
      BitHalf(v, i);
      BitHalf(Rev(v), 64 - i);
    }
  }

  lemma RevInvolution(v: bv64)
    ensures Rev(Rev(v)) == v
  {
  }

  // ---------------------------------------------------------------- words as numbers

  /** The number a word denotes. */
  function Val(v: bv64): nat
    decreases v
  {
    if v == 0 then 0 else 2 * Val(Half(v)) + if Odd(v) then 1 else 0
  }

  /** The number a shift amount denotes. */
  function Width(k: bv7): nat
    decreases k
  {
    if k == 0 then 0 else 1 + Width(k - 1)
  }

  /** The number read from the low `k` bits of `x` in reverse order. */
  function RevK(x: nat, k: nat): (r: nat)
    ensures r < Pow2(k)
  {
    if k == 0 then 0 else (x % 2) * Pow2(k - 1) + RevK(x / 2, k - 1)
  }

  lemma TwiceFacts(h: bv64)
    requires Small(h)
    ensures Half(Twice(h)) == h && !Odd(Twice(h))
    ensures Half(TwicePlus(h)) == h && Odd(TwicePlus(h))
  {
  }

  lemma SuccOdd(t: bv64)
    requires Odd(t) && t != !0
    ensures Succ(t) == Twice(Succ(Half(t))) && Small(Succ(Half(t)))
    ensures Half(t) < t && Half(t) != !0
  {
  }

  lemma SuccEven(t: bv64)
    requires !Odd(t)
    ensures Succ(t) == TwicePlus(Half(t)) && Small(Half(t))
  {
  }

  lemma ValHalf(t: bv64)
    ensures Val(t) == 2 * Val(Half(t)) + if Odd(t) then 1 else 0
  {
  }

  lemma ValTwice(h: bv64)
    requires Small(h)
    ensures Val(Twice(h)) == 2 * Val(h)
    ensures Val(TwicePlus(h)) == 2 * Val(h) + 1
  {
    hide *;
    TwiceFacts(h);
    ValHalf(Twice(h));
    ValHalf(TwicePlus(h));
  }

  lemma {:induction false} ValSucc(t: bv64)
    requires t != !0
    ensures Val(Succ(t)) == Val(t) + 1
    decreases t
  {
    hide *;
    ValHalf(t);
    if Odd(t) {
      SuccOdd(t);
      ValSucc(Half(t));
      ValTwice(Succ(Half(t)));
    } else {
      SuccEven(t);
      ValTwice(Half(t));
    }
  }

  lemma OnesHalf(k: bv7)
    requires 1 <= k < 64
    ensures Ones(k) == TwicePlus(Ones(k - 1)) && Small(Ones(k - 1))
  {
  }

  lemma {:induction false} ValOnes(k: bv7)
    requires k < 64
    ensures Val(Ones(k)) + 1 == Pow2(Width(k))
    decreases k
  {
    if k == 0 {
      assert Ones(0) == 0;
    } else {
      hide Val;
      hide Ones;
      hide TwicePlus;
      OnesHalf(k);
      ValTwice(Ones(k - 1));
      ValOnes(k - 1);
    }
  }

  /** The word has no bit at place `k` or above. */
  predicate Fits(v: bv64, k: bv7)
    requires k < 64
  {
    v & !Ones(k) == 0
  }

  lemma FitsHalf(v: bv64, k: bv7)
    requires 1 <= k < 64
    ensures Fits(v, k) == Fits(Half(v), k - 1)
  {
  }

  lemma FitsZero(v: bv64)
    ensures Fits(v, 0) == (v == 0)
    ensures v == 0 <==> !Odd(v) && Half(v) == 0
    ensures v != 0 ==> Half(v) < v
  {
  }

  lemma {:induction false} ValZero(v: bv64)
    ensures Val(v) == 0 <==> v == 0
    decreases v
  {
    if v != 0 {
      hide *;
      FitsZero(v);
      ValHalf(v);
      ValZero(Half(v));
    }
  }

  lemma {:induction false} FitsVal(v: bv64, k: bv7)
    requires k < 64
    ensures Fits(v, k) <==> Val(v) < Pow2(Width(k))
    decreases k
  {
    if k == 0 {
      FitsZero(v);
      ValZero(v);
    } else {
      hide Fits;
      hide Val;
      hide Half;
      hide Odd;
      FitsHalf(v, k);
      FitsVal(Half(v), k - 1);
      ValHalf(v);
    }
  }

  // ---------------------------------------------------------------- the reversed word as a number

  /** The word without its top bit. */
  function LowPart(r: bv64): bv64 { r & 0x7FFF_FFFF_FFFF_FFFF }

  function WithBit(j: bv7, y: bv64): bv64
    requires j < 64
  {
    (1 << j) | y
  }

  lemma WithBitHalf(j: bv7, y: bv64)
    requires 1 <= j < 64
    ensures Half(WithBit(j, y)) == WithBit(j - 1, Half(y))
  {
    assert (((1 as bv64) << j) | y) >> 1 == (((1 as bv64) << j) >> 1) | (y >> 1);
    assert ((1 as bv64) << j) >> 1 == (1 as bv64) << (j - 1);
  }

  lemma WithBitOdd(j: bv7, y: bv64)
    requires 1 <= j < 64
    ensures Odd(WithBit(j, y)) == Odd(y)
  {
  }

  lemma {:induction false} ValWithBit(j: bv7, y: bv64)
    requires j < 64 && Fits(y, j)
    ensures Val(WithBit(j, y)) == Pow2(Width(j)) + Val(y)
    decreases j
  {
    if j == 0 {
      FitsZero(y);
      assert WithBit(0, 0) == 1;
      ValHalf(1);
      assert Half(1) == 0 && Odd(1);
    } else {
      hide Val;
      hide Half;
      hide Odd;
      hide Fits;
      hide WithBit;
      WithBitHalf(j, y);
      WithBitOdd(j, y);
      ValHalf(y);
      ValHalf(WithBit(j, y));
      FitsHalf(y, j);
      ValWithBit(j - 1, Half(y));
    }
  }

  lemma SplitTop(r: bv64)
    requires !Small(r)
    ensures r == WithBit(63, LowPart(r))
    ensures Small(LowPart(r)) && Fits(LowPart(r), 63)
    ensures Twice(r) == Twice(LowPart(r))
  {
  }

  lemma ValTwiceLarge(r: bv64)
    requires !Small(r)
    ensures 2 * Val(r) == Val(Twice(r)) + 2 * Pow2(Width(63))
  {
    hide *;
    SplitTop(r);
    ValWithBit(63, LowPart(r));
    ValTwice(LowPart(r));
  }

  lemma RevZero()
    ensures Rev(0) == 0
  {
  }

  lemma RevKUnfold(x: nat, k: bv7)
    ensures k == 0 ==> RevK(x, Width(k)) == 0
    ensures k != 0 ==> RevK(x, Width(k)) == (x % 2) * Pow2(Width(k - 1)) + RevK(x / 2, Width(k - 1))
  {
  }

  lemma {:induction false} WidthComplement(k: bv7)
    requires k <= 64
    ensures Width(k) + Width(64 - k) == Width(64)
    decreases k
  {
    hide *;
    if k != 0 {
      WidthComplement(k - 1);
      WidthUnfold(k);
      WidthUnfold(65 - k);
    } else {
      WidthUnfold(0);
    }
  }

  lemma WidthUnfold(k: bv7)
    ensures k == 0 ==> Width(k) == 0
    ensures k != 0 ==> Width(k) == 1 + Width(k - 1)
  {
  }

  /** For a word below 2^k, the reversed word is the k-bit reversal moved to the top. */
  lemma {:induction false} ValRev(v: bv64, k: bv7)
    requires k < 64 && Fits(v, k)
    ensures Val(Rev(v)) == RevK(Val(v), Width(k)) * Pow2(Width(64 - k))
    decreases k
  {
    hide *;
    RevKUnfold(Val(v), k);
    if k == 0 {
      FitsZero(v);
      RevZero();
      ValZero(0);
    } else {
      FitsHalf(v, k);
      RevHalf(v);
      ValHalf(v);
      ValRev(Half(v), k - 1);
      ValRevStep(v, k);
    }
  }

  lemma ValRevStep(v: bv64, k: bv7)
    requires 1 <= k < 64
    requires Val(Rev(Half(v))) == RevK(Val(Half(v)), Width(k - 1)) * Pow2(Width(65 - k))
    ensures Val(Rev(v)) == ((if Odd(v) then 1 else 0) * Pow2(Width(k - 1))
              + RevK(Val(Half(v)), Width(k - 1))) * Pow2(Width(64 - k))
  {
    hide *;
    RevHalf(v);
    PowerStep(k);
    if Small(Rev(v)) {
      ValTwice(Rev(v));
      Distribute(0, Pow2(Width(k - 1)), RevK(Val(Half(v)), Width(k - 1)), Pow2(Width(64 - k)));
    } else {
      ValTwiceLarge(Rev(v));
      TopPower(k);
      Distribute(1, Pow2(Width(k - 1)), RevK(Val(Half(v)), Width(k - 1)), Pow2(Width(64 - k)));
    }
  }

  lemma PowerStep(k: bv7)
    requires 1 <= k < 64
    ensures Pow2(Width(65 - k)) == 2 * Pow2(Width(64 - k))
  {
    hide *;
    WidthUnfold(65 - k);
    assert 65 - k - 1 == 64 - k;
    Pow2Double(Width(64 - k));
  }

  lemma Distribute(b: nat, h: nat, q: nat, p: nat)
    ensures (b * h + q) * p == b * (h * p) + q * p
    ensures q * (2 * p) == 2 * (q * p)
  {
    assert b * h * p == b * (h * p);
  }

  lemma TopPower(k: bv7)
    requires 1 <= k < 64
    ensures Pow2(Width(k - 1)) * Pow2(Width(64 - k)) == Pow2(Width(63))
  {
    hide *;
    WidthComplement(k);
    WidthUnfold(k);
    WidthUnfold(64);
    Pow2Add(Width(k - 1), Width(64 - k));
  }

  // ---------------------------------------------------------------- the scan cursor's successor

  function And(a: bv64, b: bv64): bv64 { a & b }
  function Or(a: bv64, b: bv64): bv64 { a | b }

  lemma RevWordOr(a: bv64, b: bv64)
    ensures Rev(a | b) == Rev(a) | Rev(b)
  {
  }

  lemma RevWordAnd(a: bv64, b: bv64)
    ensures Rev(a & b) == Rev(a) & Rev(b)
  {
  }

  lemma RevOr(a: bv64, b: bv64)
    ensures Rev(Or(a, b)) == Or(Rev(a), Rev(b))
  {
    RevWordOr(a, b);
    hide Rev;
  }

  lemma RevAnd(a: bv64, b: bv64)
    ensures Rev(And(a, b)) == And(Rev(a), Rev(b))
  {
    RevWordAnd(a, b);
    hide Rev;
  }

  lemma RevMask(k: bv7)
    requires 1 <= k <= 31
    ensures Rev(!Ones(k)) == Ones(64 - k)
  {
  }

  /** What `NextIndex` computes on a table of 2^k buckets. */
  function NextWord(index: bv64, k: bv7): bv64
    requires k < 64
  {
    Rev(Succ(Rev(index | !Ones(k))))
  }

  function PowerWord(k: bv7): bv64
    requires k < 64
  {
    1 << k
  }

  method NextIndex(index: bv64, size: bv64, ghost k: bv7) returns (next: bv64)
    requires 1 <= k <= 31 && size == PowerWord(k)
    ensures next == NextWord(index, k)
  {
    hide *;
    var i: bv7 := 31;
    while !Bit(size, i)
      invariant k <= i <= 31
      decreases i
    {
      PowerWordBit(k, i);
      i := i - 1;
    }
    PowerWordBit(k, i);
    var mask := Ones(i);
    next := Reverse(Or(index, !mask));
    next := Reverse(Succ(next));
    NextWordUnfold(index, k);
  }

  lemma PowerWordBit(k: bv7, i: bv7)
    requires k <= i <= 31
    ensures Bit(PowerWord(k), i) <==> i == k
  {
  }

  function OrOnes(x: bv64, b: bv7): bv64
    requires b < 64
  {
    x | Ones(b)
  }

  predicate LowClear(x: bv64, b: bv7)
    requires b < 64
  {
    x & Ones(b) == 0
  }

  lemma OrOnesHalf(x: bv64, b: bv7)
    requires 1 <= b < 64 && LowClear(x, b)
    ensures Half(OrOnes(x, b)) == OrOnes(Half(x), b - 1) && Odd(OrOnes(x, b)) && !Odd(x)
    ensures LowClear(Half(x), b - 1)
  {
  }

  lemma OrOnesNone(x: bv64)
    ensures OrOnes(x, 0) == x
  {
  }

  lemma {:induction false} ValOrOnes(x: bv64, b: bv7)
    requires b < 64 && LowClear(x, b)
    ensures Val(OrOnes(x, b)) + 1 == Val(x) + Pow2(Width(b))
    decreases b
  {
    hide *;
    WidthUnfold(b);
    if b == 0 {
      OrOnesNone(x);
      Pow2Zero();
    } else {
      OrOnesHalf(x, b);
      ValHalf(x);
      ValHalf(OrOnes(x, b));
      ValOrOnes(Half(x), b - 1);
      Pow2Double(Width(b - 1));
    }
  }

  lemma Pow2Zero()
    ensures Pow2(0) == 1
  {
  }

  lemma CarryOut(x: bv64, k: bv7)
    requires 1 <= k <= 31 && LowClear(x, 64 - k)
    ensures LowClear(Succ(OrOnes(x, 64 - k)), 64 - k)
  {
  }

  lemma CursorFacts(index: bv64, k: bv7)
    requires 1 <= k <= 31 && Fits(index, k)
    ensures Rev(Or(index, !Ones(k))) == OrOnes(Rev(index), 64 - k)
    ensures LowClear(Rev(index), 64 - k)
  {
    hide *;
    RevOr(index, !Ones(k));
    RevMask(k);
    OrOnesMask(Rev(index), k);
    FitsMask(index, k);
    RevAnd(index, !Ones(k));
    RevZero();
    ClearLow(Rev(index), k);
  }

  lemma OrOnesMask(x: bv64, k: bv7)
    requires 1 <= k <= 31
    ensures OrOnes(x, 64 - k) == Or(x, Ones(64 - k))
  {
  }

  lemma FitsRev(y: bv64, k: bv7)
    requires 1 <= k <= 31 && LowClear(y, 64 - k)
    ensures Fits(Rev(y), k)
  {
    hide *;
    ClearLow(y, k);
    RevInvolution(y);
    RevMask(k);
    RevAnd(Rev(y), !Ones(k));
    RevInvolution(And(Rev(y), !Ones(k)));
    RevZero();
    FitsMask(Rev(y), k);
  }

  lemma ClearLow(y: bv64, k: bv7)
    requires 1 <= k <= 31
    ensures LowClear(y, 64 - k) <==> And(y, Ones(64 - k)) == 0
  {
  }

  lemma FitsMask(v: bv64, k: bv7)
    requires k < 64
    ensures Fits(v, k) <==> And(v, !Ones(k)) == 0
  {
  }

  lemma SuccWrap()
    ensures Succ(!0) == 0 && Val(!0) + 1 == Pow2(Width(64))
  {
    hide *;
    AllOnes();
    ValOnes(63);
    ValTwice(Ones(63));
    WidthUnfold(64);
    Pow2Double(Width(63));
  }

  lemma AllOnes()
    ensures Succ(!0) == 0 && !0 == TwicePlus(Ones(63)) && Small(Ones(63))
  {
  }

  /** On a table of 2^k buckets `NextIndex` adds one to the k-bit reversal of the index,
      modulo 2^k, and stays inside the table. */
  lemma NextWordIsReverseIncrement(index: bv64, k: bv7)
    requires 1 <= k <= 31 && Val(index) < Pow2(Width(k))
    ensures Val(NextWord(index, k)) < Pow2(Width(k))
    ensures RevK(Val(NextWord(index, k)), Width(k)) == (RevK(Val(index), Width(k)) + 1) % Pow2(Width(k))
  {
    hide *;
    FitsVal(index, k);
    CursorFacts(index, k);
    var x := Rev(index);
    var y := Succ(OrOnes(x, 64 - k));
    assert NextWord(index, k) == Rev(y) by { NextWordUnfold(index, k); }
    CarryOut(x, k);
    FitsRev(y, k);
    FitsVal(Rev(y), k);
    ValRev(index, k);
    ValRev(Rev(y), k);
    RevInvolution(y);
    ValOrOnes(x, 64 - k);
    WidthComplement(k);
    Pow2Add(Width(k), Width(64 - k));
    RevKBound(Val(Rev(y)), Width(k));
    if OrOnes(x, 64 - k) == !0 {
      SuccWrap();
      ValZero(0);
    } else {
      ValSucc(OrOnes(x, 64 - k));
    }
    CarryArithmetic(
      RevK(Val(index), Width(k)), RevK(Val(Rev(y)), Width(k)), Pow2(Width(64 - k)), Pow2(Width(k)), OrOnes(x, 64 - k) ==
          !0);
  }

  /** `n` and `m` are the reversed cursor before and after, in units of `p`. */
  lemma CarryArithmetic(n: nat, m: nat, p: nat, q: nat, wraps: bool)
    requires p > 0 && m < q
    requires if wraps then n * p + p == q * p && m * p == 0 else m * p == n * p + p
    ensures m == (n + 1) % q
  {
    MulNext(n, p);
    if wraps {
      CancelScale(n + 1, q, p);
      CancelScale(m, 0, p);
      SelfRemainder(q);
    } else {
      CancelScale(n + 1, m, p);
      DivUnique(m, q, 0, m);
    }
  }

  lemma SelfRemainder(q: nat)
    requires q > 0
    ensures q % q == 0
  {
    DivUnique(q, q, 1, 0);
  }

  lemma NextWordUnfold(index: bv64, k: bv7)
    requires k < 64
    ensures NextWord(index, k) == Rev(Succ(Rev(Or(index, !Ones(k)))))
  {
  }

  lemma RevKBound(x: nat, k: nat)
    ensures RevK(x, k) < Pow2(k)
  {
  }

  // ---------------------------------------------------------------- table sizes as words

  /** The word of a bucket count. */
  function WordOf(n: nat): bv64 {
    if n == 0 then 0 else if n % 2 == 0 then Twice(WordOf(n / 2)) else TwicePlus(WordOf(n / 2))
  }

  lemma PowerWordTwice(k: bv7)
    requires 1 <= k < 64
    ensures PowerWord(k) == Twice(PowerWord(k - 1))
  {
  }

  lemma {:induction false} WordOfPower(k: bv7)
    requires k < 64
    ensures WordOf(Pow2(Width(k))) == PowerWord(k)
    decreases k
  {
    if k == 0 {
      assert Width(0) == 0 && Pow2(0) == 1 && WordOf(0) == 0;
    } else {
      hide PowerWord;
      hide Twice;
      hide TwicePlus;
      WordOfPower(k - 1);
      PowerWordTwice(k);
    }
  }

  /** The shift amount of a table level. */
  lemma {:induction false} ShiftOf(level: nat) returns (k: bv7)
    requires level <= 31
    ensures k <= 31 && Width(k) == level
  {
    if level == 0 {
      k := 0;
    } else {
      var j := ShiftOf(level - 1);
      WidthSmall();
      assert j != 31;
      k := j + 1;
    }
  }

  lemma WidthSmall()
    ensures Width(31) == 31
  {
    assert Width(8) == 8;
    assert Width(16) == 16;
    assert Width(24) == 24;
  }
}
