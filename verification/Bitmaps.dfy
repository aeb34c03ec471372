/**
 The allocator's 32-bit bin maps and the bit tricks that search them.
 A map bit is a one-hot word; shifts by a bin index are made one position at a time.
 Word operations are named so that proofs can hide them.
 */
module Bitmaps {

  function And(a: bv32, b: bv32): bv32 { a & b }

  function Or(a: bv32, b: bv32): bv32 { a | b }

  function Not(a: bv32): bv32 { !a }

  function Twice(a: bv32): bv32 { a << 1 }

  function Half(a: bv32): bv32 { a >> 1 }

  predicate Meets(a: bv32, b: bv32) { a & b != 0 }

  predicate Below(a: bv32, b: bv32) { a < b }

  predicate OneHot(b: bv32) { b != 0 && b & (b - 1) == 0 }

  /** Isolates the least set bit. */
  function LeastBit(x: bv32): bv32 { x & -x }

  /** All bits above the least set bit of x. */
  function LeftBits(x: bv32): bv32 { (x << 1) | -(x << 1) }

  function Shl(m: bv32, i: nat): bv32 {
    if i == 0 then m else Twice(Shl(m, i - 1))
  }

  function Shr(m: bv32, i: nat): bv32 {
    if i == 0 then m else Half(Shr(m, i - 1))
  }

  function Idx2Bit(i: nat): bv32 { Shl(1, i) }

  /** Bin i is marked. */
  predicate Bit(m: bv32, i: nat) { Meets(m, Idx2Bit(i)) }

  /** The marked bins. */
  ghost function Bins(m: bv32): set<nat> {
    set i: nat | i < 32 && Bit(m, i)
  }

  const TOP: bv32 := 0x8000_0000

  // ---------- facts about words ----------

  lemma OneHotOr(m: bv32, a: bv32, b: bv32)
    requires OneHot(a) && OneHot(b)
    ensures Meets(Or(m, a), b) <==> Meets(m, b) || a == b
    ensures Meets(And(m, Not(a)), b) <==> Meets(m, b) && a != b
  {
    RawOr(m, a, b);
  }

  lemma RawOr(m: bv32, a: bv32, b: bv32)
    requires a != 0 && a & (a - 1) == 0 && b != 0 && b & (b - 1) == 0
    ensures (m | a) & b != 0 <==> m & b != 0 || a == b
    ensures (m & !a) & b != 0 <==> m & b != 0 && a != b
  {
    RawSame(a, b);
    assert (m | a) & b == (m & b) | (a & b);
    if a == b {
      assert (m & !a) & a == 0;
    } else {
      RawOutside(m, a, b);
    }
  }

  lemma RawSame(a: bv32, b: bv32)
    requires a != 0 && a & (a - 1) == 0 && b != 0 && b & (b - 1) == 0
    ensures a & b != 0 <==> a == b
  {
  }

  lemma RawOutside(m: bv32, a: bv32, b: bv32)
    requires a & b == 0
    ensures (m & !a) & b == m & b
  {
  }

  lemma OneHotLeft(m: bv32, a: bv32, b: bv32)
    requires OneHot(a) && OneHot(b)
    ensures Meets(And(LeftBits(a), m), b) <==> Below(a, b) && Meets(m, b)
  {
    hide LeftBits, And, Meets, Below, OneHot;
    LeftMeets(a, b);
    BothMeet(LeftBits(a), m, b);
  }

  lemma LeftMeets(a: bv32, b: bv32)
    requires OneHot(a) && OneHot(b)
    ensures Meets(LeftBits(a), b) <==> Below(a, b)
  {
    RawLeft(a, b);
  }

  lemma BothMeet(l: bv32, m: bv32, b: bv32)
    requires OneHot(b)
    ensures Meets(And(l, m), b) <==> Meets(l, b) && Meets(m, b)
  {
    RawBoth(l, m, b);
  }

  lemma RawLeft(a: bv32, b: bv32)
    requires a != 0 && a & (a - 1) == 0 && b != 0 && b & (b - 1) == 0
    ensures ((a << 1) | -(a << 1)) & b != 0 <==> a < b
  {
  }

  lemma RawBoth(l: bv32, m: bv32, b: bv32)
    requires b != 0 && b & (b - 1) == 0
    ensures (l & m) & b != 0 <==> l & b != 0 && m & b != 0
  {
  }

  lemma OneHotLeast(x: bv32, b: bv32)
    requires x != 0 && OneHot(b)
    ensures OneHot(LeastBit(x)) && Meets(x, LeastBit(x))
    ensures Meets(x, b) ==> !Below(b, LeastBit(x))
  {
    RawLeast(x, b);
    var l := x & -x;
    assert l == LeastBit(x);
    hide LeastBit;
  }

  lemma RawLeast(x: bv32, b: bv32)
    requires x != 0 && b != 0 && b & (b - 1) == 0
    ensures x & -x != 0 && (x & -x) & ((x & -x) - 1) == 0 && x & (x & -x) != 0
    ensures x & b != 0 ==> !(b < x & -x)
  {
  }

  lemma OneHotTwice(m: bv32, a: bv32)
    requires OneHot(a)
    ensures if a == TOP then Twice(a) == 0 && !Meets(Half(m), a)
            else Below(a, TOP) && OneHot(Twice(a)) && Below(a, Twice(a)) && (Meets(Half(m), a) <==> Meets(m, Twice(a)))
    ensures !Below(a, TOP) ==> a == TOP
  {
  }

  lemma OneHotHalf(m: bv32, a: bv32)
    requires OneHot(a)
    ensures if a == 1 then !Meets(Twice(m), a)
            else OneHot(Half(a)) && Twice(Half(a)) == a && Half(a) < a && (Meets(Twice(m), a) <==> Meets(m, Half(a)))
  {
  }

  lemma Order(a: bv32, b: bv32, c: bv32)
    ensures Below(a, b) && Below(b, c) ==> Below(a, c)
    ensures Below(a, b) ==> a != b && !Below(b, a)
  {
  }

  lemma Zeros()
    ensures Twice(0) == 0 && OneHot(1) && OneHot(TOP) && Below(1, TOP)
    ensures forall b: bv32 :: !Meets(0, b)
  {
  }

  function Byte(x: bv32): bv32 { x << 8 }

  lemma EightTwices(x: bv32)
    ensures Twice(Twice(Twice(Twice(Twice(Twice(Twice(Twice(x)))))))) == Byte(x)
  {
  }

  lemma TopFrom24(x: bv32)
    requires x == 0x100_0000
    ensures Twice(Twice(Twice(Twice(Twice(Twice(Twice(x))))))) == TOP
  {
  }

  // ---------- indices ----------

  lemma ShlEight(m: bv32, i: nat)
    ensures Shl(m, i + 8) == Byte(Shl(m, i))
  {
    hide Twice, Byte;
    assert Shl(m, i + 2) == Twice(Twice(Shl(m, i)));
    assert Shl(m, i + 4) == Twice(Twice(Shl(m, i + 2)));
    assert Shl(m, i + 6) == Twice(Twice(Shl(m, i + 4)));
    assert Shl(m, i + 8) == Twice(Twice(Shl(m, i + 6)));
    EightTwices(Shl(m, i));
  }

  lemma TopIndex()
    ensures Idx2Bit(31) == TOP
  {
    ShlEight(1, 0);
    ShlEight(1, 8);
    ShlEight(1, 16);
    TopFrom24(Shl(1, 24));
    TopSteps();
  }

  lemma TopSteps()
    ensures Idx2Bit(31) == Twice(Twice(Twice(Twice(Twice(Twice(Twice(Idx2Bit(24))))))))
  {
    hide Twice;
    assert Shl(1, 26) == Twice(Twice(Shl(1, 24)));
    assert Shl(1, 28) == Twice(Twice(Shl(1, 26)));
    assert Shl(1, 30) == Twice(Twice(Shl(1, 28)));
  }

  lemma {:induction false} ZeroStays(i: nat, k: nat)
    requires Shl(1, i) == 0 && i <= k
    ensures Shl(1, k) == 0
    decreases k
  {
    hide Twice;
    Zeros();
    if i < k { ZeroStays(i, k - 1); }
  }

  lemma {:induction false} IndexBit(i: nat)
    requires i < 32
    ensures OneHot(Idx2Bit(i))
    ensures Idx2Bit(i) == TOP <==> i == 31
    decreases i
  {
    hide Twice, OneHot, Below, Meets, Half;
    Zeros();
    TopIndex();
    if i > 0 {
      IndexBit(i - 1);
      OneHotTwice(0, Idx2Bit(i - 1));
    }
    if i < 31 && Idx2Bit(i) == TOP {
      OneHotTwice(0, Idx2Bit(i));
      ZeroStays(i + 1, 31);
      Order(1, TOP, 0);
    }
  }

  lemma {:induction false} IndexLess(i: nat, j: nat)
    requires i < j < 32
    ensures Below(Idx2Bit(i), Idx2Bit(j))
    decreases j
  {
    hide Twice, OneHot, Below, Meets, Half;
    IndexBit(j - 1);
    OneHotTwice(0, Idx2Bit(j - 1));
    if i < j - 1 {
      IndexLess(i, j - 1);
      Order(Idx2Bit(i), Idx2Bit(j - 1), Idx2Bit(j));
    }
  }

  lemma IndexOrder(i: nat, j: nat)
    requires i < 32 && j < 32
    ensures i < j <==> Below(Idx2Bit(i), Idx2Bit(j))
    ensures Idx2Bit(i) == Idx2Bit(j) <==> i == j
  {
    hide Below, Shl;
    if i < j {
      IndexLess(i, j);
    } else if j < i {
      IndexLess(j, i);
    }
    Order(Idx2Bit(i), Idx2Bit(j), Idx2Bit(j));
    Order(Idx2Bit(j), Idx2Bit(i), Idx2Bit(i));
  }

  // ---------- map operations ----------

  /** Marks bin i. */
  function Mark(m: bv32, i: nat): (m': bv32)
    requires i < 32
    ensures Bins(m') == Bins(m) + {i}
  {
    hide OneHot, Meets, Or, And, Not, Shl;
    assert forall j: nat :: j < 32 ==> (Bit(Or(m, Idx2Bit(i)), j) <==> Bit(m, j) || i == j) by {
      forall j: nat | j < 32
        ensures Bit(Or(m, Idx2Bit(i)), j) <==> Bit(m, j) || i == j
      {
        MarkedBit(m, i, j);
      }
    }
    Or(m, Idx2Bit(i))
  }

  /** Clears bin i. */
  function Clear(m: bv32, i: nat): (m': bv32)
    requires i < 32
    ensures Bins(m') == Bins(m) - {i}
  {
    hide OneHot, Meets, Or, And, Not, Shl;
    assert forall j: nat :: j < 32 ==> (Bit(And(m, Not(Idx2Bit(i))), j) <==> Bit(m, j) && i != j) by {
      forall j: nat | j < 32
        ensures Bit(And(m, Not(Idx2Bit(i))), j) <==> Bit(m, j) && i != j
      {
        MarkedBit(m, i, j);
      }
    }
    And(m, Not(Idx2Bit(i)))
  }

  lemma MarkedBit(m: bv32, i: nat, j: nat)
    requires i < 32 && j < 32
    ensures Bit(Or(m, Idx2Bit(i)), j) <==> Bit(m, j) || i == j
    ensures Bit(And(m, Not(Idx2Bit(i))), j) <==> Bit(m, j) && i != j
  {
    hide OneHot, Meets, Or, And, Not, Shl;
    IndexBit(i);
    IndexBit(j);
    IndexOrder(i, j);
    OneHotOr(m, Idx2Bit(i), Idx2Bit(j));
  }

  /** The part of the map to the left of bin idx: exactly the marked bins above idx. */
  function LeftBins(m: bv32, idx: nat): (l: bv32)
    requires idx < 32
    ensures Bins(l) == set j | j in Bins(m) && idx < j
  {
    hide OneHot, Meets, And, LeftBits, Below, Shl;
    assert forall j: nat :: j < 32 ==> (Bit(And(LeftBits(Idx2Bit(idx)), m), j) <==> idx < j && Bit(m, j)) by {
      forall j: nat | j < 32
        ensures Bit(And(LeftBits(Idx2Bit(idx)), m), j) <==> idx < j && Bit(m, j)
      {
        IndexBit(idx);
        IndexBit(j);
        IndexOrder(idx, j);
        OneHotLeft(m, Idx2Bit(idx), Idx2Bit(j));
      }
    }
    And(LeftBits(Idx2Bit(idx)), m)
  }

  /** The index of a one-hot word (its count of trailing zeros). */
  function Bit2Idx(b: bv32): (i: nat)
    requires OneHot(b)
    ensures i < 32 && Idx2Bit(i) == b
    decreases b
  {
    hide OneHot, Half, Twice, Meets;
    if b == 1 then 0
    else
      OneHotHalf(0, b);
      var i := Bit2Idx(Half(b));
      IndexBit(i);
      OneHotTwice(0, Half(b));
      ZeroNotHot();
      i + 1
  }

  lemma ZeroNotHot()
    ensures !OneHot(0)
  {
  }

  /** The lowest marked bin, found through the least set bit. */
  function LowestBin(m: bv32): (i: nat)
    requires m != 0
    ensures i < 32 && i in Bins(m) && forall j :: j in Bins(m) ==> i <= j
  {
    hide OneHot, LeastBit, Meets, Below, Shl;
    Zeros();
    OneHotLeast(m, 1);
    var i := Bit2Idx(LeastBit(m));
    assert forall j :: j in Bins(m) ==> i <= j by {
      forall j | j in Bins(m)
        ensures i <= j
      {
        IndexBit(j);
        OneHotLeast(m, Idx2Bit(j));
        IndexOrder(j, i);
      }
    }
    i
  }

  lemma EmptyMap(m: bv32)
    ensures m == 0 <==> Bins(m) == {}
  {
    hide OneHot, LeastBit, Meets, Below, Shl;
    Zeros();
    if m != 0 {
      OneHotLeast(m, 1);
      assert Bit2Idx(LeastBit(m)) in Bins(m);
    }
  }

  /** Shifting a map right by i moves bin i + j to position j. */
  lemma {:induction false} ShiftedRight(m: bv32, i: nat, j: nat)
    requires j < 32
    ensures Bit(Shr(m, i), j) <==> i + j < 32 && Bit(m, i + j)
    decreases i
  {
    hide OneHot, Half, Twice, Meets, Below;
    IndexBit(j);
    if i > 0 {
      OneHotTwice(Shr(m, i - 1), Idx2Bit(j));
      if j < 31 {
        ShiftedRight(m, i - 1, j + 1);
      }
    }
  }

  /** Shifting a map left by i moves bin j to position i + j. */
  lemma {:induction false} ShiftedLeft(m: bv32, i: nat, j: nat)
    requires j < 32
    ensures Bit(Shl(m, i), j) <==> i <= j && Bit(m, j - i)
    decreases i
  {
    hide OneHot, Half, Twice, Meets, Below;
    IndexBit(j);
    if i > 0 {
      OneHotHalf(Shl(m, i - 1), Idx2Bit(j));
      if j > 0 {
        ShiftedLeft(m, i - 1, j - 1);
        IndexBit(j - 1);
        OneHotTwice(m, Idx2Bit(j - 1));
        OneHotOnce(Idx2Bit(j - 1), Idx2Bit(j));
      }
    }
  }

  lemma OneHotOnce(a: bv32, b: bv32)
    requires OneHot(a) && OneHot(b) && Twice(a) == b
    ensures b != 1 && Half(b) == a
  {
    hide Meets;
    RawOnce(a);
  }

  lemma RawOnce(a: bv32)
    ensures a << 1 != 1
    ensures a != 0 && a & (a - 1) == 0 && a << 1 != 0 ==> (a << 1) >> 1 == a
  {
  }

  /** The test of the two lowest positions, and the complement of the lowest one. */
  function LowTwo(x: bv32): bv32 { x & 3 }

  function LowestClear(x: bv32): nat { (!x & 1) as nat }

  lemma LowPositions(x: bv32)
    ensures LowTwo(x) != 0 <==> 0 in Bins(x) || 1 in Bins(x)
    ensures LowestClear(x) == if 0 in Bins(x) then 0 else 1
  {
    RawLow(x);
    assert Idx2Bit(1) == Twice(Idx2Bit(0)) == 2;
  }

  lemma RawLow(x: bv32)
    ensures x & 3 != 0 <==> x & 1 != 0 || x & 2 != 0
    ensures !x & 1 == if x & 1 != 0 then 0 else 1
  {
  }

  lemma InBins(m: bv32, i: nat)
    requires i < 32
    ensures i in Bins(m) <==> Bit(m, i)
  {
  }

  /** What the search for the next marked bin above idx finds. */
  lemma NextMarked(m: bv32, idx: nat)
    requires idx < 32
    ensures LeftBins(m, idx) == 0 <==> forall j :: idx < j < 32 ==> j !in Bins(m)
    ensures LeftBins(m, idx) != 0 ==>
              var i := LowestBin(LeftBins(m, idx));
                idx < i < 32 && i in Bins(m) && forall j :: idx < j < i ==> j !in Bins(m)
  {
    hide LeftBins, LowestBin, Bit;
    var l := LeftBins(m, idx);
    EmptyMap(l);
    assert forall j :: j in Bins(l) <==> j in Bins(m) && idx < j;
    if l == 0 {
      forall j | idx < j < 32
        ensures j !in Bins(m)
      {
        assert j !in Bins(l);
      }
    } else {
      assert LowestBin(l) in Bins(l);
    }
  }

  /** The shifted map, and the map shifted back. */
  lemma ShiftedBins(m: bv32, idx: nat)
    requires idx < 32
    ensures forall j: nat :: j in Bins(Shr(m, idx)) <==> j < 32 && idx + j in Bins(m)
    ensures forall j: nat :: j in Bins(Shl(Shr(m, idx), idx)) <==> j in Bins(m) && idx <= j
  {
    hide Bit, Shr, Shl;
    var r := Shr(m, idx);
    forall j: nat
      ensures j in Bins(r) <==> j < 32 && idx + j in Bins(m)
      ensures j in Bins(Shl(r, idx)) <==> j in Bins(m) && idx <= j
    {
      if j < 32 {
        ShiftedRight(m, idx, j);
        ShiftedLeft(r, idx, j);
        if idx <= j { ShiftedRight(m, idx, j - idx); }
      }
    }
  }

  /** What the shifted map tells about the bins from idx upwards. */
  lemma FromIndex(m: bv32, idx: nat)
    requires idx < 32
    ensures forall j: nat :: j in Bins(Shl(Shr(m, idx), idx)) <==> j in Bins(m) && idx <= j
    ensures LowTwo(Shr(m, idx)) != 0 <==> idx in Bins(m) || idx + 1 in Bins(m)
    ensures LowestClear(Shr(m, idx)) == if idx in Bins(m) then 0 else 1
    ensures Shr(m, idx) == 0 <==> forall j :: idx <= j < 32 ==> j !in Bins(m)
    ensures forall j: nat :: j in Bins(m) ==> j < 32
  {
    hide Bit, LowTwo, LowestClear, Shr, Shl, Idx2Bit;
    var r := Shr(m, idx);
    ShiftedBins(m, idx);
    LowPositions(r);
    EmptyFrom(m, idx);
  }

  lemma EmptyFrom(m: bv32, idx: nat)
    requires idx < 32
    ensures Shr(m, idx) == 0 <==> forall j :: idx <= j < 32 ==> j !in Bins(m)
  {
    hide Bit, Shr, Shl;
    var r := Shr(m, idx);
    EmptyMap(r);
    if r == 0 {
      forall j | idx <= j < 32
        ensures j !in Bins(m)
      {
        ShiftedRight(m, idx, j - idx);
        assert j - idx !in Bins(r);
      }
    } else if k: nat :| k in Bins(r) {
      ShiftedRight(m, idx, k);
      assert idx + k in Bins(m);
    }
  }
}
