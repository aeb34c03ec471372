/**
 The sizing arithmetic of the large bins: which bin a chunk size belongs to, and which range
 of sizes a bin, and each subtree of its trie, is for.
 */
module TreeIndex {
  import opened Powers
  import opened ChunkSizes

  const NTREEBINS := 32

  /** The bin computed for a chunk of size s; the intermediate value is a 32-bit word. */
  function TreeIndexOf(s: nat): (i: nat)
  {
    var x := (s / 256) % 0x1_0000_0000;
    if x == 0 then 0
    else if x > 0xFFFF then NTREEBINS - 1
    else
      var k := Log2(x);
      2 * k + (s / Pow2(k + 7)) % 2
  }

  /** The smallest size held in bin i. */
  function MinSize(i: nat): nat {
    Pow2(i / 2 + 8) + (i % 2) * Pow2(i / 2 + 7)
  }

  /** The bins start at 256 and 384 bytes, and every second one at twice the size. */
  lemma MinSizes(i: nat)
    ensures MinSize(0) == 256 && MinSize(1) == 384 && MinSize(i + 2) == 2 * MinSize(i)
  {
    Pow2Values();
    assert (i + 2) / 2 == i / 2 + 1;
    assert (i + 2) % 2 == i % 2;
  }

  /** The shift that brings the first deciding bit of a size to the top of a word. */
  function LeftShift(i: nat): nat
    requires i < NTREEBINS
  {
    if i == NTREEBINS - 1 then 0 else 63 - (i / 2 + 6)
  }

  /** Size s is in the range of bin i. */
  predicate InBin(s: nat, i: nat) {
    MinSize(i) <= s && (i < NTREEBINS - 1 ==> s < MinSize(i + 1))
  }

  lemma MinSizeStep(i: nat)
    ensures MinSize(i + 1) == MinSize(i) + Pow2(i / 2 + 7)
  {
    if i % 2 == 0 {
      assert i + 1 == 2 * (i / 2) + 1;
    } else {
      assert (i + 1) / 2 == i / 2 + 1;
    }
  }

  lemma {:induction false} MinSizeMonotone(i: nat, j: nat)
    requires i < j
    ensures MinSize(i + 1) <= MinSize(j)
    decreases j
  {
    if i + 1 < j {
      MinSizeMonotone(i, j - 1);
      MinSizeStep(j - 1);
    }
  }

  /** The index of a size whose 32-bit intermediate value is its true quotient. */
  lemma BelowLastBin(s: nat)
    requires MIN_LARGE_SIZE <= s < 0x100_0000
    ensures TreeIndexOf(s) < NTREEBINS
    ensures MinSize(TreeIndexOf(s)) <= s < MinSize(TreeIndexOf(s) + 1)
  {
    hide Log2, Pow2, MinSize;
    var k := IndexFromLog2(s);
    IndexOfPair(s, k);
  }

  lemma IndexFromLog2(s: nat) returns (k: nat)
    requires MIN_LARGE_SIZE <= s < 0x100_0000
    ensures k < 16 && Pow2(k + 8) <= s < 2 * Pow2(k + 8)
    ensures TreeIndexOf(s) == 2 * k + (s / Pow2(k + 7)) % 2
  {
    hide Pow2, Log2;
    var x := s / 256;
    k := Log2(x);
    assert x % 0x1_0000_0000 == x && 0 < x <= 0xFFFF;
    ScaledLog2(s, k);
  }

  lemma ScaledLog2(s: nat, k: nat)
    requires s >= MIN_LARGE_SIZE && Pow2(k) <= s / 256 < 2 * Pow2(k) && s < 0x100_0000
    ensures k < 16 && Pow2(k + 8) <= s < 2 * Pow2(k + 8)
  {
    hide Pow2;
    Pow2Values();
    Pow2Add(k, 8);
    if k >= 16 {
      Pow2Monotone(16, k);
    }
  }

  /** A size between 2^(k+8) and 2^(k+9) is in one of the two bins 2k and 2k + 1. */
  lemma IndexOfPair(s: nat, k: nat)
    requires Pow2(k + 8) <= s < 2 * Pow2(k + 8)
    ensures var i := 2 * k + (s / Pow2(k + 7)) % 2; MinSize(i) <= s < MinSize(i + 1)
  {
    hide Log2;
    var m := Pow2(k + 7);
    QuotientTwoThree(s, m);
    var i := 2 * k + (s / m) % 2;
    assert i / 2 == k && i % 2 == (s / m) % 2;
    MinSizeStep(i);
  }

  lemma QuotientTwoThree(s: nat, m: nat)
    requires m > 0 && 2 * m <= s < 4 * m
    ensures s / m == if s < 3 * m then 2 else 3
  {
    var q, r := s / m, s % m;
    assert s == q * m + r;
    SmallMultiple(q - 2, m);
    SmallMultiple(q - 3, m);
    SmallMultiple(q - 4, m);
  }

  /** Below 2^40 the computed bin is the bin whose range holds the size. */
  lemma IndexInBin(s: nat)
    requires MIN_LARGE_SIZE <= s < INDEX_LIMIT
    ensures TreeIndexOf(s) < NTREEBINS && InBin(s, TreeIndexOf(s))
  {
    hide Log2, Pow2, MinSize;
    if s < 0x100_0000 {
      BelowLastBin(s);
    } else {
      LastBinOnly(s, NTREEBINS - 1);
    }
  }

  lemma LastBinOnly(s: nat, i: nat)
    requires s >= 0x100_0000 && i < NTREEBINS
    ensures InBin(s, i) <==> i == NTREEBINS - 1
  {
    Pow2Values();
    if i < NTREEBINS - 1 {
      MinSizeMonotone(i, NTREEBINS - 1);
    }
  }

  /** With a quotient of at most 16 bits the last bin is chosen iff its two highest bits are set. */
  lemma IndexOfQuotient(s: nat)
    requires var x := (s / 256) % 0x1_0000_0000; 0 < x <= 0xFFFF
    ensures TreeIndexOf(s) < NTREEBINS
    ensures TreeIndexOf(s) == NTREEBINS - 1 <==> (s / 256) % 0x1_0000_0000 >= 0xC000
  {
    hide Log2, Pow2;
    var x := (s / 256) % 0x1_0000_0000;
    var k := Log2(x);
    Pow2Values();
    Log2Small(x, 16);
    if k < 15 {
      Pow2Monotone(k + 1, 15);
      DoublePow2(k);
    } else {
      QuotientBit(s);
    }
  }

  lemma QuotientBit(s: nat)
    ensures (s / 0x40_0000) % 2 == (((s / 256) % 0x1_0000_0000) / 0x4000) % 2
  {
    DivDiv(s, 256, 0x4000);
    LowDigits(s / 256, 0x4000, 0x4_0000);
    LowDigits(s / 256 / 0x4000, 2, 0x2_0000);
  }

  lemma DoublePow2(k: nat)
    ensures Pow2(k + 1) == 2 * Pow2(k)
  {
  }

  /**
   For larger sizes the quotient no longer fits its 32-bit word. The computed bin is the right one
   exactly when the size is below 2^40 or its low 40 bits alone would also select the last bin.
   */
  lemma IndexExact(s: nat)
    requires MIN_LARGE_SIZE <= s < SIZE_LIMIT
    ensures TreeIndexOf(s) < NTREEBINS
    ensures InBin(s, TreeIndexOf(s)) <==> s < INDEX_LIMIT || s % INDEX_LIMIT >= 0xC0_0000
  {
    if s < INDEX_LIMIT {
      IndexInBin(s);
    } else {
      var r := s % INDEX_LIMIT;
      var x := (s / 256) % 0x1_0000_0000;
      assert x == r / 256;
      if 0 < x <= 0xFFFF {
        IndexOfQuotient(s);
      }
      LastBinOnly(s, TreeIndexOf(s));
    }
  }

  /** A request of exactly 2^40 bytes is indexed into the bin of the smallest large chunks. */
  lemma IndexTooSmall()
    ensures TreeIndexOf(INDEX_LIMIT) == 0 && !InBin(INDEX_LIMIT, 0)
  {
    hide Log2, Pow2, MinSize;
    assert (INDEX_LIMIT / 256) % 0x1_0000_0000 == 0;
    LastBinOnly(INDEX_LIMIT, 0);
  }
}
