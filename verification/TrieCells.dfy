/**
 The ranges of sizes that the subtrees of the large bins are for. A subtree h levels above
 single sizes holds sizes that agree in all but their h lowest bits; its left half has a zero
 in the deciding bit h - 1, its right half a one.
 */
module TrieCells {
  import opened ChunkSizes
  import opened Powers
  import opened Blocks
  import opened TreeIndex

  datatype Cell = Cell(bin: nat, h: nat, lo: int)

  function RootHeight(i: nat): nat {
    if i == NTREEBINS - 1 then 64 else i / 2 + 7
  }

  /** Each bin but the last is for a range of 2^h sizes, and the shift leaves exactly the h bits that differ in it. */
  lemma BinWidth(i: nat)
    requires i < 32
    ensures i < 31 ==> MinSize(i + 1) - MinSize(i) == Pow2(RootHeight(i))
    ensures RootHeight(i) <= 64 && LeftShift(i) == 64 - RootHeight(i)
    ensures i == 31 ==> LeftShift(i) == 0
  {
    MinSizeStep(i);
  }

  function RootCell(i: nat): Cell {
    Cell(i, RootHeight(i), if i == NTREEBINS - 1 then 0 else MinSize(i))
  }

  /** Chunk sizes the bins are for. */
  predicate LargeSize(s: nat) {
    MIN_LARGE_SIZE <= s < INDEX_LIMIT
  }

  ghost predicate Covers(c: Cell, s: nat) {
    LargeSize(s) && TreeIndexOf(s) == c.bin && c.h <= RootHeight(c.bin) && Base(s, c.h) == c.lo
  }

  /** The half of a range for a deciding bit. */
  function Sub(c: Cell, b: bool): Cell
    requires c.h > 0
  {
    Cell(c.bin, c.h - 1, if b then c.lo + Pow2(c.h - 1) else c.lo)
  }

  /** The range one level up. */
  function Up(c: Cell): Cell {
    Cell(c.bin, c.h + 1, Base(c.lo, c.h + 1))
  }

  /** Bit h - 1 of s is set. */
  ghost predicate DecidingBit(s: nat, h: nat)
    requires h > 0
  {
    Base(s, h - 1) != Base(s, h)
  }

  lemma CoverRoot(s: nat)
    requires LargeSize(s)
    ensures TreeIndexOf(s) < NTREEBINS && Covers(RootCell(TreeIndexOf(s)), s)
  {
    hide TreeIndexOf, Pow2, Base, MinSize;
    var i := TreeIndexOf(s);
    IndexInBin(s);
    if i == NTREEBINS - 1 {
      WholeWord(s);
    } else {
      MinSizeAligned(i);
      MinSizeStep(i);
      BaseUnique(MinSize(i), s, i / 2 + 7);
    }
  }

  lemma WholeWord(s: nat)
    requires s < SIZE_LIMIT
    ensures Base(s, 64) == 0
  {
    Pow2Values();
    ModUnique(s, Pow2(64), 0, s);
  }

  lemma MinSizeAligned(i: nat)
    ensures Aligned(MinSize(i), i / 2 + 7)
  {
    var m := Pow2(i / 2 + 7);
    assert MinSize(i) == (2 + i % 2) * m;
    ModUnique(MinSize(i), m, 2 + i % 2, 0);
  }

  /** A size covered by a range is covered by exactly one half, the one its deciding bit selects. */
  lemma CoverSub(c: Cell, s: nat)
    requires Covers(c, s) && c.h > 0
    ensures Covers(Sub(c, true), s) <==> DecidingBit(s, c.h)
    ensures Covers(Sub(c, false), s) <==> !DecidingBit(s, c.h)
  {
    hide TreeIndexOf, RootHeight, Pow2;
    BaseHalf(s, c.h - 1);
  }

  /** Conversely a half covers only what the whole range covers. */
  lemma SubCover(c: Cell, s: nat, b: bool)
    requires c.h > 0 && c.h <= RootHeight(c.bin) && Aligned(c.lo, c.h) && Covers(Sub(c, b), s)
    ensures Covers(c, s)
  {
    hide TreeIndexOf, RootHeight;
    Halves(c.lo, c.h - 1);
  }

  /** Everything in the left half is smaller than everything in the right half. */
  lemma LeftBelowRight(c: Cell, s: nat, s': nat)
    requires c.h > 0 && Covers(Sub(c, false), s) && Covers(Sub(c, true), s')
    ensures s < s'
  {
    BaseHalf(s, c.h - 1);
    BaseHalf(s', c.h - 1);
  }

  lemma CoverUp(c: Cell, s: nat)
    requires Covers(c, s) && c.h < RootHeight(c.bin)
    ensures Covers(Up(c), s) && c == Sub(Up(c), DecidingBit(s, c.h + 1))
  {
    BaseNest(s, c.h, c.h + 1);
    BaseHalf(s, c.h);
  }

  lemma CoverAligned(c: Cell, s: nat)
    requires Covers(c, s)
    ensures Aligned(c.lo, c.h) && c.lo <= s < c.lo + Pow2(c.h)
  {
    BaseAligned(s, c.h);
    BaseHalf(s, c.h);
  }

  lemma CoverBin(c: Cell, s: nat)
    requires Covers(c, s)
    ensures c.bin == TreeIndexOf(s)
  {
  }

  /** A range for single sizes covers only one. */
  lemma CoverSingle(c: Cell, s: nat, s': nat)
    requires Covers(c, s) && Covers(c, s') && s != s'
    ensures c.h > 0
  {
    assert Base(s, 0) == s && Base(s', 0) == s';
  }

  /** The range of height h around s. */
  function CellAt(bin: nat, h: nat, s: nat): Cell {
    Cell(bin, h, Base(s, h))
  }

  // ---------- the bits of a size, shifted to the top of a 64-bit word ----------

  /** The word whose top bit is the deciding bit of s at height h. */
  function SizeBits(s: nat, h: nat): nat
    requires h <= 64
  {
    (s * Pow2(64 - h)) % SIZE_LIMIT
  }

  lemma SizeBitsStart(s: nat, i: nat)
    requires i < NTREEBINS
    ensures RootHeight(i) <= 64
    ensures (s * Pow2(LeftShift(i))) % SIZE_LIMIT == SizeBits(s, RootHeight(i))
  {
  }

  lemma SizeBitsNext(s: nat, h: nat)
    requires 0 < h <= 64
    ensures (2 * SizeBits(s, h)) % SIZE_LIMIT == SizeBits(s, h - 1)
  {
    hide Pow2;
    var q := Pow2(64 - h);
    DoublePow2(64 - h);
    TwiceScaled(s, q);
    DoubledRemainder(s * q);
  }

  lemma TwiceScaled(s: nat, q: nat)
    ensures s * (2 * q) == 2 * (s * q)
  {
  }

  lemma DoubledRemainder(p: nat)
    ensures (2 * (p % SIZE_LIMIT)) % SIZE_LIMIT == (2 * p) % SIZE_LIMIT
  {
    var q, r := p / SIZE_LIMIT, p % SIZE_LIMIT;
    var c := 2 * r / SIZE_LIMIT;
    ModUnique(2 * p, SIZE_LIMIT, 2 * q + c, 2 * r - c * SIZE_LIMIT);
  }

  lemma SizeBitsTop(s: nat, h: nat)
    requires h <= 64
    ensures SizeBits(s, h) / 0x8000_0000_0000_0000 == if h > 0 && DecidingBit(s, h) then 1 else 0
  {
    hide Pow2, DecidingBit;
    if h == 0 {
      SizeBitsZero(s);
    } else {
      var n, m := Pow2(64 - h), Pow2(h - 1);
      assert m * n == 0x8000_0000_0000_0000 by {
        Pow2Values();
        Pow2Add(h - 1, 64 - h);
      }
      DoublePow2(h - 1);
      DecidingRemainder(s, h);
      TopBitOf(s, m, n);
    }
  }

  lemma SizeBitsZero(s: nat)
    ensures SizeBits(s, 0) == 0
  {
    Pow2Values();
    ModUnique(s * SIZE_LIMIT, SIZE_LIMIT, s, 0);
  }

  lemma DecidingRemainder(s: nat, h: nat)
    requires h > 0
    ensures DecidingBit(s, h) <==> s % (2 * Pow2(h - 1)) >= Pow2(h - 1)
  {
    var m := Pow2(h - 1);
    var q, r := s / (2 * m), s % (2 * m);
    assert s == q * (2 * m) + r;
    if r < m {
      ModUnique(s, m, 2 * q, r);
    } else {
      ModUnique(s, m, 2 * q + 1, r - m);
    }
  }

  lemma TopBitOf(s: nat, m: nat, n: nat)
    requires m > 0 && n > 0 && m * n == 0x8000_0000_0000_0000
    ensures ((s * n) % SIZE_LIMIT) / 0x8000_0000_0000_0000 == if s % (2 * m) >= m then 1 else 0
  {
    var q, r := s / (2 * m), s % (2 * m);
    ShiftedRemainder(s, q, r, m, n);
    var w := r * n;
    assert w < SIZE_LIMIT && (w >= 0x8000_0000_0000_0000 <==> r >= m) by {
      ScaledOrder(r, m, n);
      ScaledOrder(r, 2 * m, n);
      assert (2 * m) * n == 2 * (m * n);
    }
    ModUnique(s * n, SIZE_LIMIT, q, w);
  }

  lemma ShiftedRemainder(s: nat, q: nat, r: nat, m: nat, n: nat)
    requires m > 0 && q == s / (2 * m) && r == s % (2 * m) && m * n == 0x8000_0000_0000_0000
    ensures s * n == q * SIZE_LIMIT + r * n
  {
    assert s == q * (2 * m) + r;
    assert (q * (2 * m)) * n == q * (2 * (m * n));
  }

  lemma ScaledOrder(a: nat, b: nat, n: nat)
    requires n > 0
    ensures a * n >= b * n <==> a >= b
  {
    SmallMultiple(a - b, n);
    assert a * n - b * n == (a - b) * n;
  }
}
