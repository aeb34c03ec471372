/**
 Arithmetic of power-of-two blocks, and the free-block structure of the buddy allocator
 seen as plain values: one set of block bases per order.
 */
module Blocks {
  import opened Powers
  import opened Sets

  /** Number of free lists: orders 0 to 16. */
  const ORDERS := 17

  /** The null page-descriptor pointer. */
  const NULL := -1

  predicate Aligned(p: int, k: nat) {
    p % Pow2(k) == 0
  }

  /** The base of the order-k aligned block that holds page p. */
  function Base(p: int, k: nat): int {
    p - p % Pow2(k)
  }

  // ---------- block arithmetic ----------

  lemma ModDouble(p: int, m: nat)
    requires m > 0
    ensures p % (2 * m) == p % m || p % (2 * m) == p % m + m
  {
    var q, r := p / (2 * m), p % (2 * m);
    assert p == q * (2 * m) + r;
    if r < m {
      ModUnique(p, m, 2 * q, r);
    } else {
      ModUnique(p, m, 2 * q + 1, r - m);
    }
  }

  lemma BaseHalf(p: int, k: nat)
    ensures Base(p, k) == Base(p, k + 1) || Base(p, k) == Base(p, k + 1) + Pow2(k)
    ensures Base(p, k) <= p < Base(p, k) + Pow2(k)
  {
    ModDouble(p, Pow2(k));
  }

  lemma BaseSign(p: int, k: nat)
    ensures 0 <= p ==> 0 <= Base(p, k)
  {
    var m := Pow2(k);
    var q, r := p / m, p % m;
    assert p == q * m + r && r < m;
    SmallMultiple(q, m);
    if q <= -1 {
      assert p < 0;
    } else if q == 0 {
      assert Base(p, k) == 0;
    }
  }

  lemma BaseUnique(b: int, p: int, k: nat)
    requires Aligned(b, k)
    ensures Base(p, k) == b <==> b <= p < b + Pow2(k)
  {
    var m := Pow2(k);
    if b <= p < b + m {
      assert p == (b / m) * m + (p - b);
      ModUnique(p, m, b / m, p - b);
    }
  }

  lemma BaseAligned(p: int, k: nat)
    ensures Aligned(Base(p, k), k)
    ensures Aligned(p, k) <==> Base(p, k) == p
  {
    var m := Pow2(k);
    assert p == (p / m) * m + p % m;
    ModUnique(Base(p, k), m, p / m, 0);
  }

  lemma {:induction false} AlignedDown(p: int, j: nat, k: nat)
    requires j <= k && Aligned(p, k)
    ensures Aligned(p, j)
    decreases k
  {
    if j < k {
      ModDouble(p, Pow2(k - 1));
      AlignedDown(p, j, k - 1);
    }
  }

  /** Blocks nest: the order-k block of p is the order-k block of p's order-j block. */
  lemma BaseNest(p: int, j: nat, k: nat)
    requires j <= k
    ensures Base(Base(p, j), k) == Base(p, k)
    ensures Base(p, k) <= Base(p, j)
    ensures Base(p, j) + Pow2(j) <= Base(p, k) + Pow2(k)
    decreases k - j
  {
    BaseHalf(p, j);
    BaseAligned(p, j);
    if j < k {
      BaseHalf(p, j);
      BaseAligned(p, j + 1);
      BaseUnique(Base(p, j + 1), Base(p, j), j + 1);
      BaseNest(p, j + 1, k);
      BaseNest(Base(p, j), j + 1, k);
    } else {
      BaseAligned(Base(p, j), j);
    }
  }

  lemma AlignedZero(k: nat)
    ensures Aligned(0, k)
  {
    ModUnique(0, Pow2(k), 0, 0);
  }

  lemma AlignedNext(p: int, k: nat)
    requires Aligned(p, k)
    ensures Aligned(p + Pow2(k), k)
  {
    var m := Pow2(k);
    assert p + m == (p / m + 1) * m;
    ModUnique(p + m, m, p / m + 1, 0);
  }

  /** The two halves of an aligned block are its children and there are no others. */
  lemma Halves(p: int, k: nat)
    requires Aligned(p, k + 1)
    ensures Aligned(p, k) && Aligned(p + Pow2(k), k) && !Aligned(p + Pow2(k), k + 1)
    ensures Base(p, k + 1) == p && Base(p + Pow2(k), k + 1) == p
    ensures forall x :: Base(x, k + 1) == p <==> Base(x, k) == p || Base(x, k) == p + Pow2(k)
  {
    AlignedDown(p, k, k + 1);
    BaseUnique(p, p + Pow2(k), k + 1);
    BaseUnique(p, p, k + 1);
    BaseHalf(p + Pow2(k), k);
    BaseAligned(p + Pow2(k), k);
    BaseAligned(p + Pow2(k), k + 1);
    AlignedNext(p, k);
    forall x
      ensures Base(x, k + 1) == p <==> Base(x, k) == p || Base(x, k) == p + Pow2(k)
    {
      BaseUnique(p, x, k + 1);
      BaseUnique(p, x, k);
      BaseUnique(p + Pow2(k), x, k);
    }
  }

  /** A block that is not aligned to the next order is the right half of the block one buddy below. */
  lemma RightHalf(p: int, k: nat)
    requires Aligned(p, k) && !Aligned(p, k + 1)
    ensures Base(p, k + 1) == p - Pow2(k) && Aligned(p - Pow2(k), k + 1)
  {
    BaseAligned(p, k);
    BaseAligned(p, k + 1);
    BaseHalf(p, k);
  }

  // ---------- free blocks as values ----------

  /** The blocks of one state: Blocks[k] holds the base pages of the order-k free blocks. */
  type BlockSets = b: seq<set<int>> | |b| == ORDERS witness seq(ORDERS, _ => {})

  ghost predicate InSomeList(b: BlockSets, p: int) {
    exists k :: 0 <= k < ORDERS && p in b[k]
  }

  /** Page x lies in a free block. */
  ghost predicate IsFree(b: BlockSets, x: int) {
    exists k :: 0 <= k < ORDERS && Base(x, k) in b[k]
  }

  ghost function FreeSet(n: nat, b: BlockSets): set<int> {
    set x: int | 0 <= x < n && IsFree(b, x)
  }

  /** Every block is aligned to its order and inside the n pages. */
  ghost predicate Shape(n: nat, b: BlockSets) {
    forall k, p :: 0 <= k < ORDERS && p in b[k] ==> 0 <= p && p + Pow2(k) <= n && Aligned(p, k)
  }

  /** No block lies inside a block of a higher order. */
  ghost predicate Disjoint(b: BlockSets) {
    forall j, k, q :: 0 <= j < k < ORDERS && q in b[j] ==> Base(q, k) !in b[k]
  }

  /** The left halves q of order-k pairs of which both blocks are free. */
  ghost predicate BuddyPair(b: BlockSets, k: nat, q: int)
    requires k < ORDERS
  {
    q in b[k] && Aligned(q, k + 1) && q + Pow2(k) in b[k]
  }

  ghost predicate NoBuddies(b: BlockSets) {
    forall k, q :: 0 <= k < ORDERS - 1 ==> !BuddyPair(b, k, q)
  }

  /** The only pairs left to merge contain page x. */
  ghost predicate OnlyPairsAround(b: BlockSets, x: int) {
    forall k, q :: 0 <= k < ORDERS - 1 && BuddyPair(b, k, q) ==> Base(x, k + 1) == q
  }

  ghost predicate Structured(n: nat, b: BlockSets) {
    Shape(n, b) && Disjoint(b)
  }

  /** All pages of the order-k block at p are in f. */
  ghost predicate RunFree(f: set<int>, p: int, k: nat) {
    forall x :: p <= x < p + Pow2(k) ==> x in f
  }

  ghost predicate InRun(x: int, p: int, k: nat) {
    p <= x < p + Pow2(k)
  }

  /** The pages of the order-k block at p. */
  ghost function Run(p: int, k: nat): set<int> {
    set x: int | p <= x < p + Pow2(k) && InRun(x, p, k)
  }

  /** The order-k block at p is aligned, entirely in f, and (below the top order) in no larger such block. */
  ghost predicate MaximalFree(f: set<int>, k: nat, p: int) {
    && Aligned(p, k)
    && RunFree(f, p, k)
    && (k == ORDERS - 1 || !RunFree(f, Base(p, k + 1), k + 1))
  }

  /** A page is in at most one block. */
  lemma OneBlock(n: nat, b: BlockSets, x: int, j: nat, k: nat)
    requires Structured(n, b) && j < ORDERS && k < ORDERS
    requires Base(x, j) in b[j] && Base(x, k) in b[k]
    ensures j == k
  {
    if j < k {
      BaseNest(x, j, k);
    } else if k < j {
      BaseNest(x, k, j);
    }
  }

  /** A descriptor is in at most one list. */
  lemma OneList(n: nat, b: BlockSets, p: int, j: nat, k: nat)
    requires Structured(n, b) && j < ORDERS && k < ORDERS
    requires p in b[j] && p in b[k]
    ensures j == k
  {
    BaseAligned(p, j);
    BaseAligned(p, k);
    OneBlock(n, b, p, j, k);
  }

  lemma BlockBase(n: nat, b: BlockSets, p: int, k: nat)
    requires Structured(n, b) && k < ORDERS && p in b[k]
    ensures Base(p, k) == p && Aligned(p, k) && 0 <= p && p + Pow2(k) <= n
  {
    BaseAligned(p, k);
  }

  lemma FreeInRange(n: nat, b: BlockSets, x: int)
    requires Structured(n, b) && IsFree(b, x)
    ensures 0 <= x < n
  {
    var k :| 0 <= k < ORDERS && Base(x, k) in b[k];
    BaseHalf(x, k);
  }

  lemma BlockIsFree(n: nat, b: BlockSets, p: int, k: nat)
    requires Structured(n, b) && k < ORDERS && p in b[k]
    ensures RunFree(FreeSet(n, b), p, k)
  {
    forall x | p <= x < p + Pow2(k)
      ensures x in FreeSet(n, b)
    {
      BaseUnique(p, x, k);
    }
  }

  /** An aligned free run of order at most 16 lies inside one listed block, when no two listed blocks are buddies. */
  lemma {:induction false} Covered(n: nat, b: BlockSets, p: int, k: nat) returns (j: nat)
    requires Structured(n, b) && NoBuddies(b)
    requires k < ORDERS && Aligned(p, k) && RunFree(FreeSet(n, b), p, k)
    ensures k <= j < ORDERS && Base(p, j) in b[j]
    decreases k
  {
    if k == 0 {
      assert p in FreeSet(n, b);
      j :| 0 <= j < ORDERS && Base(p, j) in b[j];
    } else {
      var r := p + Pow2(k - 1);
      Halves(p, k - 1);
      j := Covered(n, b, p, k - 1);
      var i := Covered(n, b, r, k - 1);
      BaseAligned(p, k - 1);
      BaseAligned(r, k - 1);
      assert !BuddyPair(b, k - 1, p);
      if j == k - 1 {
        BaseNest(p, k, i);
        BaseNest(r, k, i);
        j := i;
      }
    }
  }

  /** With no buddy pairs the lists are a function of the free pages: the maximal aligned free blocks. */
  lemma Canonical(n: nat, b: BlockSets, k: nat, p: int)
    requires Structured(n, b) && NoBuddies(b) && k < ORDERS
    ensures p in b[k] <==> MaximalFree(FreeSet(n, b), k, p)
  {
    var f := FreeSet(n, b);
    if p in b[k] {
      BlockIsFree(n, b, p, k);
      if k < ORDERS - 1 && RunFree(f, Base(p, k + 1), k + 1) {
        BaseAligned(p, k + 1);
        var j := Covered(n, b, Base(p, k + 1), k + 1);
        BaseNest(p, k + 1, j);
      }
    }
    if MaximalFree(f, k, p) {
      var j := Covered(n, b, p, k);
      BaseAligned(p, k);
      if k < j {
        BlockIsFree(n, b, Base(p, j), j);
        BaseNest(p, k + 1, j);
      }
    }
  }

  lemma CanonicalUnique(n: nat, b: BlockSets, b': BlockSets)
    requires Structured(n, b) && NoBuddies(b)
    requires Structured(n, b') && NoBuddies(b')
    requires FreeSet(n, b) == FreeSet(n, b')
    ensures b == b'
  {
    forall k | 0 <= k < ORDERS
      ensures b[k] == b'[k]
    {
      forall p: int
        ensures p in b[k] <==> p in b'[k]
      {
        Canonical(n, b, k, p);
        Canonical(n, b', k, p);
      }
    }
  }

  // ---------- what each step does to the blocks ----------

  ghost function Without(b: BlockSets, k: nat, p: int): BlockSets
    requires k < ORDERS
  {
    b[k := b[k] - {p}]
  }

  ghost function With(b: BlockSets, k: nat, p: int): BlockSets
    requires k < ORDERS
  {
    b[k := b[k] + {p}]
  }

  /** Replace the order-k+1 block at p by its two halves. */
  ghost function Split(b: BlockSets, k: nat, p: int): BlockSets
    requires k + 1 < ORDERS
  {
    With(With(Without(b, k + 1, p), k, p), k, p + Pow2(k))
  }

  /** Replace the two order-k buddies at p and p + 2^k by the order-k+1 block at p. */
  ghost function Merged(b: BlockSets, k: nat, p: int): BlockSets
    requires k + 1 < ORDERS
  {
    With(Without(Without(b, k, p), k, p + Pow2(k)), k + 1, p)
  }

  /** Splitting a block frees and takes nothing. */
  lemma SplitFree(n: nat, b: BlockSets, k: nat, p: int)
    requires Structured(n, b) && k + 1 < ORDERS && p in b[k + 1]
    ensures FreeSet(n, Split(b, k, p)) == FreeSet(n, b)
  {
    hide Pow2;
    var b' := Split(b, k, p);
    var h := p + Pow2(k);
    Halves(p, k);
    forall x
      ensures IsFree(b', x) <==> IsFree(b, x)
    {
      if IsFree(b, x) {
        var j :| 0 <= j < ORDERS && Base(x, j) in b[j];
        if j == k + 1 && Base(x, j) == p {
          assert Base(x, k) in b'[k];
        } else {
          assert Base(x, j) in b'[j];
        }
      }
      if IsFree(b', x) {
        var j :| 0 <= j < ORDERS && Base(x, j) in b'[j];
        if j == k && Base(x, k) !in b[k] {
          assert Base(x, k + 1) in b[k + 1];
        } else {
          assert Base(x, j) in b[j];
        }
      }
    }
  }

  lemma SplitDisjoint(n: nat, b: BlockSets, k: nat, p: int)
    requires Structured(n, b) && k + 1 < ORDERS && p in b[k + 1]
    ensures Disjoint(Split(b, k, p))
  {
    var b' := Split(b, k, p);
    var h := p + Pow2(k);
    Halves(p, k);
    forall i, j, q | 0 <= i < j < ORDERS && q in b'[i]
      ensures Base(q, j) !in b'[j]
    {
      assert Base(q, k + 1) == p <==> Base(q, k) == p || Base(q, k) == h;
      if q !in b[i] && j > k + 1 {
        BaseNest(q, k + 1, j);
      }
    }
  }

  lemma SplitKeeps(n: nat, b: BlockSets, k: nat, p: int)
    requires Structured(n, b) && k + 1 < ORDERS && p in b[k + 1]
    ensures Structured(n, Split(b, k, p))
    ensures FreeSet(n, Split(b, k, p)) == FreeSet(n, b)
    ensures !InSomeList(Without(b, k + 1, p), p) && !InSomeList(b, p + Pow2(k))
  {
    var b' := Split(b, k, p);
    var h := p + Pow2(k);
    Halves(p, k);
    forall j | 0 <= j < ORDERS
      ensures p !in Without(b, k + 1, p)[j] && h !in b[j]
    {
      if p in b[j] { OneList(n, b, p, j, k + 1); }
      if h in b[j] {
        BaseAligned(h, j);
        OneBlock(n, b, h, j, k + 1);
      }
    }
    SplitDisjoint(n, b, k, p);
    SplitFree(n, b, k, p);
  }

  /** Nor does merging two buddies. */
  lemma MergeFree(n: nat, b: BlockSets, k: nat, p: int)
    requires Structured(n, b) && k + 1 < ORDERS && BuddyPair(b, k, p)
    ensures FreeSet(n, Merged(b, k, p)) == FreeSet(n, b)
  {
    hide Pow2;
    var b' := Merged(b, k, p);
    var h := p + Pow2(k);
    Halves(p, k);
    forall x
      ensures IsFree(b', x) <==> IsFree(b, x)
    {
      if IsFree(b, x) {
        var j :| 0 <= j < ORDERS && Base(x, j) in b[j];
        if j == k && (Base(x, j) == p || Base(x, j) == h) {
          assert Base(x, k + 1) in b'[k + 1];
        } else {
          assert Base(x, j) in b'[j];
        }
      }
      if IsFree(b', x) {
        var j :| 0 <= j < ORDERS && Base(x, j) in b'[j];
        if j == k + 1 && Base(x, k + 1) !in b[k + 1] {
          assert Base(x, k) in b[k];
        } else {
          assert Base(x, j) in b[j];
        }
      }
    }
  }

  lemma MergeDisjoint(n: nat, b: BlockSets, k: nat, p: int)
    requires Structured(n, b) && k + 1 < ORDERS && BuddyPair(b, k, p)
    ensures Disjoint(Merged(b, k, p))
  {
    var b' := Merged(b, k, p);
    var h := p + Pow2(k);
    Halves(p, k);
    forall i, j, q | 0 <= i < j < ORDERS && q in b'[i]
      ensures Base(q, j) !in b'[j]
    {
      assert Base(q, k + 1) == p <==> Base(q, k) == p || Base(q, k) == h;
      BaseAligned(q, i);
      if i == k + 1 && q == p {
        BaseNest(p, k + 1, j);
        BaseNest(p, k, j);
        BaseAligned(p, k);
      }
    }
  }

  lemma MergeKeeps(n: nat, b: BlockSets, k: nat, p: int)
    requires Structured(n, b) && k + 1 < ORDERS && BuddyPair(b, k, p)
    ensures Structured(n, Merged(b, k, p))
    ensures FreeSet(n, Merged(b, k, p)) == FreeSet(n, b)
    ensures !InSomeList(Without(b, k, p), p) && p !in b[k + 1]
  {
    var b' := Merged(b, k, p);
    var h := p + Pow2(k);
    Halves(p, k);
    forall j | 0 <= j < ORDERS
      ensures p !in Without(b, k, p)[j]
    {
      if p in b[j] { OneList(n, b, p, j, k); }
    }
    MergeDisjoint(n, b, k, p);
    MergeFree(n, b, k, p);
  }

  /** Taking a block off its list removes exactly its run from the free pages. */
  lemma RemoveTakesRun(n: nat, b: BlockSets, k: nat, p: int)
    requires Structured(n, b) && k < ORDERS && p in b[k]
    ensures Structured(n, Without(b, k, p))
    ensures FreeSet(n, Without(b, k, p)) == FreeSet(n, b) - Run(p, k)
  {
    var b' := Without(b, k, p);
    forall x
      ensures IsFree(b', x) <==> IsFree(b, x) && !(p <= x < p + Pow2(k))
    {
      BaseUnique(p, x, k);
      if IsFree(b', x) {
        var j :| 0 <= j < ORDERS && Base(x, j) in b'[j];
        assert Base(x, j) in b[j];
        if Base(x, k) == p { OneBlock(n, b, x, j, k); }
      }
      if IsFree(b, x) && Base(x, k) != p {
        var j :| 0 <= j < ORDERS && Base(x, j) in b[j];
        assert Base(x, j) in b'[j];
      }
    }
  }

  /** Listing a block none of whose pages is free adds exactly its run. */
  lemma AddGivesRun(n: nat, b: BlockSets, k: nat, p: int)
    requires Structured(n, b) && k < ORDERS
    requires 0 <= p && p + Pow2(k) <= n && Aligned(p, k)
    requires FreeSet(n, b) !! Run(p, k)
    ensures Structured(n, With(b, k, p))
    ensures FreeSet(n, With(b, k, p)) == FreeSet(n, b) + Run(p, k)
    ensures !InSomeList(b, p)
  {
    var b' := With(b, k, p);
    assert p in Run(p, k);
    forall j | 0 <= j < ORDERS
      ensures p !in b[j] && Base(p, j) !in b[j]
    {
      BaseAligned(p, j);
    }
    forall i, j, q | 0 <= i < j < ORDERS && q in b'[i]
      ensures Base(q, j) !in b'[j]
    {
      BaseUnique(p, q, k);
      BaseAligned(q, i);
      assert q in Run(p, k) <==> Base(q, k) == p;
    }
    forall x
      ensures IsFree(b', x) <==> IsFree(b, x) || p <= x < p + Pow2(k)
    {
      BaseUnique(p, x, k);
      if IsFree(b, x) {
        var j :| 0 <= j < ORDERS && Base(x, j) in b[j];
        assert Base(x, j) in b'[j];
      }
      if Base(x, k) == p {
        assert Base(x, k) in b'[k];
      }
      if IsFree(b', x) && Base(x, k) != p {
        var j :| 0 <= j < ORDERS && Base(x, j) in b'[j];
        assert Base(x, j) in b[j];
      }
    }
  }

  /** f is the first p pages. */
  ghost predicate Prefix(f: set<int>, p: int) {
    forall x :: x in f <==> 0 <= x < p
  }

  lemma PrefixRun(f: set<int>, p: nat, k: nat)
    requires Prefix(f, p)
    ensures f !! Run(p, k) && Prefix(f + Run(p, k), p + Pow2(k))
  {
    assert forall x :: x in Run(p, k) <==> InRun(x, p, k);
  }

  // ---------- buddy pairs ----------

  /** If x's own block has no free buddy (or x is in no block) there is no pair at all. */
  lemma PairsAroundNone(n: nat, b: BlockSets, x: int, k: nat)
    requires Structured(n, b) && OnlyPairsAround(b, x) && k < ORDERS
    requires IsFree(b, x) ==> Base(x, k) in b[k] && (k == ORDERS - 1 || !BuddyPair(b, k, Base(x, k + 1)))
    ensures NoBuddies(b)
  {
    forall j, q | 0 <= j < ORDERS - 1 && BuddyPair(b, j, q)
      ensures false
    {
      Halves(q, j);
      assert Base(x, j) in b[j];
      OneBlock(n, b, x, j, k);
    }
  }

  /** Taking away the one block that could still merge leaves nothing to merge. */
  lemma TakeBlock(n: nat, b: BlockSets, k: nat, p: int)
    requires Structured(n, b) && OnlyPairsAround(b, p) && k < ORDERS && p in b[k]
    ensures Structured(n, Without(b, k, p)) && NoBuddies(Without(b, k, p))
    ensures FreeSet(n, Without(b, k, p)) == FreeSet(n, b) - Run(p, k)
    ensures Run(p, k) <= FreeSet(n, b)
  {
    var b' := Without(b, k, p);
    RemoveTakesRun(n, b, k, p);
    BlockIsFree(n, b, p, k);
    forall j, q | 0 <= j < ORDERS - 1 && BuddyPair(b', j, q)
      ensures Base(p, j + 1) == q
    {
      assert BuddyPair(b, j, q);
    }
    assert InRun(p, p, k) && p !in FreeSet(n, b');
    assert IsFree(b', p) ==> p in FreeSet(n, b') by {
      if IsFree(b', p) { FreeInRange(n, b', p); }
    }
    PairsAroundNone(n, b', p, k);
  }

  /** A new block can only pair up with others around itself. */
  lemma AddPairs(n: nat, b: BlockSets, k: nat, p: int)
    requires Structured(n, b) && NoBuddies(b) && k < ORDERS && Aligned(p, k)
    ensures OnlyPairsAround(With(b, k, p), p)
  {
    var b' := With(b, k, p);
    forall j, q | 0 <= j < ORDERS - 1 && BuddyPair(b', j, q)
      ensures Base(p, j + 1) == q
    {
      Halves(q, j);
      assert !BuddyPair(b, j, q);
    }
  }

  lemma AtMostOne(b: BlockSets)
    requires forall k, p, q :: 0 <= k < ORDERS - 1 && p in b[k] && q in b[k] ==> p == q
    ensures NoBuddies(b)
  {
  }

  lemma SplitPairs(n: nat, b: BlockSets, k: nat, p: int, x: int)
    requires Structured(n, b) && k + 1 < ORDERS && p in b[k + 1]
    requires OnlyPairsAround(b, x) && Base(x, k + 1) == p
    ensures OnlyPairsAround(Split(b, k, p), x)
  {
    var b' := Split(b, k, p);
    SplitKeeps(n, b, k, p);
    Halves(p, k);
    forall j, q | 0 <= j < ORDERS - 1 && BuddyPair(b', j, q)
      ensures Base(x, j + 1) == q
    {
      Halves(q, j);
      assert BuddyPair(b, j, q) || j == k;
      if j == k && !BuddyPair(b, k, q) {
        BaseNest(p, k, k + 1);
      }
    }
  }

  lemma MergePairs(n: nat, b: BlockSets, k: nat, p: int, x: int)
    requires Structured(n, b) && k + 1 < ORDERS && BuddyPair(b, k, p)
    requires OnlyPairsAround(b, x) && Base(x, k + 1) == p
    ensures OnlyPairsAround(Merged(b, k, p), x)
  {
    var b' := Merged(b, k, p);
    MergeKeeps(n, b, k, p);
    forall j, q | 0 <= j < ORDERS - 1 && BuddyPair(b', j, q)
      ensures Base(x, j + 1) == q
    {
      Halves(q, j);
      if !BuddyPair(b, j, q) {
        assert j == k + 1;
        BaseNest(x, k + 1, k + 2);
        BaseAligned(p, k + 1);
      }
    }
  }

  /** Pairs around page are pairs around the base of page's own block. */
  lemma PairsShift(n: nat, b: BlockSets, k: nat, page: int)
    requires Structured(n, b) && OnlyPairsAround(b, page)
    requires k < ORDERS && Base(page, k) in b[k]
    ensures OnlyPairsAround(b, Base(page, k))
  {
    hide Pow2;
    var x := Base(page, k);
    forall j, q | 0 <= j < ORDERS - 1 && BuddyPair(b, j, q)
      ensures Base(x, j + 1) == q
    {
      Halves(q, j);
      assert Base(page, j) in b[j];
      OneBlock(n, b, page, j, k);
      BaseNest(page, j, j + 1);
    }
  }

  // ---------- counting pages ----------

  /** Of the pages f, those of the order-k block at p have been taken. */
  ghost predicate Taken(f: set<int>, f': set<int>, p: int, k: nat) {
    Run(p, k) <= f && f' == f - Run(p, k)
  }

  /** Taking a block leaves 2^k fewer pages. */
  lemma TakenSize(f: set<int>, f': set<int>, p: int, k: nat)
    requires Taken(f, f', p, k)
    ensures |f'| == |f| - Pow2(k)
  {
    forall x
      ensures x in Run(p, k) <==> p <= x < p + Pow2(k)
    {
      assert x in Run(p, k) <==> p <= x < p + Pow2(k) && InRun(x, p, k);
    }
    IntervalSize(Run(p, k), p, Pow2(k));
  }

  /** A single page can be had as long as one is free. */
  lemma SinglePage(f: set<int>)
    ensures CanAllocate(f, 0) <==> |f| > 0
  {
    assert Pow2(0) == 1;
    if |f| > 0 {
      var x := Pick(f);
      assert Aligned(x, 0) && RunFree(f, x, 0);
    }
    if CanAllocate(f, 0) {
      var q :| Aligned(q, 0) && RunFree(f, q, 0);
      assert q in f;
    }
  }

  // ---------- what a request finds ----------

  /** Some aligned run of 2^order pages lies entirely in f. */
  ghost predicate CanAllocate(f: set<int>, order: int) {
    0 <= order <= 16 && exists q :: Aligned(q, order) && RunFree(f, q, order)
  }

  /** Block p of order o is the lowest of the smallest maximal free blocks that hold an order-k block. */
  ghost predicate SmallestFit(f: set<int>, k: nat, o: nat, p: int) {
    && k <= o < ORDERS && MaximalFree(f, o, p)
    && forall j, q :: k <= j < ORDERS && MaximalFree(f, j, q) ==> o < j || (o == j && p <= q)
  }

  /**
   Looking at the list heads alone is complete: an aligned free run exists iff some list that is large enough is not
   empty.
   */
  lemma HeadsComplete(n: nat, b: BlockSets, order: nat)
    requires Structured(n, b) && NoBuddies(b) && order < ORDERS
    ensures CanAllocate(FreeSet(n, b), order) <==> exists j, p :: order <= j < ORDERS && p in b[j]
  {
    var f := FreeSet(n, b);
    if CanAllocate(f, order) {
      var q :| Aligned(q, order) && RunFree(f, q, order);
      var j := Covered(n, b, q, order);
    }
    if j, p :| order <= j < ORDERS && p in b[j] {
      BlockIsFree(n, b, p, j);
      AlignedDown(p, order, j);
      SmallerRun(p, order, j);
      assert RunFree(f, p, order);
    }
  }

  lemma SmallerRun(p: int, j: nat, k: nat)
    requires j <= k
    ensures Pow2(j) <= Pow2(k)
    decreases k
  {
    if j < k { SmallerRun(p, j, k - 1); }
  }

  lemma FirstHeadFits(n: nat, b: BlockSets, k: nat, o: nat, p: int)
    requires Structured(n, b) && NoBuddies(b) && k <= o < ORDERS && p in b[o]
    requires forall j :: k <= j < o ==> b[j] == {}
    requires forall q :: q in b[o] ==> p <= q
    ensures SmallestFit(FreeSet(n, b), k, o, p)
  {
    var f := FreeSet(n, b);
    Canonical(n, b, o, p);
    forall j, q | k <= j < ORDERS && MaximalFree(f, j, q)
      ensures o < j || (o == j && p <= q)
    {
      Canonical(n, b, j, q);
    }
  }
}
