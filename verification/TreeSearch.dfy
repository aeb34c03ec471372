/**
 Best-fit search in the large bins: what has been ruled out at each step of the two descents.
 */
module TreeSearch {
  import opened ChunkSizes
  import opened Powers
  import opened TreeIndex
  import opened TrieCells
  import opened Tries

  /** Tree node u is large enough for nb. */
  ghost predicate Fits(v: Trie, u: int, nb: nat) {
    u in v.cell && u in v.size && v.size[u] >= nb
  }

  /** best is at least as good as u. */
  ghost predicate Beats(v: Trie, best: int, u: int) {
    best != 0 && best in v.size && u in v.size && v.size[best] <= v.size[u]
  }

  /** u is in the subtree of t, or no smaller than t itself. */
  ghost predicate Ahead(v: Trie, u: int, t: int) {
    t != 0 && t in v.cell && (Under(v, u, t) || Beats(v, t, u))
  }

  /** Every fitting node is beaten by best or still ahead in the subtree of t. */
  ghost predicate Searched(v: Trie, nb: nat, best: int, t: int) {
    forall u :: Fits(v, u, nb) ==> Beats(v, best, u) || Ahead(v, u, t)
  }

  /** The whole subtree of t fits. */
  ghost predicate AllFit(v: Trie, nb: nat, t: int) {
    forall u :: Under(v, u, t) ==> v.size[u] >= nb
  }

  /** The chosen chunk and its remainder. */
  ghost predicate Chosen(v: Trie, nb: nat, best: int, rsize: nat) {
    nb < SIZE_LIMIT &&
    if best == 0 then rsize == SIZE_LIMIT - nb
    else Fits(v, best, nb) && rsize == v.size[best] - nb
  }

  /** best is a smallest fitting node, or nothing fits. */
  ghost predicate Best(v: Trie, nb: nat, best: int) {
    && (best != 0 ==> Fits(v, best, nb))
    && forall u :: Fits(v, u, nb) ==> Beats(v, best, u)
  }

  function Leftmost(n: TreeNode): int {
    if n.left != 0 then n.left else n.right
  }

  /** The smaller of best and t beats everything the leftmost descent leaves behind at t. */
  lemma LeftmostStep(v: Trie, nb: nat, before: int, best: int, t: int)
    requires Inv(v) && t != 0 && t in v.cell && t in v.node
    requires Searched(v, nb, before, t) && Beats(v, best, t) && (before != 0 ==> Beats(v, best, before))
    ensures Searched(v, nb, best, Leftmost(v.node[t]))
  {
    hide Inv, Covers, Sub, RootHeight;
    var n := v.node[t];
    assert Child(n, false) == n.left && Child(n, true) == n.right;
    forall u | Fits(v, u, nb)
      ensures Beats(v, best, u) || Ahead(v, u, Leftmost(n))
    {
      assert Beats(v, t, u) ==> Beats(v, best, u);
      if !Beats(v, best, u) {
        LeftOrRight(v, u, t);
      }
    }
  }

  /** Below t, whatever is in the right subtree is larger than the left child. */
  lemma LeftOrRight(v: Trie, u: int, t: int)
    requires Inv(v) && Under(v, u, t) && u != t && t in v.node
    ensures Ahead(v, u, Leftmost(v.node[t]))
  {
    hide Inv, RootHeight;
    Descend(v, u, t);
    var n := v.node[t];
    var b := DecidingBit(v.size[u], v.cell[t].h);
    assert Child(n, b) != 0 && Under(v, u, Child(n, b));
    ChildParent(v, t, b);
    if b && n.left != 0 {
      ChildParent(v, t, false);
      CoverOf(v, n.left);
      LeftBelowRight(v.cell[t], v.size[n.left], v.size[u]);
    }
  }

  lemma AllFitBelow(v: Trie, nb: nat, t: int)
    requires Inv(v) && t in v.cell && t in v.node && AllFit(v, nb, t)
    ensures Leftmost(v.node[t]) != 0 ==> Leftmost(v.node[t]) in v.cell && AllFit(v, nb, Leftmost(v.node[t]))
    ensures t in v.size && v.size[t] >= nb
  {
    hide Covers, Sub, RootHeight;
    UnderSelf(v, t);
    var n := v.node[t];
    var b := n.left == 0;
    assert Child(n, b) == Leftmost(n);
    if Leftmost(n) != 0 {
      ChildUnder(v, t, b);
    }
  }

  // ---------- the descent along the request's own bits ----------

  /**
   Within the bin, every fitting node is beaten by best, in the subtree of t, or ahead in the untaken right subtree
   rst.
   */
  ghost predicate OnPath(v: Trie, nb: nat, bin: nat, best: int, t: int, rst: int) {
    forall u :: Fits(v, u, nb) && v.cell[u].bin == bin ==>
      Beats(v, best, u) || (t != 0 && Under(v, u, t)) || Ahead(v, u, rst)
  }

  /** The sizes below rst are all larger than those below t. */
  ghost predicate RightOf(v: Trie, t: int, rst: int) {
    rst != 0 ==> (
      && rst in v.cell && t in v.cell && rst in v.size
      && v.cell[t].lo + Pow2(v.cell[t].h) <= v.cell[rst].lo && v.cell[rst].bin == v.cell[t].bin)
  }

  /** What is left of a subtree's range does not reach into it. */
  lemma RightFits(v: Trie, nb: nat, rst: int)
    requires Inv(v) && rst in v.cell && nb < v.cell[rst].lo
    ensures rst in v.size && v.size[rst] > nb && AllFit(v, nb, rst)
    ensures forall u :: Under(v, u, rst) ==> v.size[u] >= v.cell[rst].lo
  {
    hide Inv, Covers;
    CoverOf(v, rst);
    CoverAligned(v.cell[rst], v.size[rst]);
    forall u | Under(v, u, rst)
      ensures v.size[u] >= v.cell[rst].lo
    {
      CoverAligned(v.cell[rst], v.size[u]);
    }
  }

  /** The child the request's bits select, and the fallback after the step. */
  ghost function NextChild(v: Trie, nb: nat, t: int): int
    requires t in v.cell && t in v.node
  {
    Child(v.node[t], v.cell[t].h > 0 && DecidingBit(nb, v.cell[t].h))
  }

  ghost function NextFallback(v: Trie, nb: nat, t: int, rst: int): int
    requires t in v.cell && t in v.node
  {
    if v.node[t].right != 0 && v.node[t].right != NextChild(v, nb, t) then v.node[t].right else rst
  }

  lemma PathGeometry(v: Trie, nb: nat, t: int, rst: int)
    requires Inv(v) && t in v.cell && t in v.node && LargeSize(nb) && Covers(v.cell[t], nb) && RightOf(v, t, rst)
    ensures var c, r := NextChild(v, nb, t), NextFallback(v, nb, t, rst);
            && (r != 0 ==> r in v.cell && r in v.size && nb < v.cell[r].lo && v.cell[r].bin == v.cell[t].bin)
            && (c != 0 ==>
              && c in v.cell && v.cell[t].h > 0 && v.cell[c].h == v.cell[t].h - 1
              && v.cell[c].bin == v.cell[t].bin
                           && Covers(v.cell[c], nb) && RightOf(v, c, r))
  {
    hide Inv, Covers, RootHeight, DecidingBit;
    ChildCells(v, t);
    CoverAligned(v.cell[t], nb);
    if v.cell[t].h > 0 {
      CoverSub(v.cell[t], nb);
      SubDiffers(v.cell[t]);
      CoverHalf(v.cell[t], nb);
    }
  }

  lemma CoverHalf(c: Cell, s: nat)
    requires Covers(c, s) && c.h > 0
    ensures Pow2(c.h) == 2 * Pow2(c.h - 1)
    ensures !DecidingBit(s, c.h) ==> s < c.lo + Pow2(c.h - 1)
  {
    hide Covers;
    CoverSub(c, s);
    if !DecidingBit(s, c.h) { CoverAligned(Sub(c, false), s); }
  }

  /** One step along the bits of nb: where the request turns left, the right subtree becomes the fallback. */
  lemma PathDescend(v: Trie, nb: nat, best: int, t: int, rst: int)
    requires Inv(v) && t in v.cell && t in v.node && t in v.size && LargeSize(nb) && Covers(v.cell[t], nb)
    requires OnPath(v, nb, v.cell[t].bin, best, t, rst) && RightOf(v, t, rst)
    requires v.size[t] >= nb ==> Beats(v, best, t)
    ensures OnPath(v, nb, v.cell[t].bin, best, NextChild(v, nb, t), NextFallback(v, nb, t, rst))
  {
    hide Inv, Covers, RootHeight, Sub, DecidingBit, Under;
    var c, r := NextChild(v, nb, t), NextFallback(v, nb, t, rst);
    forall u | Fits(v, u, nb) && v.cell[u].bin == v.cell[t].bin
      ensures Beats(v, best, u) || (c != 0 && Under(v, u, c)) || Ahead(v, u, r)
    {
      if Ahead(v, u, rst) && rst != r {
        FallbackImproves(v, nb, t, rst, u);
      } else if Under(v, u, t) && u != t {
        Descend(v, u, t);
        if DecidingBit(v.size[u], v.cell[t].h) != DecidingBit(nb, v.cell[t].h) {
          TurnsRight(v, nb, t, u);
        }
      }
    }
  }

  lemma FallbackImproves(v: Trie, nb: nat, t: int, rst: int, u: int)
    requires Inv(v) && t in v.cell && t in v.node && LargeSize(nb) && Covers(v.cell[t], nb) && RightOf(v, t, rst)
    requires Ahead(v, u, rst) && u in v.size && rst != NextFallback(v, nb, t, rst)
    ensures Ahead(v, u, NextFallback(v, nb, t, rst))
  {
    hide Inv, Covers, RootHeight, DecidingBit;
    ChildCells(v, t);
    CoverAligned(v.cell[t], nb);
    RightFits(v, nb, rst);
    CoverOf(v, rst);
    CoverAligned(v.cell[rst], v.size[rst]);
    var r := v.node[t].right;
    CoverOf(v, r);
    CoverAligned(v.cell[r], v.size[r]);
    CoverHalf(v.cell[t], nb);
  }

  /** A fitting node below t that does not follow the request's bit is in the right subtree. */
  lemma TurnsRight(v: Trie, nb: nat, t: int, u: int)
    requires Inv(v) && t in v.cell && t in v.node && Covers(v.cell[t], nb) && Fits(v, u, nb) && Under(v, u, t)
      && v.cell[t].h > 0
    requires DecidingBit(v.size[u], v.cell[t].h) != DecidingBit(nb, v.cell[t].h)
    ensures DecidingBit(v.size[u], v.cell[t].h) && !DecidingBit(nb, v.cell[t].h)
  {
    hide Inv, Covers, RootHeight, DecidingBit, Sub;
    CoverSub(v.cell[t], v.size[u]);
    CoverSub(v.cell[t], nb);
    if DecidingBit(nb, v.cell[t].h) {
      LeftBelowRight(v.cell[t], v.size[u], nb);
    }
  }

  lemma ChildCells(v: Trie, t: int)
    requires Inv(v) && t in v.cell && t in v.node
    ensures var n := v.node[t];
            && (n.left != 0 ==>
              v.cell[t].h > 0 && n.left in v.cell && n.left in v.size
              && v.cell[n.left] == Sub(v.cell[t], false))
            && (n.right != 0 ==>
              v.cell[t].h > 0 && n.right in v.cell && n.right in v.size
              && v.cell[n.right] == Sub(v.cell[t], true))
  {
    hide Sub, Covers, RootHeight;
    var n := v.node[t];
    assert Child(n, false) == n.left && Child(n, true) == n.right;
    if n.left != 0 { ChildUnder(v, t, false); }
    if n.right != 0 { ChildUnder(v, t, true); }
  }

  // ---------- from one bin to all bins ----------

  lemma PathStart(v: Trie, nb: nat, i: nat)
    requires Inv(v) && LargeSize(nb) && i == TreeIndexOf(nb) && i < |v.bins| && v.bins[i] != 0
    ensures var t := v.bins[i];
            t in v.cell && v.cell[t].bin == i && Covers(v.cell[t], nb) && RightOf(v, t, 0) && OnPath(v, nb, i, 0, t, 0)
  {
    hide Covers, TreeIndexOf, RootHeight;
    RootStart(v, i, nb);
    CoverBin(v.cell[v.bins[i]], nb);
    forall u | Fits(v, u, nb) && v.cell[u].bin == i
      ensures Under(v, u, v.bins[i])
    {
      RootHolds(v, u);
    }
  }

  lemma EmptyPath(v: Trie, nb: nat, i: nat)
    requires Inv(v) && i < |v.bins| && v.bins[i] == 0
    ensures OnPath(v, nb, i, 0, 0, 0)
  {
    hide Covers, TreeIndexOf, RootHeight;
    forall u | Fits(v, u, nb)
      ensures v.cell[u].bin != i
    {
      RootHolds(v, u);
    }
  }

  /** When the request's own bin has a fitting chunk, no later bin can do better. */
  lemma OwnBinFirst(v: Trie, nb: nat, i: nat, best: int, rst: int)
    requires Inv(v) && LargeSize(nb) && i == TreeIndexOf(nb) && OnPath(v, nb, i, best, 0, rst)
    requires best != 0 ==> Fits(v, best, nb) && v.cell[best].bin == i
    requires rst != 0 ==> rst in v.cell && v.cell[rst].bin == i && rst in v.size && v.size[rst] >= nb
    requires best != 0 || rst != 0
    ensures Searched(v, nb, best, rst)
  {
    hide Covers, TreeIndexOf, RootHeight, Inv, Under;
    forall u | Fits(v, u, nb)
      ensures Beats(v, best, u) || Ahead(v, u, rst)
    {
      CoverOf(v, u);
      BinOrder(v.size[u], nb);
      var w := if best != 0 then best else rst;
      CoverOf(v, w);
      BinOrder(v.size[w], v.size[u]);
    }
  }

  /** Otherwise the first later bin that is not empty holds the smallest fitting chunk, if there is one. */
  lemma NextBin(v: Trie, nb: nat, i: nat, j: nat)
    requires Inv(v) && LargeSize(nb) && i == TreeIndexOf(nb) && OnPath(v, nb, i, 0, 0, 0)
    requires i < j < NTREEBINS && v.bins[j] != 0 && forall k :: i < k < j ==> v.bins[k] == 0
    ensures v.bins[j] in v.cell && Searched(v, nb, 0, v.bins[j]) && AllFit(v, nb, v.bins[j])
  {
    hide Covers, TreeIndexOf, RootHeight, Inv, Under, BinOk, NodeOk, ParentOk, ChildOk, RingOk, AllFit;
    RootOf(v, j);
    var t := v.bins[j];
    CoverOf(v, t);
    LaterBinFits(v, nb, t);
    forall u | Fits(v, u, nb)
      ensures Ahead(v, u, t)
    {
      CoverOf(v, u);
      RootHolds(v, u);
      BinOrder(v.size[u], nb);
      BinOrder(v.size[t], v.size[u]);
    }
  }

  lemma LaterBinFits(v: Trie, nb: nat, t: int)
    requires Inv(v) && LargeSize(nb) && t in v.cell && TreeIndexOf(nb) < v.cell[t].bin
    ensures AllFit(v, nb, t)
  {
    hide Covers, TreeIndexOf, RootHeight, Inv;
    forall u | Under(v, u, t)
      ensures v.size[u] >= nb
    {
      UnderBin(v, u, t);
      CoverOf(v, u);
      BinOrder(nb, v.size[u]);
    }
  }

  lemma RootOf(v: Trie, j: nat)
    requires Inv(v) && j < NTREEBINS && v.bins[j] != 0
    ensures |v.bins| == NTREEBINS && v.bins[j] in v.cell && v.cell[v.bins[j]].bin == j
    ensures v.cell[v.bins[j]].h == RootHeight(j)
  {
    assert BinOk(v, j);
  }

  lemma UnderBin(v: Trie, u: int, t: int)
    requires Inv(v) && Under(v, u, t)
    ensures v.cell[u].bin == v.cell[t].bin
  {
    hide TreeIndexOf, RootHeight;
    CoverOf(v, u);
  }

  lemma NoNextBin(v: Trie, nb: nat, i: nat)
    requires Inv(v) && LargeSize(nb) && i == TreeIndexOf(nb) && OnPath(v, nb, i, 0, 0, 0)
    requires forall k :: i < k < NTREEBINS ==> v.bins[k] == 0
    ensures Searched(v, nb, 0, 0)
  {
    hide Covers, TreeIndexOf, RootHeight, Inv, Under;
    forall u | Fits(v, u, nb)
      ensures false
    {
      CoverOf(v, u);
      RootHolds(v, u);
      BinOrder(v.size[u], nb);
    }
  }

  /** No chunk is as large as 2^40. */
  lemma HugeFitsNone(v: Trie, nb: nat)
    requires Inv(v) && nb >= INDEX_LIMIT
    ensures forall u :: !Fits(v, u, nb)
  {
    hide Covers;
    forall u | Fits(v, u, nb)
      ensures false
    {
      CoverOf(v, u);
    }
  }

  /** An exact fit cannot be improved. */
  lemma ExactIsBest(v: Trie, nb: nat, best: int)
    requires Fits(v, best, nb) && v.size[best] == nb && best != 0
    ensures Best(v, nb, best)
  {
  }

  lemma LeftmostLower(v: Trie, t: int)
    requires Inv(v) && t in v.cell && t in v.node
    ensures var c := Leftmost(v.node[t]); c != 0 ==> c in v.cell && v.cell[c].h < v.cell[t].h
  {
    hide Covers, RootHeight;
    ChildCells(v, t);
  }

  /** At the end of a search the chosen chunk is best. */
  lemma SearchEnd(v: Trie, nb: nat, best: int, rsize: nat)
    requires Inv(v) && Chosen(v, nb, best, rsize)
    requires rsize == 0 || nb >= INDEX_LIMIT || Searched(v, nb, best, 0)
    ensures Best(v, nb, best)
  {
    hide Covers, Inv;
    if rsize == 0 {
      ExactIsBest(v, nb, best);
    } else if nb >= INDEX_LIMIT {
      HugeFitsNone(v, nb);
    }
  }

  /** Unsigned 64-bit subtraction. */
  function Sub64(a: nat, b: nat): nat {
    (a - b) % SIZE_LIMIT
  }

  /** The wrapped remainders compare as intended: a chunk that is too small never looks like an improvement. */
  lemma WrappedOrder(v: Trie, nb: nat, t: int, best: int, rsize: nat)
    requires Inv(v) && t in v.cell && 0 < nb && Chosen(v, nb, best, rsize)
    ensures t in v.size && (best != 0 ==> best in v.size)
    ensures v.size[t] >= nb ==> Sub64(v.size[t], nb) == v.size[t] - nb
    ensures v.size[t] >= nb ==> (Sub64(v.size[t], nb) < rsize <==> best == 0 || v.size[t] < v.size[best])
    ensures v.size[t] < nb ==> Sub64(v.size[t], nb) >= rsize
  {
    hide Covers, Inv, Sub64;
    CoverOf(v, t);
    if best != 0 { CoverOf(v, best); }
    WrappedDifference(v.size[t], nb);
  }

  lemma WrappedDifference(a: nat, nb: nat)
    requires a < SIZE_LIMIT && nb < SIZE_LIMIT
    ensures Sub64(a, nb) == if a >= nb then a - nb else a - nb + SIZE_LIMIT
  {
    if a >= nb {
      ModUnique(a - nb, SIZE_LIMIT, 0, a - nb);
    } else {
      ModUnique(a - nb, SIZE_LIMIT, -1, a - nb + SIZE_LIMIT);
    }
  }

  lemma WrappedZero(nb: nat)
    requires 0 < nb < SIZE_LIMIT
    ensures Sub64(0, nb) == SIZE_LIMIT - nb
  {
    ModUnique(0 - nb, SIZE_LIMIT, -1, SIZE_LIMIT - nb);
  }

  /** What the descent along the bits of nb has established on reaching t. */
  ghost predicate Descending(v: Trie, nb: nat, t: int, best: int, rst: int)
    requires t in v.cell
  {
    LargeSize(nb) ==> Covers(v.cell[t], nb) && RightOf(v, t, rst) && OnPath(v, nb, v.cell[t].bin, best, t, rst)
  }

  /** What it has established when it falls off the trie. */
  ghost predicate Descended(v: Trie, nb: nat, bin: nat, best: int, rst: int) {
    LargeSize(nb) ==>
      && OnPath(v, nb, bin, best, 0, rst)
      && (rst != 0 ==> rst in v.size && v.size[rst] > nb && AllFit(v, nb, rst))
  }

  /** Looking at t: the choice afterwards beats t, if t fits, and the choice before. */
  lemma LookAt(v: Trie, nb: nat, t: int, was: int, wasSize: nat) returns (best: int)
    requires Inv(v) && t in v.cell && 0 < nb && Chosen(v, nb, was, wasSize)
    ensures t in v.size && best == (if Sub64(v.size[t], nb) < wasSize then t else was)
    ensures Chosen(v, nb, best, if Sub64(v.size[t], nb) < wasSize then Sub64(v.size[t], nb) else wasSize)
    ensures was != 0 ==> Beats(v, best, was)
    ensures v.size[t] >= nb ==> Beats(v, best, t)
    ensures nb >= INDEX_LIMIT ==> best == 0
    ensures best != 0 ==> best in v.cell && (best == was || best == t)
  {
    hide Inv, Covers, Sub64;
    WrappedOrder(v, nb, t, was, wasSize);
    CoverOf(v, t);
    best := if Sub64(v.size[t], nb) < wasSize then t else was;
    if nb >= INDEX_LIMIT { HugeFitsNone(v, nb); }
  }

  /** One step of the descent, for any request. */
  lemma StepBits(v: Trie, nb: nat, t: int, was: int, best: int, rst: int)
    requires Inv(v) && t in v.cell && t in v.node && t in v.size
    requires Descending(v, nb, t, was, rst)
    requires was != 0 ==> Beats(v, best, was)
    requires v.size[t] >= nb ==> Beats(v, best, t)
    ensures v.node[t].right != 0 ==> v.node[t].right in v.cell && v.cell[v.node[t].right].bin == v.cell[t].bin
    ensures var c, r := NextChild(v, nb, t), NextFallback(v, nb, t, rst);
            if c != 0 then
              && c in v.cell && v.cell[t].h > 0 && v.cell[c].h == v.cell[t].h - 1 && v.cell[c].bin == v.cell[t].bin
              && Descending(v, nb, c, best, r)
            else Descended(v, nb, v.cell[t].bin, best, r)
  {
    hide Inv, Covers, RootHeight, DecidingBit, RightOf, Under;
    ChildCells(v, t);
    if LargeSize(nb) {
      assert OnPath(v, nb, v.cell[t].bin, best, t, rst);
      PathGeometry(v, nb, t, rst);
      PathDescend(v, nb, best, t, rst);
      var r := NextFallback(v, nb, t, rst);
      if r != 0 { RightFits(v, nb, r); }
    }
  }

  lemma BeatsBoth(v: Trie, best: int, was: int, t: int)
    requires was != 0 && was in v.size && t != 0 && t in v.size
    requires best == if v.size[t] < v.size[was] then t else was
    ensures Beats(v, best, t) && Beats(v, best, was)
  {
  }

  /** The lowest bin that is not empty holds the smallest chunk of all. */
  lemma FirstBin(v: Trie, nb: nat, i: nat)
    requires Inv(v) && i < NTREEBINS && v.bins[i] != 0 && forall k :: 0 <= k < i ==> v.bins[k] == 0
    requires v.bins[i] in v.cell && v.bins[i] in v.node
    ensures Searched(v, nb, v.bins[i], Leftmost(v.node[v.bins[i]]))
  {
    hide Covers, TreeIndexOf, RootHeight, Under, BinOk, NodeOk, ParentOk, ChildOk, RingOk;
    var t := v.bins[i];
    RootOf(v, i);
    CoverOf(v, t);
    forall u | Fits(v, u, nb)
      ensures Ahead(v, u, t)
    {
      CoverOf(v, u);
      RootHolds(v, u);
      BinOrder(v.size[t], v.size[u]);
    }
    LeftmostStep(v, nb, 0, t, t);
  }

  lemma AllLarge(v: Trie, nb: nat, best: int)
    requires Inv(v) && best != 0 && best in v.cell && nb < MIN_LARGE_SIZE && Searched(v, nb, best, 0)
    ensures Best(v, nb, best)
    ensures forall u :: u in v.cell ==> Fits(v, u, nb)
  {
    hide Covers, TreeIndexOf, Inv;
    forall u | u in v.cell
      ensures Fits(v, u, nb)
    {
      CoverOf(v, u);
    }
  }
}
