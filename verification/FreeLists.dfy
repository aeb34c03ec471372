/**
 The singly linked free lists of the buddy allocator as values: list heads, next_free links
 (both indexed by page number) and the block sets they stand for. The list of order k
 is linked in ascending order, so each link names the least greater block of its set.
 */
module FreeLists {
  import opened Powers
  import opened Blocks

  /** r is the least member of s above p, or NULL when there is none. */
  ghost predicate IsSucc(s: set<int>, p: int, r: int) {
    if r == NULL then forall q :: q in s ==> q <= p
    else r in s && p < r && forall q :: q in s ==> !(p < q < r)
  }

  /** If p is a block of s, its next_free link names the next block of s. */
  ghost predicate LinkedFrom(next: seq<int>, s: set<int>, p: int) {
    p in s ==> 0 <= p < |next| && IsSucc(s, p, next[p])
  }

  /** The lists hold exactly b, ascending and null-terminated; descriptors in no list have a null link. */
  ghost predicate Linked(areas: seq<int>, next: seq<int>, b: BlockSets) {
    && |areas| == ORDERS
    && (forall k :: 0 <= k < ORDERS ==> IsSucc(b[k], NULL, areas[k]))
    && (forall k, p {:trigger LinkedFrom(next, b[k], p)} :: 0 <= k < ORDERS ==> LinkedFrom(next, b[k], p))
    && (forall p :: 0 <= p < |next| && next[p] != NULL ==> InSomeList(b, p))
  }

  /** A descriptor is in at most one list. */
  ghost predicate Exclusive(b: BlockSets) {
    forall j, k, p :: 0 <= j < ORDERS && 0 <= k < ORDERS && p in b[j] && p in b[k] ==> j == k
  }

  lemma StructuredExclusive(n: nat, b: BlockSets)
    requires Structured(n, b)
    ensures Exclusive(b)
  {
    forall j, k, p | 0 <= j < ORDERS && 0 <= k < ORDERS && p in b[j] && p in b[k]
      ensures j == k
    {
      OneList(n, b, p, j, k);
    }
  }

  /** What the pointer found at a link position: the list head (at NULL) or a block's next_free. */
  function At(areas: seq<int>, next: seq<int>, k: nat, pos: int): int
    requires k < |areas| && (pos == NULL || 0 <= pos < |next|)
  {
    if pos == NULL then areas[k] else next[pos]
  }

  lemma LinkInsert(areas: seq<int>, next: seq<int>, b: BlockSets, k: nat, pos: int, p: int,
                   areas': seq<int>, next': seq<int>)
    requires Linked(areas, next, b) && Exclusive(b) && k < ORDERS
    requires 0 <= p < |next| && !InSomeList(b, p)
    requires pos == NULL || (pos in b[k] && 0 <= pos < |next|)
    requires pos < p && (At(areas, next, k, pos) == NULL || p < At(areas, next, k, pos))
    requires areas' == if pos == NULL then areas[k := p] else areas
    requires next' == if pos == NULL then next[p := areas[k]] else next[p := next[pos]][pos := p]
    ensures Linked(areas', next', With(b, k, p)) && Exclusive(With(b, k, p))
  {
    var b' := With(b, k, p);
    var r := At(areas, next, k, pos);
    assert p in b'[k];
    assert LinkedFrom(next, b[k], pos);
    assert IsSucc(b'[k], p, r);
    assert IsSucc(b'[k], pos, p);
    forall j | 0 <= j < ORDERS
      ensures IsSucc(b'[j], NULL, areas'[j])
    {
    }
    forall j, q | 0 <= j < ORDERS
      ensures LinkedFrom(next', b'[j], q)
    {
      assert LinkedFrom(next, b[j], q);
    }
    forall q | 0 <= q < |next'| && next'[q] != NULL
      ensures InSomeList(b', q)
    {
      if q != p && q != pos {
        var j :| 0 <= j < ORDERS && q in b[j];
        assert q in b'[j];
      }
    }
  }

  lemma LinkRemove(areas: seq<int>, next: seq<int>, b: BlockSets, k: nat, pos: int, p: int,
                   areas': seq<int>, next': seq<int>)
    requires Linked(areas, next, b) && Exclusive(b) && k < ORDERS
    requires p in b[k] && 0 <= p < |next|
    requires pos == NULL || (pos in b[k] && 0 <= pos < |next|)
    requires At(areas, next, k, pos) == p
    requires areas' == if pos == NULL then areas[k := next[p]] else areas
    requires next' == if pos == NULL then next[p := NULL] else next[pos := next[p]][p := NULL]
    ensures Linked(areas', next', Without(b, k, p)) && Exclusive(Without(b, k, p))
  {
    var b' := Without(b, k, p);
    assert LinkedFrom(next, b[k], pos) && LinkedFrom(next, b[k], p);
    assert IsSucc(b'[k], pos, next[p]);
    forall j | 0 <= j < ORDERS
      ensures IsSucc(b'[j], NULL, areas'[j])
    {
    }
    forall j, q | 0 <= j < ORDERS
      ensures LinkedFrom(next', b'[j], q)
    {
      assert LinkedFrom(next, b[j], q);
    }
    forall q | 0 <= q < |next'| && next'[q] != NULL
      ensures InSomeList(b', q)
    {
      var j :| 0 <= j < ORDERS && q in b[j];
      assert q in b'[j];
    }
  }

  /** Unlinking two neighbours at once. */
  lemma LinkRemovePair(areas: seq<int>, next: seq<int>, b: BlockSets, k: nat, pos: int, p: int, r: int,
                       areas': seq<int>, next': seq<int>)
    requires Linked(areas, next, b) && Exclusive(b) && k < ORDERS
    requires p in b[k] && 0 <= p < |next| && r in b[k] && 0 <= r < |next| && next[p] == r && p < r
    requires pos == NULL || (pos in b[k] && 0 <= pos < |next| && pos < p)
    requires At(areas, next, k, pos) == p
    requires areas' == if pos == NULL then areas[k := next[r]] else areas
    requires next' == (if pos == NULL then next else next[pos := next[r]])[r := NULL][p := NULL]
    ensures Linked(areas', next', Without(Without(b, k, p), k, r))
    ensures Exclusive(Without(Without(b, k, p), k, r))
  {
    var a1 := if pos == NULL then areas[k := next[p]] else areas;
    var n1 := if pos == NULL then next[p := NULL] else next[pos := next[p]][p := NULL];
    LinkRemove(areas, next, b, k, pos, p, a1, n1);
    assert areas' == if pos == NULL then a1[k := n1[r]] else a1;
    assert next' == if pos == NULL then n1[r := NULL] else n1[pos := n1[r]][r := NULL];
    LinkRemove(a1, n1, Without(b, k, p), k, pos, r, areas', next');
  }

  /** The heads and links are determined by the sets of blocks. */
  lemma LinksDetermined(areas: seq<int>, next: seq<int>, areas': seq<int>, next': seq<int>, b: BlockSets)
    requires Linked(areas, next, b) && Linked(areas', next', b) && |next| == |next'|
    ensures areas == areas' && next == next'
  {
    forall k | 0 <= k < ORDERS
      ensures areas[k] == areas'[k]
    {
      assert IsSucc(b[k], NULL, areas[k]) && IsSucc(b[k], NULL, areas'[k]);
    }
    forall p | 0 <= p < |next|
      ensures next[p] == next'[p]
    {
      if InSomeList(b, p) {
        var k :| 0 <= k < ORDERS && p in b[k];
        assert LinkedFrom(next, b[k], p) && LinkedFrom(next', b[k], p);
      }
    }
  }

  // ---------- the lists as sequences ----------

  /** The blocks met by following next_free from p to the null link. */
  ghost function Walk(next: seq<int>, p: int): (s: seq<int>)
    decreases |next| - p
  {
    if p < 0 || p >= |next| || next[p] <= p then
      (if 0 <= p < |next| then [p] else [])
    else [p] + Walk(next, next[p])
  }

  ghost predicate Ascending(s: seq<int>) {
    forall i, j :: 0 <= i < j < |s| ==> s[i] < s[j]
  }

  lemma {:induction false} WalkFrom(areas: seq<int>, next: seq<int>, b: BlockSets, k: nat, p: int)
    requires Linked(areas, next, b) && k < ORDERS
    requires p == NULL || (p >= 0 && p in b[k])
    ensures Ascending(Walk(next, p))
    ensures forall q :: q in Walk(next, p) <==> p != NULL && q in b[k] && p <= q
    decreases |next| - p
  {
    if p != NULL {
      assert LinkedFrom(next, b[k], p);
      var r := next[p];
      if r != NULL {
        WalkFrom(areas, next, b, k, r);
        var w := Walk(next, r);
        assert Walk(next, p) == [p] + w;
        assert forall i :: 0 <= i < |w| ==> w[i] in w;
      } else {
        assert Walk(next, p) == [p];
      }
    }
  }

  /** Following the list of order k lists its blocks once each, in ascending order. */
  lemma WalkListsBlocks(areas: seq<int>, next: seq<int>, b: BlockSets, k: nat)
    requires Linked(areas, next, b) && k < ORDERS
    ensures var s := Walk(next, areas[k]);
            && Ascending(s)
            && (set q | q in s) == b[k]
  {
    assert IsSucc(b[k], NULL, areas[k]);
    WalkFrom(areas, next, b, k, areas[k]);
    forall q | q in b[k]
      ensures 0 <= q && NULL != areas[k] <= q
    {
      assert LinkedFrom(next, b[k], q);
    }
    var s := Walk(next, areas[k]);
    assert forall q :: q in (set r | r in s) <==> q in b[k];
  }

  lemma PairGeometry(k: nat, page: int, buddy: int)
    requires Aligned(page, k) && Aligned(buddy, k) && buddy != page
    requires Base(buddy, k + 1) == Base(page, k + 1)
    ensures Aligned(buddy, k + 1) <==> buddy < page
    ensures Aligned(page, k + 1) <==> page < buddy
    ensures Base(page, k + 1) == if buddy < page then buddy else page
    ensures if buddy < page then buddy + Pow2(k) == page else page + Pow2(k) == buddy
    ensures 0 <= page ==> 0 <= buddy
  {
    var left := Base(page, k + 1);
    BaseSign(page, k + 1);
    BaseAligned(page, k + 1);
    BaseAligned(buddy, k + 1);
    BaseAligned(page, k);
    BaseAligned(buddy, k);
    Halves(left, k);
    assert Base(page, k + 1) == left && Base(buddy, k + 1) == left;
  }

  /** A free right buddy is what its left buddy links to. */
  lemma AdjacentLinked(n: nat, areas: seq<int>, next: seq<int>, b: BlockSets, k: nat, p: int)
    requires Structured(n, b) && Linked(areas, next, b)
    requires k < ORDERS && p in b[k] && p + Pow2(k) in b[k]
    ensures 0 <= p < |next| && next[p] == p + Pow2(k)
  {
    assert LinkedFrom(next, b[k], p);
    if next[p] != p + Pow2(k) {
      AlignedGap(p, next[p], k);
    }
  }

  /** A link into the list of order k comes from a block of order k. */
  lemma LinkSource(n: nat, areas: seq<int>, next: seq<int>, b: BlockSets, k: nat, p: int)
    requires Structured(n, b) && Linked(areas, next, b)
    requires k < ORDERS && 0 <= p < |next| && next[p] in b[k]
    ensures p in b[k] && p < next[p]
  {
    var j :| 0 <= j < ORDERS && p in b[j];
    assert LinkedFrom(next, b[j], p);
    OneList(n, b, next[p], j, k);
  }

  lemma LinkBounds(n: nat, areas: seq<int>, next: seq<int>, b: BlockSets, k: nat, p: int)
    requires Structured(n, b) && Linked(areas, next, b) && |next| == n + 1 && k < ORDERS && p in b[k]
    ensures 0 <= p < n && p + Pow2(k) <= n && Aligned(p, k) && (next[p] in b[k] || next[p] == NULL)
    ensures next[p] in b[k] ==> p < next[p]
    ensures forall q :: q in b[k] ==> 0 <= q < n
  {
    assert LinkedFrom(next, b[k], p);
  }

  /**
   Whether two buddies are both free can be read off their links: one links to the other,
   the left one to the right one, exactly when both are in the list of that order.
   */
  lemma PointerTestExact(n: nat, areas: seq<int>, next: seq<int>, b: BlockSets, k: nat, page: int, buddy: int)
    requires Structured(n, b) && Linked(areas, next, b) && |next| == n + 1
    requires k + 1 < ORDERS && page in b[k] && buddy != page
    requires Base(buddy, k + 1) == Base(page, k + 1) && Aligned(buddy, k)
    ensures 0 <= page < n && 0 <= buddy <= n
    ensures (next[buddy] == page && Aligned(buddy, k + 1)) || next[page] == buddy <==> buddy in b[k]
    ensures next[buddy] == page && Aligned(buddy, k + 1) <==>
            BuddyPair(b, k, buddy) && Base(page, k + 1) == buddy
    ensures next[page] == buddy <==> BuddyPair(b, k, page) && Base(page, k + 1) == page
    ensures buddy in b[k] <==> BuddyPair(b, k, Base(page, k + 1))
  {
    hide Aligned, Base, Pow2, Linked, Structured, LinkedFrom;
    LinkBounds(n, areas, next, b, k, page);
    PairGeometry(k, page, buddy);
    if next[buddy] == page {
      LinkSource(n, areas, next, b, k, buddy);
    }
    if buddy in b[k] {
      AdjacentLinked(n, areas, next, b, k, if buddy < page then buddy else page);
    }
  }

  lemma AlignedGap(p: int, r: int, k: nat)
    requires Aligned(p, k) && Aligned(r, k) && p < r
    ensures p + Pow2(k) <= r
  {
    BaseUnique(p, r, k);
    BaseAligned(r, k);
  }
}
