/**
 The buddy page allocator: free lists of aligned blocks of 2^0 to 2^16 pages, linked through
 the page descriptors' next_free field, with recursive splitting and merging.
 Descriptors are named by page-frame number. There is one descriptor more than pages:
 the buddy of the last block may be one past the end, and its link is always null.
 */
module Buddy {
  import opened Powers
  import opened Blocks
  import opened FreeLists

  /** The C type int. */
  type CInt = x: int | -0x8000_0000 <= x < 0x8000_0000

  /** A pointer to a link: a list head, or the next_free field of a descriptor. */
  datatype Slot = AreaSlot(order: nat) | NextSlot(page: nat)

  lemma AlignedBuddy(page: int, k: nat)
    requires Aligned(page, k)
    ensures Aligned(page, k + 1) ==> Base(page, k + 1) == page
    ensures !Aligned(page, k + 1) ==> Base(page, k + 1) == page - Pow2(k) && Aligned(page - Pow2(k), k + 1)
    ensures Aligned(page, k + 1) ==> !Aligned(page + Pow2(k), k + 1)
  {
    if Aligned(page, k + 1) {
      Halves(page, k);
    } else {
      RightHalf(page, k);
    }
  }

  class BuddyPageAllocator {
    const nrPages: nat
    const areas: array<int>
    const next: array<int>
    ghost var blocks: BlockSets

    ghost predicate Chained()
      reads this, areas, next
    {
      && areas != next && areas.Length == ORDERS && next.Length == nrPages + 1
      && Linked(areas[..], next[..], blocks)
      && Exclusive(blocks)
    }

    /** The lists are well linked and hold disjoint aligned blocks. */
    ghost predicate Lists()
      reads this, areas, next
    {
      Chained() && Structured(nrPages, blocks)
    }

    /** The state between calls: also, no two free blocks could be merged. */
    ghost predicate Valid()
      reads this, areas, next
    {
      Lists() && NoBuddies(blocks)
    }

    ghost function Free(): set<int>
      reads this
    {
      FreeSet(nrPages, blocks)
    }

    constructor (n: nat)
      ensures Valid() && nrPages == n && Free() == {}
      ensures fresh(areas) && fresh(next)
      ensures blocks == seq(ORDERS, _ => {})
    {
      nrPages := n;
      areas := new int[ORDERS](_ => NULL);
      next := new int[n + 1](_ => NULL);
      blocks := seq(ORDERS, _ => {});
    }

    ghost predicate SlotOk(slot: Slot, order: nat)
      reads this, areas, next
      requires Chained() && order < ORDERS
    {
      match slot
      case AreaSlot(k) => k == order
      case NextSlot(p) => p in blocks[order]
    }

    /** The link position a slot of the order's list stands for. */
    function Position(slot: Slot): int {
      match slot
      case AreaSlot(_) => NULL
      case NextSlot(p) => p
    }

    /** *slot */
    function Deref(slot: Slot): int
      reads areas, next
      requires match slot case AreaSlot(k) => k < areas.Length case NextSlot(p) => p < next.Length
    {
      match slot
      case AreaSlot(k) => areas[k]
      case NextSlot(p) => next[p]
    }

    /** *slot = page */
    method Assign(slot: Slot, page: int)
      requires areas != next
      requires match slot case AreaSlot(k) => k < areas.Length case NextSlot(p) => p < next.Length
      modifies areas, next
      ensures areas[..] == if slot.AreaSlot? then old(areas[..])[slot.order := page] else old(areas[..])
      ensures next[..] == if slot.NextSlot? then old(next[..])[slot.page := page] else old(next[..])
    {
      match slot
      case AreaSlot(k) => areas[k] := page;
      case NextSlot(p) => next[p] := page;
    }

    lemma MemberInRange(k: nat, p: int)
      requires Chained() && k < ORDERS && p in blocks[k]
      ensures 0 <= p < next.Length && IsSucc(blocks[k], p, next[p])
    {
      assert LinkedFrom(next[..], blocks[k], p);
    }

    /** The other half of the next order's block; NULL when the order or the alignment is wrong. */
    function BuddyOf(pgd: int, order: nat): (buddy: int)
      ensures order < ORDERS && Aligned(pgd, order) ==>
        && buddy != pgd && Aligned(buddy, order) && Base(buddy, order + 1) == Base(pgd, order + 1)
        && (Aligned(buddy, order + 1) <==> buddy < pgd)
        && (Aligned(pgd, order + 1) <==> pgd < buddy)
    {
      if order >= ORDERS then NULL
      else if !Aligned(pgd, order) then NULL
      else
        AlignedBuddy(pgd, order);
        Halves(Base(pgd, order + 1), order);
        if Aligned(pgd, order + 1) then pgd + Pow2(order) else pgd - Pow2(order)
    }

    /** Inserts a page not in any list, keeping the list ascending. */
    method InsertBlock(pgd: nat, order: nat) returns (slot: Slot)
      requires Chained() && order < ORDERS
      requires pgd < next.Length && !InSomeList(blocks, pgd)
      modifies this`blocks, areas, next
      ensures Chained() && blocks == With(old(blocks), order, pgd)
      ensures SlotOk(slot, order)
      ensures slot.NextSlot? ==> slot.page < next.Length
      ensures Deref(slot) == pgd
    {
      ghost var a, x := areas[..], next[..];
      slot := AreaSlot(order);
      while Deref(slot) != NULL && pgd > Deref(slot)
        invariant SlotOk(slot, order) && Position(slot) < pgd
        invariant IsSucc(blocks[order], Position(slot), Deref(slot))
        decreases pgd - Position(slot)
        modifies {}
      {
        MemberInRange(order, Deref(slot));
        slot := NextSlot(Deref(slot));
      }
      assert Deref(slot) != pgd;
      next[pgd] := Deref(slot);
      Assign(slot, pgd);
      LinkInsert(a, x, blocks, order, Position(slot), pgd, areas[..], next[..]);
      blocks := With(blocks, order, pgd);
    }

    /** Takes a block off its list. */
    method RemoveBlock(pgd: nat, order: nat)
      requires Chained() && order < ORDERS && pgd in blocks[order]
      modifies this`blocks, areas, next
      ensures Chained() && blocks == Without(old(blocks), order, pgd)
    {
      ghost var a, x := areas[..], next[..];
      MemberInRange(order, pgd);
      var slot := AreaSlot(order);
      while Deref(slot) != NULL && pgd != Deref(slot)
        invariant SlotOk(slot, order) && Position(slot) < pgd
        invariant IsSucc(blocks[order], Position(slot), Deref(slot))
        decreases pgd - Position(slot)
        modifies {}
      {
        MemberInRange(order, Deref(slot));
        slot := NextSlot(Deref(slot));
      }
      assert Deref(slot) == pgd;
      Assign(slot, next[pgd]);
      next[pgd] := NULL;
      LinkRemove(a, x, blocks, order, Position(slot), pgd, areas[..], next[..]);
      blocks := Without(blocks, order, pgd);
    }

    /** Links the right half of a split directly behind its left half. */
    method LinkAfter(left: int, buddy: int, k: nat)
      requires Chained() && k < ORDERS && left in blocks[k]
      requires 0 <= buddy < next.Length && !InSomeList(blocks, buddy)
      requires left < buddy && forall r :: r in blocks[k] ==> r <= left || buddy < r
      modifies this`blocks, areas, next
      ensures Chained() && blocks == With(old(blocks), k, buddy)
    {
      ghost var a, x := areas[..], next[..];
      MemberInRange(k, left);
      next[buddy] := next[left];
      next[left] := buddy;
      LinkInsert(a, x, blocks, k, left, buddy, areas[..], next[..]);
      blocks := With(blocks, k, buddy);
    }

    /** Splits a listed block into its two halves, both listed one order below. */
    method SplitBlock(pgd: nat, sourceOrder: nat) returns (left: int)
      requires Lists() && 0 < sourceOrder < ORDERS && pgd in blocks[sourceOrder]
      modifies this`blocks, areas, next
      ensures Lists() && blocks == Split(old(blocks), sourceOrder - 1, pgd)
      ensures Free() == old(Free())
      ensures left == pgd
    {
      ghost var b := blocks;
      var k := sourceOrder - 1;
      SplitKeeps(nrPages, b, k, pgd);
      Halves(pgd, k);
      RemoveBlock(pgd, sourceOrder);
      var slot := InsertBlock(pgd, k);
      left := Deref(slot);
      var buddy := BuddyOf(left, k);
      forall r | r in blocks[k]
        ensures r <= left || buddy < r
      {
        if r > left {
          AlignedGap(left, r, k);
        }
      }
      LinkAfter(left, buddy, k);
      StructuredExclusive(nrPages, blocks);
    }

    /** Follows the list to a block; before is the one in front of it, if there is one. */
    method FindBlock(page: nat, order: nat) returns (before: int, node: int)
      requires Lists() && order < ORDERS && page in blocks[order]
      ensures node == page && areas[order] in blocks[order]
      ensures areas[order] != page ==>
                before in blocks[order] && 0 <= before < next.Length && next[before] == page && before < page
    {
      hide Aligned, Base, Pow2, Exclusive, Disjoint, Shape;
      MemberInRange(order, page);
      node := areas[order];
      before := node;
      ghost var pos := NULL;
      while node != NULL && node != page
        invariant IsSucc(blocks[order], pos, node) && pos < page
        invariant if pos == NULL then node == areas[order] else
          pos in blocks[order] && 0 <= pos < next.Length && before == pos && next[pos] == node && areas[order] <= pos
        invariant areas[order] in blocks[order]
        decreases page - pos
      {
        MemberInRange(order, node);
        pos := node;
        before := node;
        node := next[node];
      }
    }

    /** Replaces two listed buddies by their union, listed one order above. */
    method MergeBlock(left: nat, sourceOrder: nat) returns (slot: Slot)
      requires Lists() && sourceOrder + 1 < ORDERS && BuddyPair(blocks, sourceOrder, left)
      modifies this`blocks, areas, next
      ensures Lists() && blocks == Merged(old(blocks), sourceOrder, left)
      ensures Free() == old(Free())
      ensures slot.NextSlot? ==> slot.page < next.Length
      ensures slot.AreaSlot? ==> slot.order < areas.Length
      ensures Deref(slot) == left
    {
      hide Aligned, Base, Pow2, Linked, Exclusive, Disjoint, Shape;
      ghost var b, a, x := blocks, areas[..], next[..];
      var k := sourceOrder;
      ghost var right := left + Pow2(k);
      MergeKeeps(nrPages, b, k, left);
      MemberInRange(k, left);
      MemberInRange(k, right);
      AdjacentLinked(nrPages, a, x, b, k, left);
      var before, node := FindBlock(left, k);
      ghost var pos := if left == areas[k] then NULL else before;
      if node == areas[k] {
        areas[k] := next[next[node]];
      } else {
        next[before] := next[next[node]];
      }
      next[next[node]] := NULL;
      next[node] := NULL;
      LinkRemovePair(a, x, b, k, pos, left, right, areas[..], next[..]);
      blocks := Without(Without(blocks, k, left), k, right);
      slot := InsertBlock(left, k + 1);
    }

    /** Merges the block at page with its buddy, and the result with its own, as long as both are free. */
    method TryMerge(page: nat, order: nat)
      requires Lists() && order < ORDERS && page in blocks[order] && OnlyPairsAround(blocks, page)
      modifies this`blocks, areas, next
      ensures Valid() && Free() == old(Free())
      decreases ORDERS - order
    {
      hide Aligned, Base, Pow2, Linked, Exclusive, OnlyPairsAround, Disjoint, BuddyOf;
      BaseAligned(page, order);
      if order >= ORDERS - 1 {
        PairsAroundNone(nrPages, blocks, page, order);
        return;
      }
      var buddy := BuddyOf(page, order);
      PointerTestExact(nrPages, areas[..], next[..], blocks, order, page, buddy);
      if next[buddy] == page && Aligned(buddy, order + 1) {
        MergePairs(nrPages, blocks, order, buddy, page);
        var slot := MergeBlock(buddy, order);
        PairsShift(nrPages, blocks, order + 1, page);
        TryMerge(Deref(slot), order + 1);
      } else if next[page] == buddy {
        MergePairs(nrPages, blocks, order, page, page);
        var slot := MergeBlock(page, order);
        TryMerge(Deref(slot), order + 1);
      } else {
        PairsAroundNone(nrPages, blocks, page, order);
      }
    }

    /** Splits the block at page down to order `until`, always splitting the left half further. */
    method SplitToLeft(page: nat, order: nat, until: nat)
      requires Lists() && until <= order < ORDERS && page in blocks[order] && OnlyPairsAround(blocks, page)
      modifies this`blocks, areas, next
      ensures Lists() && Free() == old(Free())
      ensures page in blocks[until] && OnlyPairsAround(blocks, page)
      ensures forall r :: r in blocks[until] ==> r in old(blocks[until]) || page <= r
      decreases order
    {
      hide Aligned, Base, Pow2, Linked, Exclusive, OnlyPairsAround, Disjoint;
      if order > until {
        BlockBase(nrPages, blocks, page, order);
        SplitPairs(nrPages, blocks, order - 1, page, page);
        var left := SplitBlock(page, order);
        SplitToLeft(page, order - 1, until);
      }
    }

    /** Allocates the lowest 2^order pages of the lowest smallest block that is large enough. */
    method AllocPages(order: CInt) returns (pgd: int)
      requires Valid()
      modifies this`blocks, areas, next
      ensures Valid()
      ensures pgd != NULL <==> CanAllocate(old(Free()), order)
      ensures pgd == NULL ==> blocks == old(blocks) && areas[..] == old(areas[..]) && next[..] == old(next[..])
      ensures pgd != NULL ==>
        && Aligned(pgd, order) && 0 <= pgd && pgd + Pow2(order) <= nrPages
        && Run(pgd, order) <= old(Free()) && Free() == old(Free()) - Run(pgd, order)
        && exists o :: SmallestFit(old(Free()), order, o, pgd)
    {
      hide Aligned, Base, Pow2, Linked, Exclusive, Disjoint, MaximalFree;
      // The request is compared as an unsigned 64-bit number.
      var o: nat := if order < 0 then order + 0x1_0000_0000_0000_0000 else order;
      ghost var b := blocks;
      if 0 <= order < ORDERS {
        HeadsComplete(nrPages, blocks, order);
      }
      while o <= ORDERS - 1
        invariant 0 <= order <= o || o >= ORDERS
        invariant 0 <= order < ORDERS ==> forall j :: order <= j < o && j < ORDERS ==> blocks[j] == {}
        invariant unchanged(this) && unchanged(areas) && unchanged(next)
      {
        HeadIsLeast(o);
        if areas[o] != NULL {
          var p := areas[o];
          FirstHeadFits(nrPages, blocks, order, o, p);
          SplitToLeft(p, o, order);
          var ret := areas[order];
          HeadIsLeast(order);
          assert ret == p;
          BlockBase(nrPages, blocks, p, order);
          TakeBlock(nrPages, blocks, order, p);
          RemoveBlock(ret, order);
          return ret;
        }
        o := o + 1;
      }
      return NULL;
    }

    lemma HeadIsLeast(k: nat)
      requires Lists() && k < ORDERS
      ensures areas[k] == NULL <==> blocks[k] == {}
      ensures areas[k] != NULL ==>
                areas[k] in blocks[k] && 0 <= areas[k] && forall r :: r in blocks[k] ==> areas[k] <= r
    {
      var h := areas[..][k];
      assert IsSucc(blocks[k], NULL, h);
      forall r | r in blocks[k]
        ensures 0 <= r && h != NULL
      {
        BlockBase(nrPages, blocks, r, k);
      }
    }

    /** Frees 2^order pages, merging as far as possible. */
    method FreePages(pgd: nat, order: nat)
      requires Valid()
      requires order < ORDERS && Aligned(pgd, order) && pgd + Pow2(order) <= nrPages
      requires Run(pgd, order) !! Free()
      modifies this`blocks, areas, next
      ensures Valid()
      ensures Free() == old(Free()) + Run(pgd, order)
    {
      hide Aligned, Base, Pow2, Linked, Exclusive, Disjoint, Shape, OnlyPairsAround;
      AddGivesRun(nrPages, blocks, order, pgd);
      AddPairs(nrPages, blocks, order, pgd);
      var slot := InsertBlock(pgd, order);
      TryMerge(pgd, order);
    }

    /** Walks the list of the order for the block that holds page. */
    method SplitAround(pgd: nat, i: nat)
      requires Lists() && 0 < i < ORDERS && OnlyPairsAround(blocks, pgd)
      modifies this`blocks, areas, next
      ensures Lists() && OnlyPairsAround(blocks, pgd) && Free() == old(Free())
      ensures Base(pgd, i) !in blocks[i]
      ensures forall j :: 0 <= j < ORDERS && j != i - 1 && Base(pgd, j) in blocks[j] ==> Base(pgd, j) in old(blocks)[j]
      ensures Base(pgd, i) !in old(blocks)[i] ==> unchanged(this) && unchanged(areas) && unchanged(next)
    {
      hide Aligned, Base, Pow2, Linked, Exclusive, Disjoint, Shape, OnlyPairsAround;
      HeadIsLeast(i);
      var block := areas[i];
      while block != NULL && pgd >= block
        invariant block == NULL || (block in blocks[i] && 0 <= block)
        invariant forall r :: r in blocks[i] && (block == NULL || r < block) ==> r + Pow2(i) <= pgd
        invariant unchanged(this) && unchanged(areas) && unchanged(next)
        decreases if block == NULL then 0 else nrPages + 1 - block
      {
        MemberInRange(i, block);
        BlockBase(nrPages, blocks, block, i);
        if Pow2(i) + block > pgd {
          BaseUnique(block, pgd, i);
          SplitPairs(nrPages, blocks, i - 1, block, pgd);
          var _ := SplitBlock(block, i);
          return;
        }
        block := next[block];
      }
      BaseHalf(pgd, i);
    }

    /** Takes one page out of the free lists if it is free; otherwise changes nothing. */
    method ReservePage(pgd: nat) returns (reserved: bool)
      requires Valid()
      modifies this`blocks, areas, next
      ensures Valid()
      ensures reserved <==> pgd in old(Free())
      ensures reserved ==> Free() == old(Free()) - {pgd}
      ensures !reserved ==> unchanged(this) && unchanged(areas) && unchanged(next)
    {
      hide Aligned, Linked, Exclusive, Disjoint, Shape;
      ghost var wasFree := IsFree(blocks, pgd);
      InFree(pgd);
      var i := ORDERS - 1;
      while i > 0
        invariant 0 <= i < ORDERS
        invariant Lists() && OnlyPairsAround(blocks, pgd) && Free() == old(Free())
        invariant forall j :: i < j < ORDERS ==> Base(pgd, j) !in blocks[j]
        invariant !wasFree ==> unchanged(this) && unchanged(areas) && unchanged(next)
      {
        SplitAround(pgd, i);
        i := i - 1;
      }
      InFree(pgd);
      HeadIsLeast(0);
      assert Base(pgd, 0) == pgd;
      var b := areas[0];
      while b != NULL
        invariant b == NULL || (b in blocks[0] && 0 <= b)
        invariant forall r :: r in blocks[0] && (b == NULL || r < b) ==> r != pgd
        invariant forall j :: 0 < j < ORDERS ==> Base(pgd, j) !in blocks[j]
        invariant Lists() && OnlyPairsAround(blocks, pgd) && Free() == old(Free())
        invariant !wasFree ==> unchanged(this) && unchanged(areas) && unchanged(next)
        decreases if b == NULL then 0 else nrPages + 1 - b
      {
        MemberInRange(0, b);
        if b == pgd {
          TakeBlock(nrPages, blocks, 0, pgd);
          assert forall x :: InRun(x, pgd, 0) <==> x == pgd;
          RemoveBlock(b, 0);
          return true;
        }
        b := next[b];
      }
      PairsAroundNone(nrPages, blocks, pgd, 0);
      return false;
    }

    lemma InFree(pgd: nat)
      requires Lists()
      ensures pgd in Free() <==> IsFree(blocks, pgd)
    {
      if IsFree(blocks, pgd) {
        FreeInRange(nrPages, blocks, pgd);
      }
    }

    /** Links a block behind the last one of its order. */
    method AppendBlock(last: int, page: nat, order: nat)
      requires Lists() && order < ORDERS && page + Pow2(order) <= nrPages && Aligned(page, order)
      requires Prefix(Free(), page)
      requires LastOf(last, order)
      modifies this`blocks, areas, next
      ensures Lists() && blocks == With(old(blocks), order, page)
      ensures Prefix(Free(), page + Pow2(order)) && LastOf(page, order)
    {
      hide Aligned, Base, Pow2, Disjoint, Shape;
      ghost var a, x := areas[..], next[..];
      HeadIsLeast(order);
      PrefixRun(Free(), page, order);
      AddGivesRun(nrPages, blocks, order, page);
      forall r | r in blocks[order]
        ensures r < page
      {
        BlockIsFree(nrPages, blocks, r, order);
        assert r in Free();
      }
      if last != NULL {
        LastLinksNull(last, order);
        next[last] := page;
      } else {
        areas[order] := page;
      }
      assert x[page] == NULL;
      LinkInsert(a, x, blocks, order, last, page, areas[..], next[..]);
      blocks := With(blocks, order, page);
    }

    /** last is the last block of the list, or NULL when the list is empty. */
    ghost predicate LastOf(last: int, order: nat)
      requires order < ORDERS
      reads this
    {
      if last == NULL then blocks[order] == {}
      else last in blocks[order] && forall r :: r in blocks[order] ==> r <= last
    }

    lemma LastLinksNull(last: int, order: nat)
      requires Chained() && order < ORDERS && last != NULL && LastOf(last, order)
      ensures 0 <= last < next.Length && next[last] == NULL && next[..][last := NULL] == next[..]
    {
      MemberInRange(order, last);
    }

    /** One round of initialisation: lists as many blocks of the order as still fit. */
    method InitOrder(order: nat, firstPage: nat, firstLeft: nat) returns (page: nat, pageLeft: nat)
      requires Lists() && order < ORDERS && Aligned(firstPage, order) && firstPage + firstLeft == nrPages
      requires order < ORDERS - 1 ==> firstLeft < 2 * Pow2(order)
      requires Prefix(Free(), firstPage) && blocks[order] == {}
      modifies this`blocks, areas, next
      ensures Lists() && Aligned(page, order) && page + pageLeft == nrPages && pageLeft < Pow2(order)
      ensures Prefix(Free(), page)
      ensures forall k :: 0 <= k < ORDERS && k != order ==> blocks[k] == old(blocks)[k]
      ensures order < ORDERS - 1 ==> forall p, q :: p in blocks[order] && q in blocks[order] ==> p == q
    {
      hide Aligned, Base, Pow2, Linked, Exclusive, Disjoint, Shape, Prefix;
      var currentPageSize := Pow2(order);
      page, pageLeft := firstPage, firstLeft;
      var last := NULL;
      while pageLeft >= currentPageSize
        invariant Lists() && page + pageLeft == nrPages && Aligned(page, order)
        invariant order < ORDERS - 1 ==> pageLeft < (if last == NULL then 2 else 1) * Pow2(order)
        invariant Prefix(Free(), page) && LastOf(last, order)
        invariant last != NULL && order < ORDERS - 1 ==> blocks[order] == {last}
        invariant forall k :: 0 <= k < ORDERS && k != order ==> blocks[k] == old(blocks)[k]
        decreases pageLeft
      {
        pageLeft := pageLeft - currentPageSize;
        AppendBlock(last, page, order);
        AlignedNext(page, order);
        last := page;
        page := page + currentPageSize;
      }
      if last != NULL {
        LastLinksNull(last, order);
        next[last] := NULL;
      }
    }

    /**
     Builds the free lists of a range of pages that are all free: as many blocks of the top order
     as fit, then at most one block of each lower order.
     */
    method Init(nrPageDescriptors: nat)
      requires Valid() && blocks == seq(ORDERS, _ => {}) && nrPageDescriptors == nrPages
      modifies this`blocks, areas, next
      ensures Valid()
      ensures Prefix(Free(), nrPages)
    {
      hide Aligned, Base, Linked, Exclusive, Disjoint, Shape;
      var order := ORDERS - 1;
      var page: nat := 0;
      var pageLeft: nat := nrPageDescriptors;
      AlignedZero(order);
      while pageLeft != 0 && order >= 0
        invariant -1 <= order < ORDERS && page + pageLeft == nrPages
        invariant if order >= 0 then Aligned(page, order) else pageLeft == 0
        invariant 0 <= order < ORDERS - 1 ==> pageLeft < 2 * Pow2(order)
        invariant Lists() && Prefix(Free(), page)
        invariant forall k :: 0 <= k <= order ==> blocks[k] == {}
        invariant forall k, p, q :: order < k < ORDERS - 1 && p in blocks[k] && q in blocks[k] ==> p == q
        decreases order + 1
      {
        page, pageLeft := InitOrder(order, page, pageLeft);
        if order > 0 {
          AlignedDown(page, order - 1, order);
        }
        order := order - 1;
      }
      AtMostOne(blocks);
    }

    lemma Determined(oldAreas: seq<int>, oldNext: seq<int>, oldBlocks: BlockSets)
      requires Valid() && |oldNext| == nrPages + 1
      requires Linked(oldAreas, oldNext, oldBlocks) && Structured(nrPages, oldBlocks) && NoBuddies(oldBlocks)
      requires FreeSet(nrPages, oldBlocks) == Free()
      ensures areas[..] == oldAreas && next[..] == oldNext
    {
      CanonicalUnique(nrPages, blocks, oldBlocks);
      LinksDetermined(areas[..], next[..], oldAreas, oldNext, blocks);
    }
  }

  /** Freeing what was just allocated restores every list head and every link. */
  method AllocThenFree(a: BuddyPageAllocator, order: CInt)
    requires a.Valid()
    modifies a`blocks, a.areas, a.next
    ensures a.Valid() && a.areas[..] == old(a.areas[..]) && a.next[..] == old(a.next[..])
  {
    hide Aligned, Base, Pow2, Linked, Exclusive, Disjoint, Shape, SmallestFit, RunFree, NoBuddies;
    ghost var areas, next, blocks := a.areas[..], a.next[..], a.blocks;
    var pgd := a.AllocPages(order);
    if pgd != NULL {
      a.FreePages(pgd, order);
      a.Determined(areas, next, blocks);
    }
  }

  /** Reserving a free page and freeing it again restores every list head and every link. */
  method ReserveThenFree(a: BuddyPageAllocator, pgd: nat)
    requires a.Valid() && pgd in a.Free()
    modifies a`blocks, a.areas, a.next
    ensures a.Valid() && a.areas[..] == old(a.areas[..]) && a.next[..] == old(a.next[..])
  {
    hide Linked, Exclusive, Disjoint, Shape, NoBuddies;
    ghost var areas, next, blocks := a.areas[..], a.next[..], a.blocks;
    var reserved := a.ReservePage(pgd);
    assert Pow2(0) == 1 && forall x :: InRun(x, pgd, 0) <==> x == pgd;
    a.FreePages(pgd, 0);
    a.Determined(areas, next, blocks);
  }

  /** An outstanding allocation: 2^order pages at page. */
  datatype Allocation = Allocation(page: nat, order: nat)

  ghost function Pages(rs: seq<Allocation>): set<int> {
    if rs == [] then {} else Run(rs[0].page, rs[0].order) + Pages(rs[1..])
  }

  /** Blocks that may be freed one after the other: aligned, in range, and no page twice or free already. */
  ghost predicate Freeable(n: nat, f: set<int>, rs: seq<Allocation>)
    decreases |rs|
  {
    rs == [] || (
      && rs[0].order < ORDERS && Aligned(rs[0].page, rs[0].order) && rs[0].page + Pow2(rs[0].order) <= n
      && Run(rs[0].page, rs[0].order) !! f
      && Freeable(n, f + Run(rs[0].page, rs[0].order), rs[1..]))
  }

  ghost predicate BlockFits(n: nat, r: Allocation) {
    r.order < ORDERS && Aligned(r.page, r.order) && r.page + Pow2(r.order) <= n
  }

  /** The same without an order: each block once, outside f, and apart from every other. */
  ghost predicate FreeableBag(n: nat, f: set<int>, m: multiset<Allocation>) {
    && (forall r :: r in m ==> BlockFits(n, r) && m[r] == 1 && Run(r.page, r.order) !! f)
    && forall r, s :: r in m && s in m && r != s ==> Run(r.page, r.order) !! Run(s.page, s.order)
  }

  /** Whether blocks may be freed does not depend on their order. */
  lemma {:induction false} FreeableAsBag(n: nat, f: set<int>, rs: seq<Allocation>)
    ensures Freeable(n, f, rs) <==> FreeableBag(n, f, multiset(rs))
    decreases |rs|
  {
    hide Aligned, Pow2, Run;
    if rs != [] {
      var r, t := rs[0], rs[1..];
      assert rs == [r] + t;
      FreeableAsBag(n, f + Run(r.page, r.order), t);
      FirstOfBag(n, f, r, multiset(t));
    }
  }

  lemma FirstOfBag(n: nat, f: set<int>, r: Allocation, m: multiset<Allocation>)
    ensures FreeableBag(n, f, multiset{r} + m) <==>
            BlockFits(n, r) && Run(r.page, r.order) !! f && FreeableBag(n, f + Run(r.page, r.order), m)
  {
    hide BlockFits, Run;
    var b := multiset{r} + m;
    assert forall s :: s in b <==> s == r || s in m;
    if FreeableBag(n, f, b) {
      assert r in b && b[r] == 1;
      assert r !in m;
      assert forall s :: s in m ==> s in b && b[s] == m[s] && s != r;
    }
    if BlockFits(n, r) && Run(r.page, r.order) !! f && FreeableBag(n, f + Run(r.page, r.order), m) {
      BlockNotEmpty(r);
      assert r !in m;
      assert forall s :: s in m ==> b[s] == m[s];
    }
  }

  lemma BlockNotEmpty(r: Allocation)
    ensures r.page in Run(r.page, r.order)
  {
    assert InRun(r.page, r.page, r.order);
  }

  method FreeAll(a: BuddyPageAllocator, rs: seq<Allocation>)
    requires a.Valid() && Freeable(a.nrPages, a.Free(), rs)
    modifies a`blocks, a.areas, a.next
    ensures a.Valid() && a.Free() == old(a.Free()) + Pages(rs)
    decreases |rs|
  {
    hide Aligned, Base, Pow2, Linked, Exclusive, Disjoint, Shape, NoBuddies;
    if rs != [] {
      a.FreePages(rs[0].page, rs[0].order);
      FreeAll(a, rs[1..]);
    }
  }

  lemma {:induction false} PagesOfBag(rs: seq<Allocation>, x: int)
    ensures x in Pages(rs) <==> exists r :: r in multiset(rs) && x in Run(r.page, r.order)
  {
    if rs != [] {
      assert rs == [rs[0]] + rs[1..];
      PagesOfBag(rs[1..], x);
    }
  }

  /**
   Two allocators in the same state that free the same blocks in different orders end with the same lists and links.
   */
  method FreeOrderIrrelevant(a: BuddyPageAllocator, b: BuddyPageAllocator, rs: seq<Allocation>, ss: seq<Allocation>)
    requires a.Valid() && b.Valid() && a.nrPages == b.nrPages && a.Free() == b.Free()
    requires {a.areas, a.next} !! {b.areas, b.next} && a != b
    requires Freeable(a.nrPages, a.Free(), rs) && multiset(rs) == multiset(ss)
    modifies a`blocks, a.areas, a.next, b`blocks, b.areas, b.next
    ensures a.Valid() && b.Valid() && a.areas[..] == b.areas[..] && a.next[..] == b.next[..]
  {
    hide Aligned, Base, Pow2, Linked, Exclusive, Disjoint, Shape, NoBuddies;
    FreeableAsBag(a.nrPages, a.Free(), rs);
    FreeableAsBag(a.nrPages, a.Free(), ss);
    FreeAll(a, rs);
    FreeAll(b, ss);
    forall x: int
      ensures x in Pages(rs) <==> x in Pages(ss)
    {
      PagesOfBag(rs, x);
      PagesOfBag(ss, x);
    }
    assert Pages(rs) == Pages(ss);
    a.Determined(b.areas[..], b.next[..], b.blocks);
  }
}
