/**
 The page allocator: one tag per page descriptor on top of the buddy algorithm.
 The tags and the algorithm's free lists always describe the same set of pages.
 */
module PageAllocation {
  import opened Powers
  import opened Blocks
  import opened Buddy

  datatype PageType = INVALID | RESERVED | AVAILABLE | ALLOCATED

  /** A run of physical page frames. */
  datatype PageRange = PageRange(base: nat, count: nat) {
    predicate Has(pfn: int) { base <= pfn < base + count }
    predicate Within(n: nat) { base + count <= n }
  }

  /** The firmware's memory map entry: usable memory is of type NORMAL. */
  datatype PhysicalMemoryBlock = PhysicalMemoryBlock(range: PageRange, normal: bool)

  /** The outcome of an allocation; the wrapper tags through the returned pointer without testing it for null. */
  datatype AllocOutcome = Pages(pgd: nat) | NullTagged

  /** sizeof(PageDescriptor) */
  const DESCRIPTOR_SIZE := 16

  function InitialTableRange(): PageRange { PageRange(1, 6) }

  /** The pages that hold the descriptor array, as reserved by the initialisation. */
  function DescriptorRange(heapStart: nat, nrPages: nat): PageRange {
    PageRange(heapStart, nrPages * DESCRIPTOR_SIZE / 4096 + 1)
  }

  /**
   The page of byte k of page p's descriptor; the descriptors lie one behind the other from the heap's first page
   on.
   */
  ghost function DescriptorPage(heapStart: nat, p: nat, k: nat): nat { (heapStart * 4096 + 16 * p + k) / 4096 }

  /** The reserved range holds every byte of the descriptors, and at most one page more. */
  lemma DescriptorsCovered(heapStart: nat, nrPages: nat)
    ensures forall p: nat, k: nat {:trigger DescriptorPage(heapStart, p, k)} :: p < nrPages && k < 16 ==>
              DescriptorRange(heapStart, nrPages).Has(DescriptorPage(heapStart, p, k))
    ensures nrPages > 0 ==> forall q :: DescriptorRange(heapStart, nrPages).Has(q) ==>
              heapStart <= q <= DescriptorPage(heapStart, nrPages - 1, 15) + 1
    ensures DescriptorRange(heapStart, nrPages).Has(heapStart)
  {
  }

  ghost predicate InNormalBlock(blocks: seq<PhysicalMemoryBlock>, pfn: int) {
    exists i :: 0 <= i < |blocks| && blocks[i].normal && blocks[i].range.Has(pfn)
  }

  class PageAllocator {
    const nrPages: nat
    const types: array<PageType>
    const algorithm: BuddyPageAllocator

    ghost function Footprint(): set<object> {
      {types, algorithm, algorithm.areas, algorithm.next}
    }

    /** The parts are in place; nothing about the tags. */
    ghost predicate Wired()
      reads algorithm, algorithm.areas, algorithm.next
    {
      && types.Length == nrPages && algorithm.nrPages == nrPages && algorithm.Valid()
    }

    ghost predicate Tagged(t: PageType, pgd: int, order: nat)
      reads types
    {
      0 <= pgd && pgd + Pow2(order) <= types.Length && forall i :: pgd <= i < pgd + Pow2(order) ==> types[i] == t
    }

    /** A page is in the algorithm's free lists iff it is tagged available. */
    ghost predicate Agreement()
      reads types, algorithm
    {
      forall p :: 0 <= p < types.Length ==> (types[p] == AVAILABLE <==> p in algorithm.Free())
    }

    ghost predicate Valid()
      reads Footprint()
    {
      Wired() && Agreement()
    }

    /** An allocator whose descriptors are zeroed and whose algorithm has not been initialised. */
    constructor (n: nat)
      ensures Wired() && nrPages == n && fresh(Footprint())
      ensures algorithm.blocks == seq(ORDERS, _ => {})
      ensures forall p :: 0 <= p < n ==> types[p] == INVALID
    {
      nrPages := n;
      types := new PageType[n](_ => INVALID);
      algorithm := new BuddyPageAllocator(n);
    }

    method MarkPageRange(t: PageType, range: PageRange)
      requires range.Within(types.Length)
      modifies types
      ensures forall p :: 0 <= p < types.Length ==> types[p] == if range.Has(p) then t else old(types[p])
    {
      for pfn := range.base to range.base + range.count
        invariant forall p :: 0 <= p < types.Length ==>
          types[p] == if range.base <= p < pfn then t else old(types[p])
      {
        types[pfn] := t;
      }
    }

    /**
     Tags the pages of the NORMAL memory blocks as available, withdraws page zero, the initial page
     tables, the kernel image, its stack and the descriptor array, and makes the algorithm reserve
     every page that is not available.
     */
    method Init(blocks: seq<PhysicalMemoryBlock>, image: PageRange, stack: PageRange, heapStart: nat) returns (ok: bool)
      requires Wired() && algorithm.blocks == seq(ORDERS, _ => {})
      requires forall p :: 0 <= p < types.Length ==> types[p] == INVALID
      requires forall i :: 0 <= i < |blocks| ==> blocks[i].range.Within(nrPages)
      requires nrPages >= 7 && image.Within(nrPages) && stack.Within(nrPages)
      requires DescriptorRange(heapStart, nrPages).Within(nrPages)
      modifies Footprint()
      ensures ok && Valid()
      ensures forall p :: 0 <= p < nrPages ==> (p in algorithm.Free() <==>
                InNormalBlock(blocks, p) && p >= 7 && !image.Has(p) && !stack.Has(p)
                && !DescriptorRange(heapStart, nrPages).Has(p))
      ensures forall p :: 0 <= p < nrPages && !DescriptorRange(heapStart, nrPages).Has(p) ==>
                types[p] == if p == 0 || image.Has(p) || stack.Has(p) then RESERVED else if p < 7 then ALLOCATED
                            else if InNormalBlock(blocks, p) then AVAILABLE else INVALID
      ensures forall p: nat, k: nat {:trigger DescriptorPage(heapStart, p, k)} :: p < nrPages && k < 16 ==>
                var q := DescriptorPage(heapStart, p, k); q < nrPages && types[q] == RESERVED && q !in algorithm.Free()
      ensures forall p | InNormalBlock(blocks, p) && 7 <= p < nrPages && !image.Has(p) && !stack.Has(p)
                && !(heapStart <= p <= DescriptorPage(heapStart, nrPages - 1, 15) + 1) :: p in algorithm.Free()
      ensures types[0] == RESERVED
    {
      DescriptorsCovered(heapStart, nrPages);
      for i := 0 to |blocks|
        invariant Wired() && algorithm.blocks == old(algorithm.blocks)
        invariant forall p :: 0 <= p < types.Length ==>
          types[p] == if InNormalBlock(blocks[..i], p) then AVAILABLE else INVALID
      {
        assert forall p :: InNormalBlock(blocks[..i + 1], p) <==>
          InNormalBlock(blocks[..i], p) || (blocks[i].normal && blocks[i].range.Has(p)) by {
          assert blocks[..i + 1] == blocks[..i] + [blocks[i]];
          NormalSnoc(blocks[..i], blocks[i]);
        }
        if blocks[i].normal {
          MarkPageRange(AVAILABLE, blocks[i].range);
        }
      }
      assert blocks[..|blocks|] == blocks;
      MarkPageRange(RESERVED, PageRange(0, 1));
      MarkPageRange(ALLOCATED, InitialTableRange());
      MarkPageRange(RESERVED, image);
      MarkPageRange(RESERVED, stack);
      MarkPageRange(RESERVED, DescriptorRange(heapStart, nrPages));
      algorithm.Init(nrPages);
      ok := ReserveUnavailable();
    }

    lemma NormalSnoc(blocks: seq<PhysicalMemoryBlock>, b: PhysicalMemoryBlock)
      ensures forall p :: InNormalBlock(blocks + [b], p) <==> InNormalBlock(blocks, p) || (b.normal && b.range.Has(p))
    {
      forall p
        ensures InNormalBlock(blocks + [b], p) <==> InNormalBlock(blocks, p) || (b.normal && b.range.Has(p))
      {
        if InNormalBlock(blocks, p) {
          var i :| 0 <= i < |blocks| && blocks[i].normal && blocks[i].range.Has(p);
          assert (blocks + [b])[i] == blocks[i];
        }
        if b.normal && b.range.Has(p) {
          assert (blocks + [b])[|blocks|] == b;
        }
      }
    }

    /** Tells the algorithm about every page that is not available. */
    method ReserveUnavailable() returns (ok: bool)
      requires Wired() && Prefix(algorithm.Free(), nrPages)
      modifies algorithm`blocks, algorithm.areas, algorithm.next
      ensures ok && Valid()
    {
      var pgd := 0;
      while pgd < nrPages
        invariant 0 <= pgd <= nrPages && Wired()
        invariant forall p :: 0 <= p < nrPages ==> (p in algorithm.Free() <==> pgd <= p || types[p] == AVAILABLE)
      {
        if types[pgd] != AVAILABLE {
          var reserved := algorithm.ReservePage(pgd);
          if !reserved {
            return false;
          }
        }
        pgd := pgd + 1;
      }
      return true;
    }

    /** Allocates 2^order pages and tags them; fails on the null pointer exactly when no aligned free run exists. */
    method AllocPages(order: CInt) returns (r: AllocOutcome)
      requires Valid()
      modifies Footprint()
      ensures Wired()
      ensures r.NullTagged? <==> !CanAllocate(old(algorithm.Free()), order)
      ensures r.NullTagged? ==> algorithm.Free() == old(algorithm.Free())
      ensures r.NullTagged? ==> forall p :: 0 <= p < nrPages ==> types[p] == old(types[p])
      ensures Valid()
      ensures r.Pages? ==>
        && Aligned(r.pgd, order) && old(Tagged(AVAILABLE, r.pgd, order)) && Tagged(ALLOCATED, r.pgd, order)
        && Taken(old(algorithm.Free()), algorithm.Free(), r.pgd, order)
        && forall p :: 0 <= p < nrPages && !(r.pgd <= p < r.pgd + Pow2(order)) ==> types[p] == old(types[p])
    {
      hide Aligned, NoBuddies, Disjoint, Shape;
      var pgd := algorithm.AllocPages(order);
      if pgd == NULL {
        return NullTagged;
      }
      assert forall x :: x in Run(pgd, order) <==> InRun(x, pgd, order);
      for i := 0 to Pow2(order)
        invariant Wired() && algorithm.Free() == old(algorithm.Free()) - Run(pgd, order)
        invariant forall p :: 0 <= p < nrPages ==>
          types[p] == if pgd <= p < pgd + i then ALLOCATED else old(types[p])
      {
        assert pgd + i in Run(pgd, order);
        assert types[pgd + i] == AVAILABLE;
        types[pgd + i] := ALLOCATED;
      }
      return Pages(pgd);
    }

    /** Frees 2^order pages, all of them tagged allocated. */
    method FreePages(pgd: nat, order: nat)
      requires Valid()
      requires order < ORDERS && Aligned(pgd, order) && Tagged(ALLOCATED, pgd, order)
      modifies Footprint()
      ensures Wired()
      ensures Valid()
      ensures Tagged(AVAILABLE, pgd, order)
      ensures algorithm.Free() == old(algorithm.Free()) + Run(pgd, order)
      ensures forall p :: 0 <= p < nrPages && !(pgd <= p < pgd + Pow2(order)) ==> types[p] == old(types[p])
    {
      hide Aligned, NoBuddies, Disjoint, Shape;
      assert forall x :: x in Run(pgd, order) <==> InRun(x, pgd, order);
      algorithm.FreePages(pgd, order);
      for i := 0 to Pow2(order)
        invariant Wired() && algorithm.Free() == old(algorithm.Free()) + Run(pgd, order)
        invariant forall p :: 0 <= p < nrPages ==>
          types[p] == if pgd <= p < pgd + i then AVAILABLE else old(types[p])
      {
        assert types[pgd + i] == ALLOCATED;
        types[pgd + i] := AVAILABLE;
      }
    }
  }

  // ---------- whole runs ----------

  /** What a client does: ask for a block, or give back one it holds. */
  datatype PageCall = Alloc(order: CInt) | GiveBack(pgd: nat)

  /** Page x lies in a block that is held; held gives each block's order. */
  ghost predicate IsHeld(held: map<nat, nat>, x: int) {
    exists p :: p in held && InRun(x, p, held[p])
  }

  /** The pages in all are partitioned into the free ones and the blocks held. */
  ghost predicate Partition(all: set<int>, free: set<int>, held: map<nat, nat>) {
    && (forall x :: x in all <==> x in free || IsHeld(held, x))
    && (forall x, p :: p in held && InRun(x, p, held[p]) ==> x !in free)
    && (forall x, p, q :: p in held && q in held && InRun(x, p, held[p]) && InRun(x, q, held[q]) ==> p == q)
  }

  lemma HeldMore(all: set<int>, free: set<int>, free': set<int>, held: map<nat, nat>, p: nat, k: nat)
    requires Partition(all, free, held) && Taken(free, free', p, k)
    ensures p !in held && Partition(all, free', held[p := k])
  {
    var h := held[p := k];
    RunPages(p, k);
    assert InRun(p, p, k);
    if p in held {
      assert InRun(p, p, held[p]);
    }
    forall x
      ensures x in all <==> x in free' || IsHeld(h, x)
    {
      if IsHeld(held, x) {
        var q :| q in held && InRun(x, q, held[q]);
        assert q in h && h[q] == held[q];
      }
      if IsHeld(h, x) {
        var q :| q in h && InRun(x, q, h[q]);
        assert q != p ==> IsHeld(held, x);
      }
      assert InRun(x, p, k) ==> p in h && InRun(x, p, h[p]);
    }
  }

  lemma HeldLess(all: set<int>, free: set<int>, free': set<int>, held: map<nat, nat>, p: nat)
    requires Partition(all, free, held) && p in held && free' == free + Run(p, held[p])
    ensures Partition(all, free', held - {p})
  {
    var h := held - {p};
    RunPages(p, held[p]);
    forall x
      ensures x in all <==> x in free' || IsHeld(h, x)
    {
      if IsHeld(held, x) {
        var q :| q in held && InRun(x, q, held[q]);
        assert q != p ==> q in h && InRun(x, q, h[q]);
      }
      if IsHeld(h, x) {
        var q :| q in h && InRun(x, q, h[q]);
        assert q in held && InRun(x, q, held[q]);
      }
      assert InRun(x, p, held[p]) ==> IsHeld(held, x);
    }
  }

  lemma RunPages(p: int, k: nat)
    ensures forall x :: x in Run(p, k) <==> InRun(x, p, k)
    ensures Pow2(k) > 0
  {
  }

  /** Every block held can be given back. */
  ghost predicate Returnable(a: PageAllocator, held: map<nat, nat>)
    reads a.types
  {
    forall p :: p in held ==> held[p] < ORDERS && Aligned(p, held[p]) && a.Tagged(ALLOCATED, p, held[p])
  }

  // ---------- histories ----------

  /** The blocks held after one more call with result r. */
  function HeldThen(held: map<nat, nat>, c: PageCall, r: nat): map<nat, nat> {
    match c
    case Alloc(order) => if order >= 0 then held[r := order] else held
    case GiveBack(p) => held - {p}
  }

  /** The blocks held after the first k calls. */
  function HeldAfter(calls: seq<PageCall>, rs: seq<nat>, k: nat): map<nat, nat>
    requires k <= |calls| && k <= |rs|
  {
    if k == 0 then map[] else HeldThen(HeldAfter(calls, rs, k - 1), calls[k - 1], rs[k - 1])
  }

  /** What a call that goes through makes of the free pages. */
  ghost predicate CallDone(f: set<int>, held: map<nat, nat>, c: PageCall, r: nat, f': set<int>) {
    match c
    case Alloc(order) => CanAllocate(f, order) && Aligned(r, order) && Taken(f, f', r, order)
    case GiveBack(p) => if p in held then f' == f + Run(p, held[p]) else f' == f
  }

  /** The only calls that do not go through are requests for which no aligned run is free. */
  ghost predicate Stuck(f: set<int>, c: PageCall) {
    c.Alloc? && !CanAllocate(f, c.order)
  }

  /** Call i took the free pages from trace[i] to trace[i + 1]. */
  ghost predicate CallStep(trace: seq<set<int>>, calls: seq<PageCall>, rs: seq<nat>, i: nat)
    requires i + 1 < |trace| && i < |calls| && i < |rs|
  {
    CallDone(trace[i], HeldAfter(calls, rs, i), calls[i], rs[i], trace[i + 1])
  }

  /** Before call i the pages free at the start are those free now and the blocks held, all apart. */
  ghost predicate ApartAt(trace: seq<set<int>>, calls: seq<PageCall>, rs: seq<nat>, i: nat)
    requires i < |trace| && i <= |calls| && i <= |rs|
  {
    Partition(trace[0], trace[i], HeldAfter(calls, rs, i))
  }

  /** The first |rs| calls returned rs and led through the sets of free pages of the trace. */
  ghost predicate IsHistory(trace: seq<set<int>>, calls: seq<PageCall>, rs: seq<nat>) {
    && |rs| <= |calls| && |trace| == |rs| + 1
    && (forall i: nat {:trigger CallStep(trace, calls, rs, i)} :: i < |rs| ==> CallStep(trace, calls, rs, i))
    && (forall i: nat {:trigger ApartAt(trace, calls, rs, i)} :: i <= |rs| ==> ApartAt(trace, calls, rs, i))
  }

  lemma {:induction false} HeldLonger(calls: seq<PageCall>, rs: seq<nat>, r: nat, k: nat)
    requires k <= |rs| && k <= |calls|
    ensures HeldAfter(calls, rs + [r], k) == HeldAfter(calls, rs, k)
  {
    if k > 0 {
      HeldLonger(calls, rs, r, k - 1);
    }
  }

  lemma HistoryLonger(trace: seq<set<int>>, calls: seq<PageCall>, rs: seq<nat>, f: set<int>, r: nat)
    requires IsHistory(trace, calls, rs) && |rs| < |calls|
    requires var held := HeldAfter(calls, rs, |rs|);
             CallDone(trace[|rs|], held, calls[|rs|], r, f) && Partition(trace[0], f, HeldThen(held, calls[|rs|], r))
    ensures IsHistory(trace + [f], calls, rs + [r])
  {
    hide CallDone, Partition, HeldThen;
    var longer, results := trace + [f], rs + [r];
    HeldLonger(calls, rs, r, |rs|);
    forall i: nat | i < |results|
      ensures CallStep(longer, calls, results, i)
    {
      HeldLonger(calls, rs, r, i);
      assert i < |rs| ==> CallStep(trace, calls, rs, i);
    }
    forall i: nat | i <= |results|
      ensures ApartAt(longer, calls, results, i)
    {
      if i <= |rs| {
        HeldLonger(calls, rs, r, i);
        assert ApartAt(trace, calls, rs, i);
      }
    }
  }

  /**
   A run of any sequence of calls,
     up to a request for which no aligned run is free: each call does what it should to the
   free pages, and all the time the blocks held are apart from each other and from the free pages and with them make up
   the pages free at the start. A run that has given everything back has restored all links and tags.
   */
  method RunPageClient(a: PageAllocator, calls: seq<PageCall>) returns (rs: seq<nat>, ghost trace: seq<set<int>>)
    requires a.Valid()
    modifies a.Footprint()
    ensures a.Valid() && IsHistory(trace, calls, rs)
    ensures trace[0] == old(a.algorithm.Free()) && trace[|rs|] == a.algorithm.Free()
    ensures |rs| < |calls| ==> Stuck(trace[|rs|], calls[|rs|])
    ensures Returnable(a, HeldAfter(calls, rs, |rs|))
    ensures HeldAfter(calls, rs, |rs|) == map[] ==> a.types[..] == old(a.types[..])
    ensures HeldAfter(calls, rs, |rs|) == map[] ==>
              a.algorithm.areas[..] == old(a.algorithm.areas[..]) && a.algorithm.next[..] == old(a.algorithm.next[..])
  {
    hide Aligned, Structured, NoBuddies, Pow2, Run, Partition, CallDone, HeldThen, CanAllocate;
    ghost var all := a.algorithm.Free();
    ghost var areas, next, blocks := a.algorithm.areas[..], a.algorithm.next[..], a.algorithm.blocks;
    var held := map[];
    rs, trace := [], [all];
    StartPartition(all);
    assert ApartAt(trace, calls, rs, 0);
    while |rs| < |calls|
      invariant a.Valid() && IsHistory(trace, calls, rs)
      invariant trace[0] == all && trace[|rs|] == a.algorithm.Free() && held == HeldAfter(calls, rs, |rs|)
      invariant Returnable(a, held) && Partition(all, a.algorithm.Free(), held)
      invariant forall p :: 0 <= p < a.nrPages && p !in all ==> a.types[p] == old(a.types[p])
      decreases |calls| - |rs|
    {
      var i := |rs|;
      var ok, r := ExecutePageCall(a, held, calls[i], all);
      if !ok {
        break;
      }
      HistoryLonger(trace, calls, rs, a.algorithm.Free(), r);
      HeldLonger(calls, rs, r, i);
      held := HeldThen(held, calls[i], r);
      rs, trace := rs + [r], trace + [a.algorithm.Free()];
    }
    if held == map[] {
      NoneHeld(all, a.algorithm.Free());
      a.algorithm.Determined(areas, next, blocks);
    }
  }

  lemma StartPartition(all: set<int>)
    ensures Partition(all, all, map[])
  {
  }

  lemma NoneHeld(all: set<int>, free: set<int>)
    requires Partition(all, free, map[])
    ensures all == free
  {
    forall x
      ensures x in all <==> x in free
    {
      assert !IsHeld(map[], x);
    }
  }

  method ExecutePageCall(a: PageAllocator, held: map<nat, nat>, c: PageCall, ghost all: set<int>)
                         returns (ok: bool, r: nat)
    requires a.Valid() && Returnable(a, held) && Partition(all, a.algorithm.Free(), held)
    modifies a.Footprint()
    ensures a.Valid() && (ok <==> !Stuck(old(a.algorithm.Free()), c))
    ensures ok ==> CallDone(old(a.algorithm.Free()), held, c, r, a.algorithm.Free())
    ensures ok ==> Returnable(a, HeldThen(held, c, r)) && Partition(all, a.algorithm.Free(), HeldThen(held, c, r))
    ensures !ok ==> a.algorithm.Free() == old(a.algorithm.Free()) && Returnable(a, held)
    ensures forall p :: 0 <= p < a.nrPages && p !in all ==> a.types[p] == old(a.types[p])
  {
    match c {
      case Alloc(order) => ok, r := ExecuteAlloc(a, held, order, all);
      case GiveBack(p) =>
        ok, r := true, 0;
        ExecuteGiveBack(a, held, p, all);
    }
  }

  method ExecuteAlloc(a: PageAllocator, ghost held: map<nat, nat>, order: CInt, ghost all: set<int>)
                      returns (ok: bool, r: nat)
    requires a.Valid() && Returnable(a, held) && Partition(all, a.algorithm.Free(), held)
    modifies a.Footprint()
    ensures a.Valid() && (ok <==> CanAllocate(old(a.algorithm.Free()), order))
    ensures ok ==> CallDone(old(a.algorithm.Free()), held, Alloc(order), r, a.algorithm.Free())
    ensures ok ==> 0 <= order && Returnable(a, held[r := order]) && Partition(all, a.algorithm.Free(), held[r := order])
    ensures !ok ==> a.algorithm.Free() == old(a.algorithm.Free()) && Returnable(a, held)
    ensures forall p :: 0 <= p < a.nrPages && p !in all ==> a.types[p] == old(a.types[p])
  {
    var out := a.AllocPages(order);
    ok, r := out.Pages?, 0;
    if ok {
      r := out.pgd;
      HeldMore(all, old(a.algorithm.Free()), a.algorithm.Free(), held, r, order);
    }
  }

  method ExecuteGiveBack(a: PageAllocator, held: map<nat, nat>, p: nat, ghost all: set<int>)
    requires a.Valid() && Returnable(a, held) && Partition(all, a.algorithm.Free(), held)
    modifies a.Footprint()
    ensures a.Valid() && CallDone(old(a.algorithm.Free()), held, GiveBack(p), 0, a.algorithm.Free())
    ensures Returnable(a, held - {p}) && Partition(all, a.algorithm.Free(), held - {p})
    ensures forall x :: 0 <= x < a.nrPages && x !in all ==> a.types[x] == old(a.types[x])
  {
    if p in held {
      a.FreePages(p, held[p]);
      HeldLess(all, old(a.algorithm.Free()), a.algorithm.Free(), held, p);
    } else {
      assert held - {p} == held;
    }
  }
}
