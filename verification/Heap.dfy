/**
 The kernel heap: boundary-tagged chunks in one segment, small bins, large bins, the designated
 victim dv and the top chunk; malloc and free over them. Chunk addresses are numbers; 0 is null.
 */
module KernelHeap {
  import opened ChunkSizes
  import opened Powers
  import opened Bitmaps
  import opened TrieCells
  import opened TreeSearch
  import opened SmallBinLists
  import opened LargeBins
  import opened HeapLayout

  const MAX_SMALL_REQUEST := 232
  const MIN_REQUEST := 23
  const MAX_REQUEST := SIZE_LIMIT - 128
  const TOP_FOOT_SIZE := 80
  const SYS_ALLOC_PADDING := 96
  const GRANULARITY := 0x1_0000
  /** The page allocator's largest block. */
  const MAX_REGION := 0x1000_0000

  /** A request padded by the chunk overhead and rounded up to the alignment. */
  function PadRequest(bytes: nat): nat { (bytes + 23) / 16 * 16 }

  function RequestToSize(bytes: nat): nat {
    if bytes < MIN_REQUEST then MIN_CHUNK_SIZE else PadRequest(bytes)
  }

  function ChunkToMem(p: int): int { p + 16 }

  function MemToChunk(mem: int): int { mem - 16 }

  predicate IsSmall(s: nat) { s / 8 < NSMALLBINS }

  /**
   From l to m exactly the formerly free chunk p was handed out, with room for nb bytes and less than a minimal chunk to
   spare.
   */
  ghost predicate HandedOut(l: Layout, m: Layout, p: int, nb: nat) {
    GivenTo(l, m, p) && p in m.ext && nb <= m.ext[p] < nb + MIN_CHUNK_SIZE
  }

  /** The same with at most a minimal chunk to spare. */
  ghost predicate AlignedOut(l: Layout, m: Layout, p: int, nb: nat) {
    GivenTo(l, m, p) && p in m.ext && nb <= m.ext[p] <= nb + MIN_CHUNK_SIZE
  }

  /** No free chunk and not the top chunk has room for nb, and the system does not provide a first segment. */
  ghost predicate Refused(l: Layout, nb: nat, sysBase: nat) {
    && !HasRoom(l, nb) && l.topsize <= nb
    && (l.top != 0 || sysBase == 0 || nb + 96 > 0x1000_0000)
  }

  /** The whole region that the system gave: base, chunks and top, and the 80 bytes of the trailer. */
  ghost predicate OfRegion(m: Layout, sysBase: nat) {
    m.base == sysBase && (m.top + m.topsize + 80 - m.base) % 0x1_0000 == 0
      && m.top + m.topsize + 80 <= sysBase + 0x1000_0000
  }

  /**
   The first segment is the region at sysBase, of the least multiple of 64 KB that has room for nb and the trailer.
   */
  ghost predicate FirstSegment(m: Layout, nb: nat, sysBase: nat) {
    OfRegion(m, sysBase) && nb + 96 <= m.top + m.topsize + 80 - sysBase < nb + 96 + 0x1_0000
  }

  /** The chunk of nb bytes is the least that has room for bytes of payload behind one head word. */
  ghost predicate LeastChunk(bytes: nat, nb: nat) {
    nb % 16 == 0 && nb >= 32 && nb >= bytes + 8 && (nb == 32 || nb < bytes + 24)
  }

  /** The size looked for: that chunk's, or for the largest requests a size that nothing has. */
  ghost predicate Asked(bytes: nat, nb: nat) {
    if bytes >= SIZE_LIMIT - 128 then nb == SIZE_LIMIT - 1 else LeastChunk(bytes, nb)
  }

  lemma LeastChunkIsLeast(bytes: nat, nb: nat, n: nat)
    requires LeastChunk(bytes, nb) && n % 16 == 0 && n >= 32 && n >= bytes + 8
    ensures nb <= n
  {
  }

  ghost predicate IsPowerOfTwo(x: nat) {
    exists k: nat :: x == Pow2(k)
  }

  /** a is the least power of two that is at least 32 and at least the alignment. */
  ghost predicate Rounds(alignment: nat, a: nat) {
    IsPowerOfTwo(a) && alignment <= a && 32 <= a && (a == 32 || a < 2 * alignment)
  }

  /** The address is a multiple of the rounded alignment, and of the alignment itself if that is a power of two. */
  ghost predicate AlignedTo(mem: int, alignment: nat) {
    (exists a: nat :: Rounds(alignment, a) && mem % a == 0) && (IsPowerOfTwo(alignment) ==> mem % alignment == 0)
  }

  /**
   What a small request is served with: a chunk of exactly its size if there is one, else the victim if it is large
   enough, else a smallest chunk that is.
   */
  ghost predicate SmallChoice(l: Layout, dv: int, dvsize: nat, nb: nat, p: int) {
    if HasExact(l, nb) then p in l.ext && l.ext[p] == nb
    else if nb <= dvsize then p == dv
    else HasRoom(l, nb) ==> Smallest(l, nb, p)
  }

  ghost predicate HasExact(l: Layout, nb: nat) {
    exists a :: a in l.ext && a !in l.used && l.ext[a] == nb
  }

  ghost predicate Smallest(l: Layout, nb: nat, p: int) {
    p in l.ext && forall a :: a in l.ext && a !in l.used && l.ext[a] >= nb ==> l.ext[p] <= l.ext[a]
  }

  class Heap {
    const small: SmallBins
    const tree: TreeBins
    var head: map<int, Head>
    var foot: map<int, nat>
    var dv: int
    var dvsize: nat
    var top: int
    var topsize: nat
    ghost var ext: map<int, nat>
    ghost var used: set<int>
    ghost var base: int

    ghost function L(): Layout
      reads this
    {
      Layout(ext, used, base, top, topsize)
    }

    ghost function Parts(): set<object> { {small, tree, tree.treebins} }

    /** Every free chunk but those in loose is recorded in a bin or as dv, and the tags agree with the tiling. */
    ghost predicate ValidBut(loose: set<int>)
      reads this, Parts()
    {
      && small.Valid() && tree.Valid()
      && Tiled(L()) && Tagged(L(), head, foot)
      && Indexed(L(), small.Bag(), tree.Bag(), dv, dvsize, loose)
    }

    ghost predicate Valid()
      reads this, Parts()
    {
      ValidBut({})
    }

    /** The chunks handed out, with their sizes. */
    ghost function InUse(): map<int, nat>
      reads this
    {
      map a | a in used && a in ext :: ext[a]
    }

    /** Some free chunk has room for nb. */
    ghost predicate Fits(nb: nat)
      reads this
    {
      HasRoom(L(), nb)
    }

    constructor ()
      ensures Valid() && InUse() == map[] && top == 0
    {
      small := new SmallBins();
      tree := new TreeBins();
      head, foot := map[], map[];
      dv, dvsize, top, topsize := 0, 0, 0, 0;
      ext, used, base := map[], {}, 0;
    }

    // ---------- bins ----------

    /** Takes a free chunk out of the bin it is in. */
    method UnlinkChunk(p: int, s: nat, ghost loose: set<int>)
      requires ValidBut(loose) && p in ext && p !in used && p != dv && p !in loose && s == ext[p]
      modifies Parts()
      ensures ValidBut(loose + {p})
    {
      hide SmallBins.Valid, TreeBins.Valid, SmallBins.Bag, TreeBins.Bag, Tiled, Tagged;
      if IsSmall(s) {
        small.UnlinkSmallChunk(p, s);
      } else {
        tree.UnlinkLargeChunk(p);
      }
    }

    lemma ChunkSize(p: int)
      requires Tiled(L()) && p in ext
      ensures p > 0 && MIN_CHUNK_SIZE <= ext[p] < INDEX_LIMIT && ext[p] % 16 == 0 && p % 16 == 0
      ensures IsSmall(ext[p]) <==> ext[p] < 256
      ensures !IsSmall(ext[p]) ==> LargeSize(ext[p])
    {
      assert ChunkOk(L(), p);
    }

    /** Puts the loose free chunk p into the bin for its size. */
    method InsertChunk(p: int, s: nat)
      requires ValidBut({p}) && p in ext && s == ext[p]
      modifies Parts()
      ensures Valid()
    {
      hide SmallBins.Valid, TreeBins.Valid, SmallBins.Bag, TreeBins.Bag, Tiled, Tagged;
      ChunkSize(p);
      assert p in {p};
      if IsSmall(s) {
        small.InsertSmallChunk(p, s);
      } else {
        tree.InsertLargeChunk(p, s);
      }
    }

    /** Makes the loose free chunk p the designated victim, binning the old one, which is small. */
    method ReplaceDv(p: int, s: nat)
      requires ValidBut({p}) && p in ext && s == ext[p] && IsSmall(dvsize)
      modifies this`dv, this`dvsize, small
      ensures Valid() && dv == p && dvsize == s
    {
      hide SmallBins.Valid, TreeBins.Valid, SmallBins.Bag, TreeBins.Bag, Tiled, Tagged;
      assert p in {p};
      ChunkSize(p);
      NoNullChunk(L());
      if dvsize != 0 {
        ChunkSize(dv);
        small.InsertSmallChunk(dv, dvsize);
      }
      dvsize := s;
      dv := p;
    }

    // ---------- putting a chunk in use ----------

    /** set_inuse_and_pinuse on a whole loose chunk. */
    method UseWhole(p: int, s: nat)
      requires ValidBut({p}) && p in ext && s == ext[p]
      modifies this`head, this`used
      ensures Valid() && used == old(used) + {p} && p !in old(used)
    {
      hide SmallBins.Valid, TreeBins.Valid, SmallBins.Bag, TreeBins.Bag, Tiled, Tagged;
      assert p in {p};
      TakenOk(L(), head, foot, p);
      TakenIndexed(L(), small.Bag(), tree.Bag(), dv, dvsize, p);
      head := head[p := Head(s, true, true)];
      head := head[p + s := head[p + s].(pinuse := true)];
      used := used + {p};
      assert L() == Taken(old(L()), p);
    }

    /** The first nb bytes of the loose chunk p are put in use; the rest is the new loose chunk r. */
    method UseFirst(p: int, nb: nat, rsize: nat) returns (r: int)
      requires ValidBut({p}) && p in ext && nb + rsize == ext[p]
      requires MIN_CHUNK_SIZE <= nb && nb % 16 == 0 && rsize >= MIN_CHUNK_SIZE
      modifies this`head, this`foot, this`used, this`ext
      ensures ValidBut({r}) && used == old(used) + {p} && p !in old(used)
      ensures p in old(ext) && ext == old(ext)[p := nb][r := rsize] && r !in old(ext) && r != p
    {
      hide SmallBins.Valid, TreeBins.Valid, SmallBins.Bag, TreeBins.Bag, Tiled, Tagged;
      assert p in {p};
      TakenSplitOk(L(), head, foot, p, nb);
      TakenSplitIndexed(L(), small.Bag(), tree.Bag(), dv, dvsize, p, nb);
      head := head[p := Head(nb, true, true)];
      r := p + nb;
      head := head[r := Head(rsize, true, false)];
      foot := foot[r + rsize := rsize];
      ext := ext[p := nb][r := rsize];
      used := used + {p};
      assert L() == TakenSplit(old(L()), p, nb);
    }

    // ---------- malloc ----------

    /** The loose chunk p is handed out for nb bytes; a remainder big enough to be a chunk becomes the victim. */
    method TakeForVictim(p: int, nb: nat, size: nat)
      requires ValidBut({p}) && p in ext && size == ext[p] && nb <= size && IsSmall(dvsize)
      requires MIN_CHUNK_SIZE <= nb && nb % 16 == 0
      modifies this, Parts()
      ensures Valid() && Handed(old(L()), p, nb)
      ensures if size - nb < MIN_CHUNK_SIZE then dv == old(dv) && dvsize == old(dvsize)
              else dv != 0 && dvsize == size - nb
    {
      hide SmallBins.Valid, TreeBins.Valid, SmallBins.Bag, TreeBins.Bag, Tiled, Tagged, Indexed;
      var rsize := size - nb;
      if rsize < MIN_CHUNK_SIZE {
        UseWhole(p, size);
      } else {
        var r := UseFirst(p, nb, rsize);
        NoNullChunk(L());
        ReplaceDv(r, rsize);
      }
    }

    /**
     Exactly the formerly free chunk p was handed out, with room for nb bytes and less than a minimal chunk to
     spare.
     */
    ghost predicate Handed(l: Layout, p: int, nb: nat)
      reads this
    {
      HandedOut(l, L(), p, nb)
    }

    /** The first chunk of a marked small bin leaves it. */
    method TakeFirst(i: nat) returns (p: int)
      requires Valid() && i < NSMALLBINS && i in Bins(small.smallmap)
      modifies small
      ensures ValidBut({p}) && p in ext && p !in used && ext[p] == IndexToSize(i) && p != dv
    {
      hide SmallBins.Valid, TreeBins.Valid, SmallBins.Bag, TreeBins.Bag, Tiled, Tagged, Bins;
      small.BinFacts(i);
      p := small.link[BinAt(i)].fd;
      NoNullChunk(L());
      small.UnlinkFirstSmallChunk(p, i);
    }

    /** Allocates a large request from the best fitting large chunk, unless dv fits at least as well. */
    method TmallocLarge(nb: nat) returns (p: int)
      requires Valid() && MIN_LARGE_SIZE <= nb < SIZE_LIMIT && nb % 16 == 0
      modifies this, Parts()
      ensures Valid()
      ensures p == 0 ==> L() == old(L())
      ensures dv == old(dv) && dvsize == old(dvsize)
      ensures p == 0 && Fits(nb) ==>
        nb <= dvsize
        && forall a :: a in ext && a !in used && ext[a] >= nb ==> dvsize <= ext[a]
      ensures p != 0 ==> p > 0 && p != dv && p in old(ext) && old(Fits(nb)) && Handed(old(L()), p, nb)
      ensures p != 0 ==> forall a :: a in old(ext) && a !in old(used) && old(ext)[a] >= nb ==>
        old(ext)[p] <= old(ext)[a]
    {
      hide SmallBins.Valid, TreeBins.Valid, SmallBins.Bag, TreeBins.Bag, Tiled, Tagged, Sub64, Indexed, BestFit;
      var v, rsize := tree.FindLarge(nb);
      LargeChoice(v, rsize, nb);
      if v != 0 && rsize < Sub64(dvsize, nb) {
        assert ext[v] == rsize + nb && Fits(nb);
        ChunkSize(v);
        tree.UnlinkLargeChunk(v);
        if rsize < MIN_CHUNK_SIZE {
          UseWhole(v, rsize + nb);
        } else {
          var r := UseFirst(v, nb, rsize);
          InsertChunk(r, rsize);
        }
        return v;
      }
      return 0;
    }

    /** What the best large chunk and the victim say about all free chunks. */
    lemma LargeChoice(v: int, rsize: nat, nb: nat)
      requires Valid() && MIN_LARGE_SIZE <= nb < SIZE_LIMIT && BestFit(tree.Bag(), nb, v)
      requires rsize == if v == 0 then SIZE_LIMIT - nb else tree.Bag()[v] - nb
      ensures v != 0 ==> v in tree.Bag() && v in ext && v !in used && v != dv && ext[v] == rsize + nb
      ensures var taken := v != 0 && rsize < Sub64(dvsize, nb);
              forall a :: a in ext && a !in used && ext[a] >= nb ==>
                if taken then ext[v] <= ext[a] else nb <= dvsize <= ext[a]
      ensures v != 0 ==> Indexed(L(), small.Bag(), tree.Bag() - {v}, dv, dvsize, {v})
    {
      hide SmallBins.Valid, TreeBins.Valid, SmallBins.Bag, TreeBins.Bag, Tiled, Tagged, Sub64;
      NoNullChunk(L());
      if v != 0 { ChunkSize(v); }
      if dv != 0 { ChunkSize(dv); }
      DvRemainder(dvsize, nb);
    }

    lemma DvRemainder(d: nat, nb: nat)
      requires d < INDEX_LIMIT && 0 < nb < SIZE_LIMIT
      ensures d >= nb ==> Sub64(d, nb) == d - nb
      ensures d < nb ==> Sub64(d, nb) == d - nb + SIZE_LIMIT
    {
    }

    /** The rest of a chunk that was cut has become the victim, if it is large enough; else the victim is as before. */
    ghost predicate LeftOver(rest: int, dv0: int, dvsize0: nat)
      reads this
    {
      if rest >= 32 then dv != 0 && dvsize == rest else dv == dv0 && dvsize == dvsize0
    }

    /** What becomes of the victim when chunk p is handed out: cut, replaced by what is left of p, or as before. */
    ghost predicate VictimAfter(l: Layout, dv0: int, dvsize0: nat, isSmall: bool, p: int, nb: nat)
      reads this
    {
      if p == dv0 then LeftOver(dvsize0 - nb, 0, 0)
      else if isSmall && p in l.ext then LeftOver(l.ext[p] - nb, dv0, dvsize0)
      else dv == dv0 && dvsize == dvsize0
    }

    /** Allocates a small request from the smallest large chunk, keeping the remainder as victim. */
    method TmallocSmall(nb: nat) returns (p: int)
      requires Valid() && MIN_CHUNK_SIZE <= nb < MIN_LARGE_SIZE && nb % 16 == 0 && tree.treemap != 0 && IsSmall(dvsize)
      modifies this, Parts()
      ensures Valid() && p > 0 && old(Fits(nb)) && Handed(old(L()), p, nb)
      ensures p in old(ext) && p in old(tree.Bag()) && old(ext)[p] >= nb && p != old(dv)
      ensures forall a :: a in old(tree.Bag()) ==> old(ext)[p] <= old(tree.Bag())[a]
      ensures LeftOver(old(ext)[p] - nb, old(dv), old(dvsize))
    {
      hide SmallBins.Valid, TreeBins.Valid, SmallBins.Bag, TreeBins.Bag, Tiled, Tagged;
      NoNullChunk(L());
      var v, rsize := tree.FindSmallest(nb);
      assert v in ext && ext[v] == rsize + nb && Fits(nb);
      ChunkSize(v);
      tree.UnlinkLargeChunk(v);
      TakeForVictim(v, nb, rsize + nb);
      return v;
    }

    /** Allocates from the next marked bin above idx; what is left becomes the victim. */
    method TakeNextBin(nb: nat, idx: nat, smallbits: bv32) returns (p: int)
      requires Valid() && MIN_CHUNK_SIZE <= nb < MIN_LARGE_SIZE && nb % 16 == 0 && nb > dvsize
      requires idx == SmallIndex(nb) && smallbits == Shr(small.smallmap, idx) && smallbits != 0
      requires idx !in Bins(small.smallmap)
      modifies this, Parts()
      ensures Valid() && p > 0 && p != old(dv) && p in old(ext) && old(Fits(nb)) && Handed(old(L()), p, nb)
      ensures SmallChoice(old(L()), old(dv), old(dvsize), nb, p)
      ensures LeftOver(old(ext)[p] - nb, old(dv), old(dvsize))
    {
      hide SmallBins.Valid, TreeBins.Valid, SmallBins.Bag, TreeBins.Bag, Tiled, Tagged, Bins, Shr, Shl, LeftBins,
        LowestBin, Indexed, HasExact, Smallest, HasRoom;
      SomeLeft(small.smallmap, idx);
      var leftbits := LeftBins(Shl(smallbits, idx), idx);
      var i := LowestBin(leftbits);
      LowestLeft(small.smallmap, idx, i);
      SmallestBinned(nb, i);
      p := TakeFirst(i);
      ChunkSize(p);
      SmallestServes(L(), dv, dvsize, nb, p);
      TakeForVictim(p, nb, IndexToSize(i));
    }

    static lemma SomeLeft(m: bv32, idx: nat)
      requires idx < 32 && idx !in Bins(m) && Shr(m, idx) != 0
      ensures LeftBins(Shl(Shr(m, idx), idx), idx) != 0
    {
      hide Bins, Shr, Shl, LeftBins;
      FromIndex(m, idx);
      var j: nat :| idx <= j < 32 && j in Bins(m);
      var leftbits := LeftBins(Shl(Shr(m, idx), idx), idx);
      assert j in Bins(leftbits);
      EmptyMap(leftbits);
    }

    /** Allocates a small request from a bin; 0 leaves it to dv or top. */
    method MallocSmall(nb: nat) returns (p: int)
      requires Valid() && MIN_CHUNK_SIZE <= nb < MIN_LARGE_SIZE && nb % 16 == 0
      modifies this, Parts()
      ensures Valid()
      ensures p == 0 ==> L() == old(L()) && dv == old(dv) && dvsize == old(dvsize) && (Fits(nb) ==> nb <= dvsize)
      ensures p != 0 ==> p > 0 && old(Fits(nb)) && Handed(old(L()), p, nb)
      ensures p != 0 ==> SmallChoice(old(L()), old(dv), old(dvsize), nb, p) && p in old(ext)
                         && p != old(dv) && LeftOver(old(ext)[p] - nb, old(dv), old(dvsize))
      ensures p == 0 ==> nb <= dvsize || !Fits(nb)
      ensures p == 0 && HasExact(L(), nb) ==> nb == dvsize
    {
      hide SmallBins.Valid, TreeBins.Valid, SmallBins.Bag, TreeBins.Bag, Tiled, Tagged, Bins, LowTwo, LowestClear, Shr,
        Shl, LeftBins, LowestBin, Indexed, HasExact, Smallest, HasRoom;
      ExactBin(nb);
      var idx := SmallIndex(nb);
      var smallbits := Shr(small.smallmap, idx);
      FromIndex(small.smallmap, idx);
      if LowTwo(smallbits) != 0 {
        idx := idx + LowestClear(smallbits);
        p := TakeFirst(idx);
        ChunkSize(p);
        ServesExactly(p, nb);
        UseWhole(p, IndexToSize(idx));
        return p;
      }
      if nb > dvsize {
        if smallbits != 0 {
          p := TakeNextBin(nb, idx, smallbits);
          return p;
        }
        if tree.treemap != 0 {
          OnlyLarge(nb);
          p := TmallocSmall(nb);
          SmallestServes(old(L()), old(dv), old(dvsize), nb, p);
          return p;
        }
        OnlyVictim(nb);
      }
      return 0;
    }

    /** A chunk of exactly nb bytes is the victim or in nb's bin; the bin behind that is always empty. */
    lemma ExactBin(nb: nat)
      requires Valid() && MIN_CHUNK_SIZE <= nb < MIN_LARGE_SIZE && nb % 16 == 0
      ensures HasExact(L(), nb) && nb != dvsize ==> SmallIndex(nb) in Bins(small.smallmap)
      ensures SmallIndex(nb) + 1 < 32 ==> SmallIndex(nb) + 1 !in Bins(small.smallmap)
    {
      hide SmallBins.Valid, TreeBins.Valid, SmallBins.Bag, TreeBins.Bag, Tiled, Tagged, Bins;
      NoNullChunk(L());
      if HasExact(L(), nb) && nb != dvsize {
        var a :| a in ext && a !in used && ext[a] == nb;
        small.BagMarked(a);
      }
      var i := SmallIndex(nb) + 1;
      if i < 32 && i in Bins(small.smallmap) {
        small.BinFacts(i);
        ChunkSize(small.items[i][0]);
      }
    }

    lemma ServesExactly(p: int, nb: nat)
      requires p in ext && p !in used && ext[p] == nb
      ensures SmallChoice(L(), dv, dvsize, nb, p) && Fits(nb)
    {
    }

    /** Nothing that fits is smaller than the chunks in the lowest marked bin. */
    lemma SmallestBinned(nb: nat, i: nat)
      requires Valid() && MIN_CHUNK_SIZE <= nb < MIN_LARGE_SIZE && nb % 16 == 0 && nb > dvsize
        && SmallIndex(nb) < i < 32
      requires forall j: nat :: SmallIndex(nb) <= j < i ==> j !in Bins(small.smallmap)
      ensures !HasExact(L(), nb) && forall a :: a in ext && a !in used && ext[a] >= nb ==> IndexToSize(i) <= ext[a]
    {
      hide SmallBins.Valid, TreeBins.Valid, SmallBins.Bag, TreeBins.Bag, Tiled, Tagged, Bins;
      NoNullChunk(L());
      ExactBin(nb);
      forall a | a in ext && a !in used && ext[a] >= nb
        ensures IndexToSize(i) <= ext[a]
      {
        if a in small.Bag() { small.BagMarked(a); }
      }
    }

    /** The lowest bin that is marked above idx. */
    static lemma LowestLeft(m: bv32, idx: nat, i: nat)
      requires idx < 32 && idx !in Bins(m)
      requires var l := LeftBins(Shl(Shr(m, idx), idx), idx); l != 0 && i == LowestBin(l)
      ensures idx < i < 32 && i in Bins(m) && forall j: nat :: idx <= j < i ==> j !in Bins(m)
    {
      hide Bins, Shl, Shr, LeftBins, LowestBin;
      FromIndex(m, idx);
      var l := LeftBins(Shl(Shr(m, idx), idx), idx);
      assert forall j: nat :: j in Bins(l) <==> j in Bins(m) && idx < j;
    }

    static lemma SmallestServes(l: Layout, dv: int, dvsize: nat, nb: nat, p: int)
      requires !HasExact(l, nb) && nb > dvsize && p in l.ext && p !in l.used && l.ext[p] >= nb
      requires forall a :: a in l.ext && a !in l.used && l.ext[a] >= nb ==> l.ext[p] <= l.ext[a]
      ensures SmallChoice(l, dv, dvsize, nb, p) && HasRoom(l, nb)
    {
    }

    /** With no marked small bin from nb's on the large chunks are all that fits, but for the victim. */
    lemma OnlyLarge(nb: nat)
      requires Valid() && MIN_CHUNK_SIZE <= nb < MIN_LARGE_SIZE && nb % 16 == 0 && nb > dvsize
      requires forall j :: SmallIndex(nb) <= j < 32 ==> j !in Bins(small.smallmap)
      ensures !HasExact(L(), nb) && forall a :: a in ext && a !in used && ext[a] >= nb ==> a in tree.Bag()
      ensures forall a :: a in tree.Bag() ==> a in ext && ext[a] == tree.Bag()[a]
    {
      hide SmallBins.Valid, TreeBins.Valid, SmallBins.Bag, TreeBins.Bag, Tiled, Tagged, Bins;
      NoNullChunk(L());
      ExactBin(nb);
      forall a | a in ext && a !in used && ext[a] >= nb
        ensures a in tree.Bag()
      {
        if a in small.Bag() { small.BagMarked(a); }
      }
    }

    /** With no marked small bin from nb's on and no large chunks, only the victim is left. */
    lemma OnlyVictim(nb: nat)
      requires Valid() && nb % 8 == 0 && nb < MIN_LARGE_SIZE && tree.treemap == 0
      requires forall j :: SmallIndex(nb) <= j < 32 ==> j !in Bins(small.smallmap)
      ensures Fits(nb) ==> nb <= dvsize
    {
      hide SmallBins.Valid, TreeBins.Valid, SmallBins.Bag, TreeBins.Bag, Tiled, Tagged, Bins;
      tree.NoBins();
      NoNullChunk(L());
      if Fits(nb) {
        var a :| a in ext && a !in used && ext[a] >= nb;
        if a in small.Bag() { small.BagMarked(a); }
      }
    }

    lemma VictimFits(nb: nat)
      requires Valid() && 0 < nb <= dvsize
      ensures Fits(nb) && dv > 0
    {
      hide SmallBins.Valid, TreeBins.Valid, SmallBins.Bag, TreeBins.Bag, Tiled, Tagged;
      NoNullChunk(L());
      ChunkSize(dv);
    }

    /** Allocates from the victim. */
    method MallocDv(nb: nat) returns (p: int)
      requires Valid() && MIN_CHUNK_SIZE <= nb <= dvsize && nb % 16 == 0
      modifies this
      ensures Valid() && p == old(dv) && p > 0 && p in old(ext) && old(ext)[p] == old(dvsize) && Handed(old(L()), p, nb)
      ensures LeftOver(old(dvsize) - nb, 0, 0)
    {
      hide SmallBins.Valid, TreeBins.Valid, SmallBins.Bag, TreeBins.Bag, Tiled, Tagged, Indexed;
      VictimFits(nb);
      var rsize := dvsize - nb;
      p := dv;
      DropDv(L(), small.Bag(), tree.Bag(), dv, dvsize, {});
      assert {} + {dv} == {dv};
      if rsize >= MIN_CHUNK_SIZE {
        dv, dvsize := 0, 0;
        var r := UseFirst(p, nb, rsize);
        NoNullChunk(L());
        dv := r;
        dvsize := rsize;
        AdoptDv(L(), small.Bag(), tree.Bag(), r);
      } else {
        var dvs := dvsize;
        dvsize := 0;
        dv := 0;
        UseWhole(p, dvs);
      }
    }

    /** Allocates from the top chunk. */
    method MallocTop(nb: nat) returns (p: int)
      requires Valid() && MIN_CHUNK_SIZE <= nb < topsize && nb % 16 == 0
      modifies this
      ensures Valid() && p == old(top) && p > 0 && Handed(old(L()), p, nb) && dv == old(dv) && dvsize == old(dvsize)
    {
      hide SmallBins.Valid, TreeBins.Valid, SmallBins.Bag, TreeBins.Bag, Tagged, Indexed;
      TakenTopOk(L(), head, foot, nb);
      TakenTopIndexed(L(), small.Bag(), tree.Bag(), dv, dvsize, nb);
      topsize := topsize - nb;
      var rsize := topsize;
      p := top;
      var r := p + nb;
      top := r;
      head := head[r := Head(rsize, true, false)];
      head := head[p := Head(nb, true, true)];
      ext := ext[p := nb];
      used := used + {p};
      assert L() == TakenTop(old(L()), nb);
    }

    /** The size of the region asked of the system: rounded up to the granularity, in 64-bit arithmetic. */
    static function RegionSize(nb: nat): nat {
      (nb + SYS_ALLOC_PADDING + (GRANULARITY - 1)) % SIZE_LIMIT / GRANULARITY * GRANULARITY
    }

    /** Gets the first segment from the system, which answers with an aligned base, or 0 when it has no memory. */
    method SysAlloc(nb: nat, sysBase: nat) returns (p: int)
      requires Valid() && MIN_CHUNK_SIZE <= nb < SIZE_LIMIT && (nb % 16 == 0 || nb == SIZE_LIMIT - 1)
      requires sysBase % 16 == 0 && sysBase + MAX_REGION < SIZE_LIMIT
      modifies this
      ensures Valid()
      ensures p == 0 ==> L() == old(L())
      ensures dv == old(dv) && dvsize == old(dvsize)
      ensures p == 0 <==> old(top) != 0 || sysBase == 0 || nb + 96 > 0x1000_0000
      ensures p != 0 ==> p == sysBase > 0 && Handed(old(L()), p, nb) && FirstSegment(L(), nb, sysBase)
    {
      hide RegionSize, ValidBut;
      RegionExact(nb);
      var asize := RegionSize(nb);
      if asize <= nb {
        return 0;
      }
      if sysBase == 0 || asize > MAX_REGION {
        return 0;
      }
      if top != 0 {
        return 0;
      }
      RegionRoom(nb);
      InitTop(sysBase, asize - TOP_FOOT_SIZE);
      p := MallocTop(nb);
    }

    /** Makes the whole first segment the top chunk; the word behind it holds the reserved trailer's size. */
    method InitTop(p: nat, psize: nat)
      requires Valid() && top == 0 && 0 < p && p % 16 == 0 && 0 < psize <= MAX_REGION && psize % 16 == 0
        && p + psize < SIZE_LIMIT
      modifies this`top, this`topsize, this`head, this`base
      ensures Valid() && base == top == p && topsize == psize
    {
      hide SmallBins.Valid, TreeBins.Valid, SmallBins.Bag, TreeBins.Bag, ChunkOk, Coalesced, Apart, HeadOk, FootOk;
      top := p;
      topsize := psize;
      head := head[p := Head(psize, true, false)];
      head := head[p + psize := Head(TOP_FOOT_SIZE, false, false)];
      base := p;
    }

    lemma RegionRoom(nb: nat)
      requires nb < RegionSize(nb) <= MAX_REGION && nb < SIZE_LIMIT
      ensures RegionSize(nb) % 16 == 0 && nb + SYS_ALLOC_PADDING <= RegionSize(nb)
    {
      var x := nb + SYS_ALLOC_PADDING + (GRANULARITY - 1);
      assert x % SIZE_LIMIT == x;
      assert x / GRANULARITY * GRANULARITY > x - GRANULARITY;
    }

    /** The region has 64 KB steps and room for the request; it is refused when that would be more than 2^28 bytes. */
    static lemma RegionExact(nb: nat)
      requires nb < SIZE_LIMIT
      ensures RegionSize(nb) <= nb || RegionSize(nb) > MAX_REGION <==> nb + 96 > 0x1000_0000
      ensures nb + 96 <= 0x1000_0000 ==>
                RegionSize(nb) % 0x1_0000 == 0 && nb + 96 <= RegionSize(nb) < nb + 96 + 0x1_0000
    {
      var x := nb + SYS_ALLOC_PADDING + (GRANULARITY - 1);
      if x < SIZE_LIMIT {
        assert x % SIZE_LIMIT == x;
      } else {
        assert x % SIZE_LIMIT == x - SIZE_LIMIT;
      }
    }

    /** The chunk size a request is served with; requests that are too large get a size nothing can hold. */
    static function SizeFor(bytes: nat): nat {
      if bytes >= MAX_REQUEST then SIZE_LIMIT - 1 else RequestToSize(bytes)
    }

    static lemma SizeForBounds(bytes: nat)
      requires bytes < SIZE_LIMIT
      ensures MIN_CHUNK_SIZE <= SizeFor(bytes) < SIZE_LIMIT
      ensures bytes >= MAX_REQUEST ==> SizeFor(bytes) == SIZE_LIMIT - 1
      ensures bytes < MAX_REQUEST ==> SizeFor(bytes) % 16 == 0 && bytes + 8 <= SizeFor(bytes)
      ensures bytes <= MAX_SMALL_REQUEST ==> SizeFor(bytes) < MIN_LARGE_SIZE
      ensures MAX_SMALL_REQUEST < bytes < MAX_REQUEST ==>
        MIN_LARGE_SIZE <= SizeFor(bytes) && SizeFor(bytes) == PadRequest(bytes)
      ensures Asked(bytes, SizeFor(bytes))
    {
    }

    static lemma SizeAsked(bytes: nat)
      ensures Asked(bytes, SizeFor(bytes))
    {
    }

    /** Nothing on the heap is as large as the sizes served without a trie search. */
    lemma NothingLarger(nb: nat)
      requires Valid() && nb >= MIN_LARGE_SIZE && (tree.treemap == 0 || nb >= INDEX_LIMIT)
      ensures Fits(nb) ==> nb <= dvsize
      ensures nb >= INDEX_LIMIT ==> !Fits(nb) && dvsize < nb && topsize <= nb
      ensures Fits(nb) ==> forall a :: a in ext && a !in used && ext[a] >= nb ==> dvsize <= ext[a]
    {
      hide SmallBins.Valid, TreeBins.Valid, SmallBins.Bag, TreeBins.Bag, Tagged;
      NoNullChunk(L());
      if tree.treemap == 0 { tree.NoBins(); }
      if dv != 0 { ChunkSize(dv); }
      forall a | a in ext
        ensures ext[a] < INDEX_LIMIT
      {
        ChunkSize(a);
      }
    }

    lemma TopNoTile()
      requires Valid()
      ensures top !in ext && (dv != 0 ==> dv in ext && ext[dv] == dvsize) && (top != 0 ==> dv != top)
    {
      hide SmallBins.Valid, TreeBins.Valid, SmallBins.Bag, TreeBins.Bag, Tagged;
      TopNoChunk(L());
    }

    /** Without a segment there is nothing to serve a request from. */
    lemma NoSegment()
      requires Valid()
      ensures top == 0 ==> topsize == 0 && dv == 0 && dvsize == 0 && ext == map[]
    {
      hide SmallBins.Valid, TreeBins.Valid, SmallBins.Bag, TreeBins.Bag, Tagged;
    }

    /** No free chunk and not the top chunk has room for nb, and the system does not provide a first segment. */
    ghost predicate Refuses(nb: nat, sysBase: nat)
      reads this
    {
      Refused(L(), nb, sysBase)
    }

    /**
     Allocates bytes of payload. It fails exactly when no free chunk and not the top chunk can hold the padded
     request and the system cannot provide the first segment; a large request gets a smallest free chunk that fits.
     */
    method Malloc(bytes: nat, sysBase: nat) returns (mem: int)
      requires Valid() && bytes < SIZE_LIMIT && sysBase % 16 == 0 && sysBase + MAX_REGION < SIZE_LIMIT
      modifies this, Parts()
      ensures Valid()
      ensures mem == 0 <==> old(Refuses(SizeFor(bytes), sysBase))
      ensures mem == 0 ==> L() == old(L())
      ensures Asked(bytes, SizeFor(bytes))
      ensures mem != 0 ==> MemToChunk(mem) != 0 && Handed(old(L()), MemToChunk(mem), SizeFor(bytes))
      ensures mem != 0 && old(top) == 0 ==> FirstSegment(L(), SizeFor(bytes), sysBase)
      ensures mem != 0 && !old(Fits(SizeFor(bytes))) ==> MemToChunk(mem) == if old(top) == 0 then sysBase else old(top)
      ensures mem != 0 && bytes <= MAX_SMALL_REQUEST ==>
                SmallChoice(old(L()), old(dv), old(dvsize), SizeFor(bytes), MemToChunk(mem))
      ensures mem != 0 ==>
                VictimAfter(old(L()), old(dv), old(dvsize), bytes <= MAX_SMALL_REQUEST, MemToChunk(mem), SizeFor(bytes))
      ensures bytes > MAX_SMALL_REQUEST && old(Fits(SizeFor(bytes))) ==>
                && MemToChunk(mem) in old(ext)
                && forall a :: a in old(ext) && a !in old(used) && old(ext)[a] >= SizeFor(bytes) ==>
                  old(ext)[MemToChunk(mem)] <= old(ext)[a]
    {
      hide ValidBut, Handed, RegionSize, RequestToSize, PadRequest, SizeFor, FirstSegment, Asked, LeftOver, HasExact,
        Smallest;
      SizeForBounds(bytes);
      NoSegment();
      TopNoTile();
      var nb := SizeFor(bytes);
      var p;
      if bytes <= MAX_SMALL_REQUEST {
        p := MallocSmall(nb);
        if p != 0 {
          return ChunkToMem(p);
        }
      } else if bytes >= MAX_REQUEST {
        NothingLarger(nb);
      } else if tree.treemap != 0 {
        p := TmallocLarge(nb);
        if p != 0 {
          return ChunkToMem(p);
        }
      } else {
        NothingLarger(nb);
      }
      if nb <= dvsize {
        VictimFits(nb);
        p := MallocDv(nb);
      } else if nb < topsize {
        p := MallocTop(nb);
      } else {
        p := SysAlloc(nb, sysBase);
      }
      mem := if p == 0 then 0 else ChunkToMem(p);
    }

    // ---------- free ----------

    /** Exactly the chunk q went out of use. */
    ghost predicate Freed(l: Layout, q: int)
      reads this
    {
      TakenBack(l, L(), q)
    }

    /** The words that make the run from a up to n one free chunk. */
    method SetFreeWithPinuse(a: int, size: nat, n: int)
      requires Tiled(L()) && Tagged(L(), head, foot) && Mergeable(L(), a, n) && size == n - a
      modifies this`head, this`foot, this`ext, this`used
      ensures L() == Merged(old(L()), a, n) && Tiled(L()) && Tagged(L(), head, foot)
    {
      hide Tiled, Tagged;
      MergedOk(L(), head, foot, a, n);
      head := head[n := head[n].(pinuse := false)];
      head := head[a := Head(size, true, false)];
      foot := foot[a + size := size];
      assert head == old(head)[a := Head(n - a, true, false)][n := old(head)[n].(pinuse := false)];
      ext, used := Merged(old(L()), a, n).ext, Merged(old(L()), a, n).used;
    }

    /** The same for a run that ends with a free chunk. */
    method SetSizeAndPinuseOfFreeChunk(a: int, size: nat)
      requires Tiled(L()) && Tagged(L(), head, foot) && Mergeable(L(), a, a + size)
      requires a + size in head && !head[a + size].pinuse
      modifies this`head, this`foot, this`ext, this`used
      ensures L() == Merged(old(L()), a, a + size) && Tiled(L()) && Tagged(L(), head, foot)
    {
      hide Tiled, Tagged;
      MergedOk(L(), head, foot, a, a + size);
      head := head[a := Head(size, true, false)];
      foot := foot[a + size := size];
      assert head == old(head)[a := Head(size, true, false)][a + size := old(head)[a + size].(pinuse := false)];
      ext, used := Merged(old(L()), a, a + size).ext, Merged(old(L()), a, a + size).used;
    }

    /** The run from a, which ends with the chunk q in front of top, becomes part of top. */
    method FreeIntoTop(ghost q: int, a: int, psize: nat)
      requires ValidBut(Unrecorded(q, a, dv)) && RunStart(L(), q, a) && End(L(), q) == top && psize == top - a
      modifies this
      ensures Valid() && Freed(old(L()), q)
    {
      hide SmallBins.Valid, TreeBins.Valid, SmallBins.Bag, TreeBins.Bag, Tiled, Tagged, Indexed, RunStart, MergedTop;
      RunToTop(L(), q, a);
      MergedTopOk(L(), head, foot, a);
      RunTopIndexed(L(), small.Bag(), tree.Bag(), dv, dvsize, q, a);
      topsize := topsize + psize;
      top := a;
      head := head[a := Head(topsize, true, false)];
      if a == dv {
        dv := 0;
        dvsize := 0;
      }
      ext, used := MergedTop(old(L()), a).ext, MergedTop(old(L()), a).used;
    }

    /** The run from a, which ends with q, is joined to the victim behind it. */
    method FreeIntoDv(ghost q: int, a: int, psize: nat)
      requires ValidBut(Unrecorded(q, a, dv)) && RunStart(L(), q, a) && dv != 0 && End(L(), q) == dv && psize == dv - a
      modifies this
      ensures Valid() && Freed(old(L()), q)
    {
      hide SmallBins.Valid, TreeBins.Valid, SmallBins.Bag, TreeBins.Bag, Tiled, Tagged, Indexed, PrevUsed, Merged;
      ghost var loose := Unrecorded(q, a, dv);
      DropDv(L(), small.Bag(), tree.Bag(), dv, dvsize, loose);
      ghost var e := dv + dvsize;
      RunBounds(L(), head, foot, q, a, e);
      MergedIndexed(L(), small.Bag(), tree.Bag(), 0, 0, loose + {dv}, a, e);
      dvsize := dvsize + psize;
      dv := a;
      SetSizeAndPinuseOfFreeChunk(a, dvsize);
      AdoptDv(L(), small.Bag(), tree.Bag(), a);
    }

    /**
     Frees the chunk p: it is joined to the free chunks on either side, and the result becomes part of top,
     the victim, or a binned chunk.
     */
    method DisposeChunk(p0: int)
      requires Valid() && p0 in used
      modifies this, Parts()
      ensures Valid() && Freed(old(L()), p0)
    {
      hide SmallBins.Valid, TreeBins.Valid, SmallBins.Bag, TreeBins.Bag, Tiled, Tagged, Indexed, PrevUsed, Merged,
        MergedTop;
      var p := p0;
      ghost var q := p;
      UsedChunk(q);
      NextChunk(L(), head, foot, q);
      var psize := head[p].size;
      var next := p + psize;
      if !head[p].pinuse {
        PrevChunk(L(), head, foot, p);
        var prevsize := foot[p];
        var prev := p - prevsize;
        psize := psize + prevsize;
        p := prev;
        if p != dv {
          UnlinkChunk(p, prevsize, {});
          assert {} + {p} == Unrecorded(q, p, dv);
        } else if head[next].cinuse && head[next].pinuse {
          ghost var l := L();
          RunBounds(l, head, foot, q, p, next);
          RunIndexed(l, head, foot, small.Bag(), tree.Bag(), dv, dvsize, {}, q, p, next);
          dvsize := psize;
          SetFreeWithPinuse(p, psize, next);
          return;
        }
      }
      assert ValidBut(Unrecorded(q, p, dv)) && RunStart(L(), q, p) && next == End(L(), q) == p + psize;
      // the code's run-time checks of the address order and of the next chunk's pinuse bit always pass
      assert p < next && head[next].pinuse;
      DvFree(L(), small.Bag(), tree.Bag(), dv, dvsize, Unrecorded(q, p, dv));
      if !head[next].cinuse {
        if next == top {
          FreeIntoTop(q, p, psize);
          return;
        } else if next == dv {
          FreeIntoDv(q, p, psize);
          return;
        } else {
          var nsize := head[next].size;
          psize := psize + nsize;
          UnlinkChunk(next, nsize, Unrecorded(q, p, dv));
          ghost var l, e := L(), next + nsize;
          RunBounds(l, head, foot, q, p, e);
          RunIndexed(l, head, foot, small.Bag(), tree.Bag(), dv, dvsize, Unrecorded(q, p, dv) + {next}, q, p, e);
          SetSizeAndPinuseOfFreeChunk(p, psize);
          if p == dv {
            dvsize := psize;
            return;
          }
        }
      } else {
        RunBounds(L(), head, foot, q, p, next);
        RunIndexed(L(), head, foot, small.Bag(), tree.Bag(), dv, dvsize, Unrecorded(q, p, dv), q, p, next);
        SetFreeWithPinuse(p, psize, next);
      }
      InsertChunk(p, psize);
    }

    /** Frees the chunk at mem; the null pointer is ignored. */
    method Free(mem: int)
      requires Valid() && (mem != 0 ==> MemToChunk(mem) in used)
      modifies this, Parts()
      ensures Valid()
      ensures mem == 0 ==> L() == old(L()) && dv == old(dv)
      ensures mem != 0 ==> Freed(old(L()), MemToChunk(mem))
    {
      if mem != 0 {
        DisposeChunk(MemToChunk(mem));
      }
    }

    // ---------- aligned allocation ----------

    /** What is in memory at a head word nobody has written is unknown; zero stands for it. */
    static function HeadWord(head: map<int, Head>, a: int): Head {
      if a in head then head[a] else Head(0, false, false)
    }

    /** set_inuse: the chunk's own pinuse bit stays, the next chunk's is set. */
    static function WithInuse(head: map<int, Head>, a: int, size: nat): map<int, Head> {
      var h := head[a := Head(size, HeadWord(head, a).pinuse, true)];
      h[a + size := HeadWord(h, a + size).(pinuse := true)]
    }

    /** Cutting a chunk in front of one with its pinuse bit set in two: the order of the writes does not matter. */
    static lemma TwoInUse(h: map<int, Head>, p: int, n: nat, size: nat)
      requires 0 < n < size && p in h && p + size in h && h[p + size].pinuse
      ensures var cut := h[p := Head(n, h[p].pinuse, true)][p + n := Head(size - n, true, true)];
              && WithInuse(WithInuse(h, p, n), p + n, size - n) == cut
              && WithInuse(WithInuse(h, p + n, size - n), p, n) == cut
    {
    }

    /** The chunk p in use becomes two chunks in use, whose head words are written in either order. */
    method SplitInUse(p: int, n: nat, size: nat, rearFirst: bool)
      requires Valid() && p in used && p in ext && size == ext[p]
      requires MIN_CHUNK_SIZE <= n && n % 16 == 0 && n + MIN_CHUNK_SIZE <= size
      modifies this`head, this`ext, this`used
      ensures Valid() && L() == UsedSplit(old(L()), p, n) && p + n !in old(ext)
    {
      hide SmallBins.Valid, TreeBins.Valid, SmallBins.Bag, TreeBins.Bag, Tiled, Tagged, Indexed, PrevUsed, WithInuse;
      UsedChunk(p);
      NextChunk(L(), head, foot, p);
      UsedSplitOk(L(), head, foot, p, n);
      UsedSplitIndexed(L(), small.Bag(), tree.Bag(), dv, dvsize, p, n);
      NextPinuse(p);
      ghost var h := head;
      TwoInUse(h, p, n, size);
      if rearFirst {
        head := WithInuse(head, p + n, size - n);
        head := WithInuse(head, p, n);
      } else {
        head := WithInuse(head, p, n);
        head := WithInuse(head, p + n, size - n);
      }
      ext, used := UsedSplit(old(L()), p, n).ext, UsedSplit(old(L()), p, n).used;
    }

    /** Gives back all but the first n bytes, or the first n bytes, of the chunk p in use. */
    method GiveBack(p: int, n: nat, size: nat, front: bool)
      requires Valid() && p in used && p in ext && size == ext[p]
      requires MIN_CHUNK_SIZE <= n && n % 16 == 0 && n + MIN_CHUNK_SIZE <= size
      modifies this, Parts()
      ensures Valid()
      ensures if front then CutTo(old(L()), L(), p, p + n, size - n) else CutTo(old(L()), L(), p, p, n)
    {
      hide SmallBins.Valid, TreeBins.Valid, SmallBins.Bag, TreeBins.Bag, Tagged, Indexed, PrevUsed, ValidBut;
      HasTiles();
      ghost var l := L();
      UsedChunk(p);
      InUseBelowTop(p);
      SplitInUse(p, n, size, front);
      HasTiles();
      DisposeChunk(if front then p else p + n);
    }

    lemma HasTiles()
      requires Valid()
      ensures Tiled(L())
    {
    }

    lemma InUseBelowTop(p: int)
      requires Tiled(L()) && p in used && p in ext
      ensures top != 0 && used <= ext.Keys
    {
      assert ChunkOk(L(), p);
    }

    /** Behind a chunk in use the pinuse bit is set. */
    lemma NextPinuse(p: int)
      requires Valid() && p in used && p in ext
      ensures p + ext[p] in head && head[p + ext[p]].pinuse
    {
      hide SmallBins.Valid, TreeBins.Valid, SmallBins.Bag, TreeBins.Bag, Indexed, PrevUsed;
      NextChunk(L(), head, foot, p);
    }

    /** An alignment is at least the size of a chunk. */
    static function Raised(alignment: nat): nat {
      if alignment < MIN_CHUNK_SIZE then MIN_CHUNK_SIZE else alignment
    }

    /** The alignment actually used: at least a chunk, and a power of two. */
    static function AlignmentFor(alignment: nat): nat {
      Pow2(Log2Ceil(Raised(alignment)))
    }

    /** Raises the alignment to the size of a chunk and then to a power of two. */
    static method RoundAlignment(alignment: nat) returns (a: nat)
      requires alignment <= Pow2(63)
      ensures a == AlignmentFor(alignment)
    {
      hide Pow2, Log2, Doubled;
      Five();
      Pow2Values();
      DoubledValue(0);
      a := Raised(alignment);
      if a != Pow2(Log2(a)) {
        var b := 32;
        ghost var k := 5;
        while b < a
          invariant k >= 5 && b == Pow2(k) == Doubled(k - 5) && (k == 5 || Pow2(k - 1) < a)
          decreases 2 * a - b
        {
          NextDouble(k);
          b := b * 2 % SIZE_LIMIT;
          k := k + 1;
        }
        OnlyLog2Ceil(a, k);
        a := b;
      }
    }

    /** The rounding loop's variable after k rounds; doubling wraps around at 64 bits. */
    static function Doubled(k: nat): nat {
      if k == 0 then 32 else 2 * Doubled(k - 1) % SIZE_LIMIT
    }

    static lemma NextDouble(k: nat)
      requires k >= 5
      ensures Pow2(k + 1) == 2 * Pow2(k) && Doubled(k - 4) == 2 * Doubled(k - 5) % SIZE_LIMIT
    {
    }

    /** The rounding of an alignment comes to an end: it is a power of two, or the doubled variable reaches it. */
    static ghost predicate RoundingEnds(alignment: nat) {
      var a := Raised(alignment);
      a == Pow2(Log2(a)) || exists k: nat :: Doubled(k) >= a
    }

    static lemma {:induction false} DoubledValue(k: nat)
      ensures Doubled(k) == if k < 59 then Pow2(k + 5) else 0
    {
      hide Pow2, Doubled;
      Five();
      Pow2Values();
      FirstDouble();
      if k > 0 {
        DoubledValue(k - 1);
        NextDouble(k + 4);
        if k < 59 {
          Pow2Monotone(k + 5, 63);
        }
      }
    }

    static lemma FirstDouble()
      ensures Doubled(0) == 32
    {
    }

    /** The rounding ends exactly for alignments of at most 2^63. */
    static lemma RoundingExact(alignment: nat)
      requires alignment < SIZE_LIMIT
      ensures RoundingEnds(alignment) <==> alignment <= Pow2(63)
    {
      hide Pow2, Log2, Doubled;
      Pow2Values();
      var a := Raised(alignment);
      if alignment <= Pow2(63) {
        DoubledValue(58);
        assert Doubled(58) >= a;
      } else {
        if Log2(a) <= 63 {
          Pow2Monotone(Log2(a), 63);
        } else {
          Pow2Monotone(64, Log2(a));
        }
        forall k: nat
          ensures Doubled(k) < a
        {
          DoubledValue(k);
          if k < 59 {
            Pow2Monotone(k + 5, 63);
          }
        }
      }
    }

    /** Just above the limit. */
    static lemma EndlessRounding()
      ensures !RoundingEnds(0x8000_0000_0000_0001)
    {
      Pow2Values();
      RoundingExact(0x8000_0000_0000_0001);
    }

    static lemma OnlyLog2Ceil(a: nat, k: nat)
      requires a >= 32 && a <= Pow2(k) && k >= 5 && (k == 5 || Pow2(k - 1) < a)
      ensures Log2Ceil(a) == k
    {
      hide Pow2, Log2;
      Log2CeilExact(a);
      var c := Log2Ceil(a);
      Pow2Values();
      Five();
      if c < k {
        Pow2Monotone(c, k - 1);
      } else if k < c {
        Pow2Monotone(k, c - 1);
      }
    }

    static lemma Five()
      ensures Pow2(5) == 32
    {
    }

    static function AlignUp(x: nat, a: nat): nat
      requires a > 0
    {
      (x + a - 1) / a * a
    }

    /** x is a multiple of the alignment a. */
    static predicate IsAligned(x: nat, a: nat)
      requires a > 0
    {
      x % a == 0
    }

    /**
     Room for an aligned chunk of nb bytes and a leader of at least a minimal chunk can always be found in the
     block.
     */
    static lemma AlignedSpot(mem: nat, a: nat, b: nat, csize: nat, nb: nat)
      requires a == 16 * b && b >= 2 && mem % 16 == 0 && !IsAligned(mem, a) && csize >= nb + a + MIN_CHUNK_SIZE
      ensures var br, p := MemToChunk(AlignUp(mem, a)), MemToChunk(mem);
              var pos := if br - p >= MIN_CHUNK_SIZE then br else br + a;
              && MIN_CHUNK_SIZE <= pos - p && (pos - p) % 16 == 0 && (pos - p) + nb + 16 <= csize
              && IsAligned(ChunkToMem(pos), a)
    {
      hide AlignUp, IsAligned;
      var d := RoundedUp(mem, a, b);
    }

    /** The next multiple of a is d bytes on. */
    static lemma RoundedUp(mem: nat, a: nat, b: nat) returns (d: nat)
      requires a == 16 * b && a > 0 && mem % 16 == 0 && !IsAligned(mem, a)
      ensures 0 < d < a && d % 16 == 0 && AlignUp(mem, a) == mem + d
      ensures IsAligned(mem + d, a) && IsAligned(mem + d + a, a)
    {
      hide AlignUp, IsAligned;
      var q, r := Quotient(mem, a);
      d := a - r;
      RoundedFrom(mem, a, q, r);
      RemainderOfMultiple(mem, a, b, q, r);
      MultiplesOf16(b, r);
    }

    static lemma Quotient(x: nat, a: nat) returns (q: nat, r: nat)
      requires a > 0
      ensures x == q * a + r && r < a && (r == 0 <==> IsAligned(x, a))
    {
      q, r := x / a, x % a;
    }

    static lemma MultiplesOf16(b: nat, r: nat)
      requires r % 16 == 0
      ensures (16 * b - r) % 16 == 0
    {
    }

    static lemma RoundedFrom(mem: nat, a: nat, q: nat, r: nat)
      requires mem == q * a + r && 0 < r < a
      ensures AlignUp(mem, a) == mem + (a - r) && IsAligned(mem + (a - r), a) && IsAligned(mem + (a - r) + a, a)
    {
      NextQuotient(mem, a, q, r);
      MultipleOf(q + 1, a);
    }

    static lemma NextQuotient(mem: nat, a: nat, q: nat, r: nat)
      requires a > 0 && mem == q * a + r && 0 < r < a
      ensures (mem + a - 1) / a == q + 1 && (q + 1) * a == mem + (a - r)
    {
      assert (q + 1) * a == q * a + a;
      QuotientOf(mem + a - 1, a, q + 1, r - 1);
    }

    static lemma RemainderOfMultiple(mem: nat, a: nat, b: nat, q: nat, r: nat)
      requires a == 16 * b && mem % 16 == 0 && mem == q * a + r
      ensures r % 16 == 0
    {
      assert q * a == 16 * (q * b);
    }

    static lemma MultipleOf(q: nat, a: nat)
      requires a > 0
      ensures (q * a) % a == 0 && (q * a + a) % a == 0
    {
      QuotientOf(q * a, a, q, 0);
      assert q * a + a == (q + 1) * a;
      QuotientOf(q * a + a, a, q + 1, 0);
    }

    /** A formerly free chunk p was handed out, with room for nb bytes and at most a minimal chunk to spare. */
    ghost predicate Received(l: Layout, p: int, nb: nat)
      reads this
    {
      AlignedOut(l, L(), p, nb)
    }

    /** Moves to an aligned spot in the chunk p, just handed out for l, and gives the leader back. */
    method GiveBackLeader(p: int, a: nat, nb: nat, ghost l: Layout) returns (pos: int)
      requires Valid() && Tiled(l) && p in used && p in ext && p > 0 && p % 16 == 0 && a >= 32 && a == 16 * (a / 16)
        && nb % 16 == 0 && nb >= MIN_CHUNK_SIZE
      requires ext[p] >= nb + a + MIN_CHUNK_SIZE && GivenTo(l, L(), p)
      modifies this, Parts()
      ensures Valid() && pos in used && pos in ext && GivenTo(l, L(), pos) && ext[pos] >= nb
      ensures pos > 0 && IsAligned(ChunkToMem(pos), a) && SameSegment(old(L()), L())
    {
      hide ValidBut, Tiled, GivenTo, AlignUp, IsAligned;
      pos := p;
      var mem := ChunkToMem(p);
      if !IsAligned(mem, a) {
        HeadSize(p);
        AlignedSpot(mem, a, a / 16, head[p].size, nb);
        var br := MemToChunk(AlignUp(mem, a));
        pos := if br - p >= MIN_CHUNK_SIZE then br else br + a;
        HasTiles();
        ghost var l1 := L();
        GiveBack(p, pos - p, head[p].size, true);
        CutKeeps(l, l1, L(), p, pos, l1.ext[p] - (pos - p));
      }
    }

    /** Gives the spare room at the end of the chunk p back, when a chunk fits there. */
    method GiveBackTail(p: int, nb: nat, ghost l: Layout)
      requires Valid() && Tiled(l) && p in used && p in ext && GivenTo(l, L(), p) && MIN_CHUNK_SIZE <= nb <= ext[p]
        && nb % 16 == 0
      modifies this, Parts()
      ensures Valid() && Received(l, p, nb) && p in used && SameSegment(old(L()), L())
    {
      hide ValidBut, Tiled, GivenTo;
      HeadSize(p);
      HasTiles();
      ghost var l2 := L();
      if head[p].size > nb + MIN_CHUNK_SIZE {
        GiveBack(p, nb, head[p].size, false);
        CutKeeps(l, l2, L(), p, p, nb);
      }
    }

    /**
     Allocates bytes of payload at a multiple of the alignment: a larger block is allocated, and the leader in front
     of the aligned spot and the spare room behind are given back. It fails exactly when that larger block cannot be
     had.
     */
    method Memalign(alignment: nat, bytes: nat, sysBase: nat) returns (mem: int)
      requires Valid() && alignment <= Pow2(63) && bytes < SIZE_LIMIT && sysBase % 16 == 0
        && sysBase + MAX_REGION < SIZE_LIMIT
      modifies this, Parts()
      ensures Valid()
      ensures var a := AlignmentFor(alignment);
        mem == 0 <==>
          bytes >= MAX_REQUEST - a || old(Refuses(SizeFor(RequestToSize(bytes) + a + MIN_CHUNK_SIZE - 8), sysBase))
      ensures mem == 0 ==> L() == old(L())
      ensures Rounds(alignment, AlignmentFor(alignment))
        && (bytes < MAX_REQUEST ==> LeastChunk(bytes, RequestToSize(bytes)))
      ensures mem != 0 ==>
        AlignmentFor(alignment) > 0 && mem % AlignmentFor(alignment) == 0
        && AlignedTo(mem, alignment)
      ensures mem != 0 && old(top) == 0 ==>
                FirstSegment(L(), SizeFor(RequestToSize(bytes) + AlignmentFor(alignment) + MIN_CHUNK_SIZE - 8), sysBase)
      ensures mem != 0 ==> bytes < MAX_REQUEST && Received(old(L()), MemToChunk(mem), RequestToSize(bytes))
    {
      hide ValidBut, Tiled, SizeFor, RequestToSize, AlignmentFor, Refuses, Pow2, GivenTo, FirstSegment, AlignedTo,
        VictimAfter, SmallChoice;
      HasTiles();
      ghost var l := L();
      var a := RoundAlignment(alignment);
      AlignmentRange(alignment);
      AlignmentRounds(alignment);
      RequestExact(bytes);
      if bytes >= MAX_REQUEST - a {
        return 0;
      }
      var nb := RequestToSize(bytes);
      var req := nb + a + MIN_CHUNK_SIZE - 8;
      PaddedRange(bytes, a);
      mem := Malloc(req, sysBase);
      if mem == 0 {
        return;
      }
      var p := MemToChunk(mem);
      HandedGiven(l, p, SizeFor(req));
      SizedFor(p, req);
      ghost var l1 := L();
      TopThere(p);
      p := GiveBackLeader(p, a, nb, l);
      ghost var l2 := L();
      TopThere(p);
      GiveBackTail(p, nb, l);
      RegionKept(l1, l2, L(), SizeFor(req), sysBase);
      HeadSize(p);
      mem := ChunkToMem(p);
      MultipleOfAlignment(mem, alignment, a);
    }

    lemma HandedGiven(l: Layout, p: int, nb: nat)
      requires Handed(l, p, nb)
      ensures GivenTo(l, L(), p) && p in used
    {
    }

    lemma HeadSize(p: int)
      requires Valid() && p in used
      ensures p in ext && p in head && head[p].size == ext[p] && p % 16 == 0 && p > 0 && ext[p] % 16 == 0
        && MIN_CHUNK_SIZE <= ext[p] < INDEX_LIMIT
    {
      hide SmallBins.Valid, TreeBins.Valid, SmallBins.Bag, TreeBins.Bag, Indexed, PrevUsed;
      UsedChunk(p);
      ChunkSize(p);
      NextChunk(L(), head, foot, p);
    }

    /** The block allocated for a padded request has room for the request. */
    lemma SizedFor(p: int, req: nat)
      requires Valid() && p in used && p in ext && req < SIZE_LIMIT && SizeFor(req) <= ext[p]
      ensures p in head && head[p].size == ext[p] && p % 16 == 0 && p > 0 && req + 8 <= ext[p]
    {
      hide ValidBut;
      HeadSize(p);
      SizeForBounds(req);
    }

    static lemma AlignmentRange(alignment: nat)
      requires alignment <= Pow2(63)
      ensures var a := AlignmentFor(alignment);
        32 <= a <= 0x8000_0000_0000_0000 && a % 16 == 0 && a == 16 * (a / 16) && a / 16 >= 2
    {
      hide Pow2, Log2;
      var x := Raised(alignment);
      var k := Log2Ceil(x);
      Pow2Values();
      Five();
      Pow2Monotone(5, 63);
      Log2CeilExact(x);
      if k < 5 { Pow2Monotone(k, 4); }
      if k > 63 { Pow2Monotone(63, k - 1); }
      Pow2Monotone(5, k);
      Pow2Monotone(k, 63);
      Pow2Add(4, k - 4);
    }

    /** Where a chunk is in use there is a segment. */
    lemma TopThere(p: int)
      requires Valid() && p in used
      ensures top != 0
    {
      hide SmallBins.Valid, TreeBins.Valid, SmallBins.Bag, TreeBins.Bag, Indexed, Tagged;
    }

    static lemma RegionKept(l1: Layout, l2: Layout, m: Layout, nb: nat, sysBase: nat)
      requires l1.top != 0 && l2.top != 0 && SameSegment(l1, l2) && SameSegment(l2, m)
      ensures FirstSegment(l1, nb, sysBase) ==> FirstSegment(m, nb, sysBase)
    {
    }

    static lemma RequestExact(bytes: nat)
      ensures LeastChunk(bytes, RequestToSize(bytes))
    {
    }

    /** The alignment used is the one asked for, rounded up. */
    static lemma AlignmentRounds(alignment: nat)
      requires alignment <= Pow2(63)
      ensures Rounds(alignment, AlignmentFor(alignment))
    {
      hide Pow2, Log2;
      var x := Raised(alignment);
      var k := Log2Ceil(x);
      Pow2Values();
      Five();
      Log2CeilExact(x);
      if k <= 4 {
        Pow2Monotone(k, 4);
      } else if k > 5 {
        Pow2Monotone(5, k - 1);
        DoubleOf(k);
      }
    }

    static lemma DoubleOf(k: nat)
      requires k > 0
      ensures Pow2(k) == 2 * Pow2(k - 1)
    {
    }

    /** There is only one way to round. */
    static lemma RoundsOnce(alignment: nat, a: nat, b: nat)
      requires Rounds(alignment, a) && Rounds(alignment, b)
      ensures a == b
    {
      hide Pow2;
      var j: nat :| a == Pow2(j);
      var k: nat :| b == Pow2(k);
      if j < k {
        Pow2Monotone(j, k);
      } else if k < j {
        Pow2Monotone(k, j);
      }
    }

    /** A multiple of the rounded alignment is one of the alignment, if that is a power of two. */
    static lemma MultipleOfAlignment(mem: int, alignment: nat, a: nat)
      requires mem >= 0 && Rounds(alignment, a) && mem % a == 0
      ensures AlignedTo(mem, alignment)
    {
      hide Pow2;
      if IsPowerOfTwo(alignment) {
        var k: nat :| alignment == Pow2(k);
        var j: nat :| a == Pow2(j);
        if j < k { Pow2Monotone(j, k); }
        PowerDivides(mem, k, j);
      }
    }

    static lemma {:induction false} PowerDivides(x: nat, k: nat, j: nat)
      requires k <= j && x % Pow2(j) == 0
      ensures x % Pow2(k) == 0
      decreases j
    {
      hide Pow2;
      if k < j {
        DoubleOf(j);
        var m := Pow2(j - 1);
        var q := x / (2 * m);
        assert x == q * (2 * m) by { var _, _ := Euclid(x, 2 * m); }
        Associate(q, 2, m);
        QuotientOf(x, m, 2 * q, 0);
        PowerDivides(x, k, j - 1);
      }
    }

    static lemma PaddedRange(bytes: nat, a: nat)
      requires 32 <= a <= 0x8000_0000_0000_0000 && bytes < MAX_REQUEST - a
      ensures var nb := RequestToSize(bytes);
        MIN_CHUNK_SIZE <= nb && nb % 16 == 0 && nb <= bytes + 32 && nb + a + MIN_CHUNK_SIZE - 8 < SIZE_LIMIT
          && bytes < MAX_REQUEST
    {
    }

    lemma UsedChunk(q: int)
      requires Tiled(L()) && q in used
      ensures q in ext && q > 0
    {
      assert ChunkOk(L(), q);
    }
  }

  // ---------- whole runs ----------

  /** Freeing what was just allocated restores the layout exactly. */
  method MallocThenFree(h: Heap, bytes: nat, sysBase: nat) returns (mem: int)
    requires h.Valid() && h.top != 0 && bytes < SIZE_LIMIT && sysBase % 16 == 0 && sysBase + MAX_REGION < SIZE_LIMIT
    modifies h, h.Parts()
    ensures h.Valid() && h.L() == old(h.L())
  {
    hide SmallBins.Valid, TreeBins.Valid, SmallBins.Bag, TreeBins.Bag, Tagged, Indexed;
    ghost var l := h.L();
    mem := h.Malloc(bytes, sysBase);
    if mem != 0 {
      h.Free(mem);
      UsedHaveExtents(l);
      LayoutDetermined(l, h.L());
    }
  }

  lemma UsedHaveExtents(l: Layout)
    requires Tiled(l)
    ensures l.used <= l.ext.Keys
  {
  }

  /** The block at mem, asked for with size bytes, is aligned, in use, and large enough. */
  ghost predicate Serves(l: Layout, mem: int, bytes: nat) {
    var p := mem - 16;
    mem % 16 == 0 && mem > 0 && p in l.used && p in l.ext && mem + bytes <= End(l, p) + 8
  }

  lemma HandedServes(h: Heap, l: Layout, mem: int, bytes: nat)
    requires h.Valid() && bytes < SIZE_LIMIT && h.Handed(l, MemToChunk(mem), Heap.SizeFor(bytes))
    ensures Serves(h.L(), mem, bytes)
  {
    hide SmallBins.Valid, TreeBins.Valid, SmallBins.Bag, TreeBins.Bag, Tiled, Tagged, Indexed, Heap.SizeFor;
    h.ChunkSize(MemToChunk(mem));
    Heap.SizeForBounds(bytes);
  }

  lemma ReceivedServes(h: Heap, l: Layout, mem: int, bytes: nat)
    requires h.Valid() && Tiled(l) && bytes < MAX_REQUEST && h.Received(l, MemToChunk(mem), RequestToSize(bytes))
    ensures Serves(h.L(), mem, bytes)
  {
    hide SmallBins.Valid, TreeBins.Valid, SmallBins.Bag, TreeBins.Bag, Tiled, Tagged, Indexed;
    h.ChunkSize(MemToChunk(mem));
  }

  lemma TilesOf(h: Heap)
    requires h.Valid()
    ensures Tiled(h.L())
  {
  }

  lemma NothingLive(h: Heap)
    requires h.Valid() && forall p :: p !in h.used
    ensures h.ext == map[] && h.top == h.base
  {
    hide Heap.ValidBut;
    TilesOf(h);
    AllFree(h.L());
  }

  // ---------- histories ----------

  datatype Call = CallMalloc(bytes: nat) | CallMemalign(alignment: nat, bytes: nat) | CallFree(mem: int)

  ghost predicate Callable(c: Call) {
    match c
    case CallMalloc(bytes) => bytes < SIZE_LIMIT
    case CallMemalign(alignment, bytes) => alignment <= Pow2(63) && bytes < SIZE_LIMIT
    case CallFree(_) => true
  }

  /** The live blocks, with the bytes asked for, after one more call with result r. */
  function LiveThen(live: map<int, nat>, c: Call, r: int): map<int, nat> {
    match c
    case CallFree(mem) => live - {mem}
    case _ => if r != 0 then live[r := c.bytes] else live
  }

  /** The live blocks after the first k calls. */
  function LiveAfter(calls: seq<Call>, rs: seq<int>, k: nat): map<int, nat>
    requires k <= |calls| && k <= |rs|
  {
    if k == 0 then map[] else LiveThen(LiveAfter(calls, rs, k - 1), calls[k - 1], rs[k - 1])
  }

  /** Every live block is served, and the chunks in use are the live blocks. */
  ghost predicate AllServed(l: Layout, live: map<int, nat>) {
    && (forall m :: m in live ==> Serves(l, m, live[m]))
    && forall p :: p in l.used ==> p + 16 in live
  }

  /** What a call makes of the layout, and what it returns: null exactly when it must be refused. */
  ghost predicate CallDone(l: Layout, live: map<int, nat>, c: Call, r: int, m: Layout, sysBase: nat) {
    match c
    case CallMalloc(bytes) =>
      var nb := Heap.SizeFor(bytes);
      && Asked(bytes, nb) && (r == 0 <==> Refused(l, nb, sysBase))
      && (if r == 0 then m == l
          else HandedOut(l, m, MemToChunk(r), nb) && (l.top == 0 ==> FirstSegment(m, nb, sysBase)))
    case CallMemalign(alignment, bytes) =>
      var a := Heap.AlignmentFor(alignment);
      var req := RequestToSize(bytes) + a + 24;
      var nb := Heap.SizeFor(req);
      && Rounds(alignment, a) && (bytes < MAX_REQUEST ==> LeastChunk(bytes, RequestToSize(bytes))) && Asked(req, nb)
      && (r == 0 <==> bytes >= MAX_REQUEST - a || Refused(l, nb, sysBase))
      && (if r == 0 then m == l
          else
            && AlignedTo(r, alignment) && AlignedOut(l, m, MemToChunk(r), RequestToSize(bytes))
            && (l.top == 0 ==> FirstSegment(m, nb, sysBase)))
    case CallFree(mem) =>
      r == 0 && if mem in live then TakenBack(l, m, MemToChunk(mem)) else m == l
  }

  /** Call i took the layout from trace[i] to trace[i + 1]. */
  ghost predicate CallStep(trace: seq<Layout>, calls: seq<Call>, rs: seq<int>, i: nat, sysBase: nat)
    requires i + 1 < |trace| && i < |calls| && i < |rs|
  {
    CallDone(trace[i], LiveAfter(calls, rs, i), calls[i], rs[i], trace[i + 1], sysBase)
  }

  /**
   A heap that had a segment in l0 keeps it; one that had none has at most the region at sysBase. The live blocks lie
   inside, from the first chunk's payload to the end of the trailer.
   */
  ghost predicate InSegment(l0: Layout, l: Layout, live: map<int, nat>, sysBase: nat) {
    && (l0.top != 0 ==> l.top != 0 && l.base == l0.base && l.top + l.topsize == l0.top + l0.topsize)
    && (l0.top == 0 && l.top != 0 ==> OfRegion(l, sysBase))
    && forall m :: m in live ==> l.base + 16 <= m && m + live[m] <= l.top + l.topsize + 80
  }

  /** Before call i every live block is served, inside the segment. */
  ghost predicate ServedAt(trace: seq<Layout>, calls: seq<Call>, rs: seq<int>, i: nat, sysBase: nat)
    requires 0 < |trace| && i < |trace| && i <= |calls| && i <= |rs|
  {
    AllServed(trace[i], LiveAfter(calls, rs, i)) && InSegment(trace[0], trace[i], LiveAfter(calls, rs, i), sysBase)
  }

  lemma StaysInSegment(l0: Layout, l: Layout, m: Layout, live: map<int, nat>, c: Call, r: int, sysBase: nat)
    requires Tiled(l) && Tiled(m) && InSegment(l0, l, live, sysBase) && CallDone(l, live, c, r, m, sysBase)
    requires AllServed(l, live) && AllServed(m, LiveThen(live, c, r))
    ensures InSegment(l0, m, LiveThen(live, c, r), sysBase)
  {
    hide LiveThen, CallDone, Tiled, AllServed;
    SegmentStep(l, m, live, c, r, sysBase);
    if l.top != 0 { SegmentThere(l, m); }
    ServedInside(m, LiveThen(live, c, r));
  }

  /** A call keeps the segment there is, or gets the first one. */
  lemma SegmentStep(l: Layout, m: Layout, live: map<int, nat>, c: Call, r: int, sysBase: nat)
    requires Tiled(l) && AllServed(l, live) && CallDone(l, live, c, r, m, sysBase)
    ensures SameSegment(l, m) && (l.top == 0 ==> m == l || OfRegion(m, sysBase))
  {
    hide Asked, Refused, Heap.SizeFor, RequestToSize, Heap.AlignmentFor, Rounds, AlignedTo, LeastChunk;
    if c.CallFree? && c.mem in live {
      assert Serves(l, c.mem, live[c.mem]);
      assert ChunkOk(l, MemToChunk(c.mem));
    }
  }

  /** A segment does not go away. */
  lemma SegmentThere(l: Layout, m: Layout)
    requires Tiled(l) && Tiled(m) && SameSegment(l, m) && l.top != 0
    ensures m.top != 0
  {
    hide ChunkOk, Coalesced, Apart;
  }

  lemma ServedInside(m: Layout, live: map<int, nat>)
    requires Tiled(m) && AllServed(m, live)
    ensures forall x :: x in live ==> m.base + 16 <= x && x + live[x] <= m.top + m.topsize + 80
  {
    hide Coalesced, Apart;
    forall x | x in live
      ensures m.base + 16 <= x && x + live[x] <= m.top + m.topsize + 80
    {
      assert Serves(m, x, live[x]) && ChunkOk(m, MemToChunk(x));
    }
  }

  /** The first |rs| calls returned rs and led through the layouts of the trace. */
  ghost predicate IsHistory(trace: seq<Layout>, calls: seq<Call>, rs: seq<int>, sysBase: nat) {
    && |rs| <= |calls| && |trace| == |rs| + 1
    && (forall i: nat {:trigger CallStep(trace, calls, rs, i, sysBase)} ::
          i < |rs| ==> CallStep(trace, calls, rs, i, sysBase))
    && (forall i: nat {:trigger ServedAt(trace, calls, rs, i, sysBase)} ::
          i <= |rs| ==> ServedAt(trace, calls, rs, i, sysBase))
  }

  lemma {:induction false} LiveLonger(calls: seq<Call>, rs: seq<int>, r: int, k: nat)
    requires k <= |rs| && k <= |calls|
    ensures LiveAfter(calls, rs + [r], k) == LiveAfter(calls, rs, k)
  {
    if k > 0 {
      LiveLonger(calls, rs, r, k - 1);
    }
  }

  lemma HistoryLonger(trace: seq<Layout>, calls: seq<Call>, rs: seq<int>, sysBase: nat, m: Layout, r: int)
    requires IsHistory(trace, calls, rs, sysBase) && |rs| < |calls|
    requires var live := LiveAfter(calls, rs, |rs|);
             && CallDone(trace[|rs|], live, calls[|rs|], r, m, sysBase)
             && AllServed(m, LiveThen(live, calls[|rs|], r)) && Tiled(trace[|rs|]) && Tiled(m)
    ensures IsHistory(trace + [m], calls, rs + [r], sysBase)
  {
    hide CallDone, AllServed, LiveThen, InSegment, Tiled;
    var longer, results := trace + [m], rs + [r];
    LiveLonger(calls, rs, r, |rs|);
    assert ServedAt(trace, calls, rs, |rs|, sysBase);
    StaysInSegment(trace[0], trace[|rs|], m, LiveAfter(calls, rs, |rs|), calls[|rs|], r, sysBase);
    forall i: nat | i < |results|
      ensures CallStep(longer, calls, results, i, sysBase)
    {
      LiveLonger(calls, rs, r, i);
      assert i < |rs| ==> CallStep(trace, calls, rs, i, sysBase);
    }
    forall i: nat | i <= |results|
      ensures ServedAt(longer, calls, results, i, sysBase)
    {
      if i <= |rs| {
        LiveLonger(calls, rs, r, i);
        assert ServedAt(trace, calls, rs, i, sysBase);
      }
    }
  }

  /** Handing out a block that serves its request keeps the others served. */
  lemma GivenServed(l: Layout, m: Layout, live: map<int, nat>, mem: int, bytes: nat)
    requires AllServed(l, live) && GivenTo(l, m, MemToChunk(mem)) && Serves(m, mem, bytes)
    ensures AllServed(m, live[mem := bytes])
  {
    forall x | x in live
      ensures x != mem && Serves(m, x, live[x])
    {
      assert Serves(l, x, live[x]);
    }
  }

  /** So does taking one back. */
  lemma TakenServed(l: Layout, m: Layout, live: map<int, nat>, mem: int)
    requires AllServed(l, live) && mem in live && TakenBack(l, m, MemToChunk(mem))
    ensures AllServed(m, live - {mem})
  {
    forall x | x in live && x != mem
      ensures Serves(m, x, live[x])
    {
      assert Serves(l, x, live[x]);
    }
  }

  method ExecuteMalloc(h: Heap, ghost live: map<int, nat>, bytes: nat, sysBase: nat) returns (r: int)
    requires h.Valid() && AllServed(h.L(), live) && bytes < SIZE_LIMIT && sysBase % 16 == 0
      && sysBase + MAX_REGION < SIZE_LIMIT
    modifies h, h.Parts()
    ensures h.Valid() && CallDone(old(h.L()), live, CallMalloc(bytes), r, h.L(), sysBase)
    ensures AllServed(h.L(), LiveThen(live, CallMalloc(bytes), r))
  {
    hide Heap.ValidBut, Refused, Serves, GivenTo, AllServed, Heap.SizeFor, FirstSegment, Asked, SmallChoice,
      Heap.VictimAfter;
    ghost var l := h.L();
    r := h.Malloc(bytes, sysBase);
    if r != 0 {
      HandedServes(h, l, r, bytes);
      GivenServed(l, h.L(), live, r, bytes);
    }
  }

  method ExecuteMemalign(h: Heap, ghost live: map<int, nat>, alignment: nat, bytes: nat, sysBase: nat) returns (r: int)
    requires h.Valid() && AllServed(h.L(), live) && alignment <= Pow2(63) && bytes < SIZE_LIMIT
    requires sysBase % 16 == 0 && sysBase + MAX_REGION < SIZE_LIMIT
    modifies h, h.Parts()
    ensures h.Valid() && CallDone(old(h.L()), live, CallMemalign(alignment, bytes), r, h.L(), sysBase)
    ensures AllServed(h.L(), LiveThen(live, CallMemalign(alignment, bytes), r))
  {
    hide Heap.ValidBut, Refused, Tiled, Pow2, Serves, GivenTo, AllServed, Heap.SizeFor, RequestToSize,
      Heap.AlignmentFor, FirstSegment, Asked, Rounds, AlignedTo, LeastChunk;
    ghost var l := h.L();
    TilesOf(h);
    Heap.SizeAsked(RequestToSize(bytes) + Heap.AlignmentFor(alignment) + 24);
    r := h.Memalign(alignment, bytes, sysBase);
    if r != 0 {
      ReceivedServes(h, l, r, bytes);
      GivenServed(l, h.L(), live, r, bytes);
    }
  }

  method ExecuteFree(h: Heap, live: map<int, nat>, mem: int, ghost sysBase: nat)
    requires h.Valid() && AllServed(h.L(), live)
    modifies h, h.Parts()
    ensures h.Valid() && CallDone(old(h.L()), live, CallFree(mem), 0, h.L(), sysBase)
    ensures AllServed(h.L(), LiveThen(live, CallFree(mem), 0))
  {
    hide Heap.ValidBut, TakenBack;
    if mem in live {
      ghost var l := h.L();
      assert Serves(l, mem, live[mem]);
      h.Free(mem);
      TakenServed(l, h.L(), live, mem);
    } else {
      assert live - {mem} == live;
    }
  }

  method ExecuteCall(h: Heap, live: map<int, nat>, c: Call, sysBase: nat) returns (r: int)
    requires h.Valid() && AllServed(h.L(), live) && Callable(c)
    requires sysBase % 16 == 0 && sysBase + MAX_REGION < SIZE_LIMIT
    modifies h, h.Parts()
    ensures h.Valid() && CallDone(old(h.L()), live, c, r, h.L(), sysBase)
    ensures AllServed(h.L(), LiveThen(live, c, r))
  {
    hide Heap.ValidBut, AllServed, CallDone, LiveThen, Pow2;
    match c
    case CallMalloc(bytes) => r := ExecuteMalloc(h, live, bytes, sysBase);
    case CallMemalign(alignment, bytes) => r := ExecuteMemalign(h, live, alignment, bytes, sysBase);
    case CallFree(mem) =>
      r := 0;
      ExecuteFree(h, live, mem, sysBase);
  }

  /**
   Any sequence of calls, which may free any live block: each does what it should to the layout and returns null exactly
   when it must; all the time every live block is served and the chunks in use are the live blocks.
   */
  method RunClient(h: Heap, calls: seq<Call>, sysBase: nat) returns (rs: seq<int>, ghost trace: seq<Layout>)
    requires h.Valid() && h.used == {} && sysBase % 16 == 0 && sysBase + MAX_REGION < SIZE_LIMIT
    requires forall i :: 0 <= i < |calls| ==> Callable(calls[i])
    modifies h, h.Parts()
    ensures h.Valid() && |rs| == |calls|
    ensures IsHistory(trace, calls, rs, sysBase) && trace[0] == old(h.L()) && trace[|calls|] == h.L()
    ensures LiveAfter(calls, rs, |calls|) == map[] ==> h.ext == map[] && h.top == h.base
  {
    hide Heap.Valid, Heap.L, Pow2, AllServed, CallDone, Callable, LiveThen, Tiled;
    var live := map[];
    rs, trace := [], [h.L()];
    NoneServed(h);
    TilesOf(h);
    assert ServedAt(trace, calls, rs, 0, sysBase);
    for i := 0 to |calls|
      invariant h.Valid() && |rs| == i && live == LiveAfter(calls, rs, i) && AllServed(h.L(), live)
      invariant IsHistory(trace, calls, rs, sysBase) && trace[0] == old(h.L()) && trace[i] == h.L()
    {
      TilesOf(h);
      var r := ExecuteCall(h, live, calls[i], sysBase);
      TilesOf(h);
      HistoryLonger(trace, calls, rs, sysBase, h.L(), r);
      LiveLonger(calls, rs, r, i);
      live := LiveThen(live, calls[i], r);
      rs, trace := rs + [r], trace + [h.L()];
    }
    if live == map[] {
      NoneLive(h);
      NothingLive(h);
    }
  }

  lemma NoneServed(h: Heap)
    requires h.used == {}
    ensures AllServed(h.L(), map[])
  {
  }

  lemma NoneLive(h: Heap)
    requires AllServed(h.L(), map[])
    ensures forall p :: p !in h.used
  {
  }
}
