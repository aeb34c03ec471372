/**
 The allocator's small bins: circular lists of equal-sized free chunks, one for each multiple of eight
 bytes below 256, each headed by its bin, with a bit map of the bins that are not empty.
 An empty bin's header is left with stale links; only its map bit says that it is empty.
 */
module SmallBinLists {
  import opened ChunkSizes
  import opened Bitmaps
  import opened Rings

  const NSMALLBINS := 32

  function SmallIndex(s: nat): nat { s / 8 }

  function IndexToSize(i: nat): nat { 8 * i }

  /** The address of a bin's header seen as a chunk. */
  function BinAt(i: nat): int { -1 - i }

  /** One bin: its map bit, its circular list (when it is marked) and the chunks it holds. */
  ghost predicate BinOk(link: map<int, Link>, marked: bool, items: seq<int>, binOf: map<int, nat>, i: nat) {
    && BinAt(i) in link
    && (marked <==> items != [])
    && (items != [] ==> RingAt(link, [BinAt(i)] + items))
    && (forall x :: x in items <==> x in binOf && binOf[x] == i)
  }

  /** A bin does not depend on the links and chunks of the others. */
  lemma BinFrame(link: map<int, Link>, link': map<int, Link>, marked: bool, items: seq<int>,
                 binOf: map<int, nat>, binOf': map<int, nat>, i: nat)
    requires BinOk(link, marked, items, binOf, i)
    requires forall x :: (x in binOf && binOf[x] == i) <==> (x in binOf' && binOf'[x] == i)
    requires forall x :: x in link && (x == BinAt(i) || x in items) ==> x in link' && link'[x] == link[x]
    ensures BinOk(link', marked, items, binOf', i)
  {
    hide RingAt;
    if items != [] {
      var s := [BinAt(i)] + items;
      RingMembers(link, s);
      RingFrame(link, link', s);
    }
  }

  /** The bin that chunk x joins as its first. */
  lemma NewFirst(l: map<int, Link>, items: seq<int>, bo: map<int, nat>, i: nat, x: int, link: map<int, Link>)
    requires BinOk(l, items != [], items, bo, i) && x !in bo && x > 0 && BinAt(i) in l
    requires items != [] ==> l[BinAt(i)].fd == items[0] && items[0] in l
    requires var b := BinAt(i);
      var f := if items == [] then b else l[b].fd;
      var l1 := l[b := Link(x, l[b].bk)];
      link == l1[f := Link(l1[f].fd, x)][x := Link(f, b)]
    ensures BinOk(link, true, [x] + items, bo[x := i], i)
  {
    hide RingAt;
    var b := BinAt(i);
    if items == [] {
      TwoRing(link, b, x);
      assert [b] + ([x] + items) == [b, x];
    } else {
      var s := [b] + items;
      InsertAfterHead(l, s, x, link);
      assert [s[0], x] + s[1..] == [b] + ([x] + items);
    }
  }

  /** The bin that chunk x leaves. */
  lemma OwnBin(l: map<int, Link>, items: seq<int>, bo: map<int, nat>, i: nat, k: nat, x: int, link: map<int, Link>)
    requires BinOk(l, true, items, bo, i) && k < |items| && items[k] == x
    requires x in l && l[x].fd in l && l[x].bk in l
    requires link == if l[x].fd == l[x].bk then l else Bypassed(l, x)
    ensures BinOk(link, l[x].fd != l[x].bk, Removed(items, k), bo - {x}, i)
    ensures l[x].fd in [BinAt(i)] + items && l[x].bk in [BinAt(i)] + items
  {
    hide RingAt;
    var s := [BinAt(i)] + items;
    assert s[k + 1] == x && x in items;
    RingDistinct(l, s);
    ItemsDistinct(BinAt(i), items);
    RemovedMembers(items, k);
    PairOrMore(l, s, k + 1);
    RingNeighbour(l, s, k + 1);
    if |items| > 1 {
      Unlink(l, s, k + 1, link);
      assert Removed(s, k + 1) == [BinAt(i)] + Removed(items, k);
    }
  }

  class SmallBins {
    var link: map<int, Link>
    var smallmap: bv32
    ghost var items: seq<seq<int>>
    ghost var binOf: map<int, nat>

    ghost predicate Valid()
      reads this
    {
      && |items| == NSMALLBINS
      && (forall i :: 0 <= i < NSMALLBINS ==> BinOk(link, i in Bins(smallmap), items[i], binOf, i))
      && (forall x :: x in binOf ==> x > 0 && binOf[x] < NSMALLBINS)
    }

    /** The binned chunks with their sizes. */
    ghost function Bag(): map<int, nat>
      reads this
    {
      map x | x in binOf :: IndexToSize(binOf[x])
    }

    constructor ()
      ensures Valid() && Bag() == map[] && smallmap == 0
    {
      link := map i: nat | i < NSMALLBINS :: BinAt(i) := Link(BinAt(i), BinAt(i));
      smallmap := 0;
      items := seq(NSMALLBINS, _ => []);
      binOf := map[];
      new;
      EmptyMap(0);
    }

    /** The chunks of bin i form the bin's list; its first one is behind the header. */
    lemma BinFacts(i: nat)
      requires Valid() && i < NSMALLBINS
      ensures |items| == NSMALLBINS && BinAt(i) in link && (Bit(smallmap, i) <==> items[i] != [])
      ensures i in Bins(smallmap) <==> items[i] != []
      ensures items[i] != [] ==>
                && RingAt(link, [BinAt(i)] + items[i])
                && link[BinAt(i)].fd == items[i][0] && items[i][0] in link && items[i][0] in Bag()
                  && Bag()[items[i][0]] == IndexToSize(i)
      ensures forall x :: x in items[i] <==> x in binOf && binOf[x] == i
    {
      hide Bins, Bit;
      InBins(smallmap, i);
      assert BinOk(link, i in Bins(smallmap), items[i], binOf, i);
      if items[i] != [] {
        var s := [BinAt(i)] + items[i];
        assert LinkedAt(link, s, 0) && LinkedAt(link, s, 1);
        assert s[1] == items[i][0] && items[i][0] in items[i];
      }
    }

    /** The bin of a binned chunk is marked. */
    lemma BagMarked(x: int)
      requires Valid() && x in Bag()
      ensures SmallIndex(Bag()[x]) < NSMALLBINS && SmallIndex(Bag()[x]) in Bins(smallmap)
    {
      hide Bins, RingAt;
      var i := binOf[x];
      assert BinOk(link, i in Bins(smallmap), items[i], binOf, i);
    }

    /** Chunk x becomes the first of its bin. */
    method InsertSmallChunk(x: int, s: nat)
      requires Valid() && x > 0 && x !in Bag() && MIN_CHUNK_SIZE <= s < 256 && s % 8 == 0
      modifies this
      ensures Valid() && Bag() == old(Bag())[x := s]
    {
      hide Bins, Bit, Mark, RingAt;
      var i := SmallIndex(s);
      var b := BinAt(i);
      var f := b;
      BinFacts(i);
      ghost var l, its, bo := link, items, binOf;
      if !Bit(smallmap, i) {
        smallmap := Mark(smallmap, i);
      } else {
        f := link[b].fd;
      }
      link := link[b := Link(x, link[b].bk)];
      link := link[f := Link(link[f].fd, x)];
      link := link[x := Link(f, b)];
      items := items[i := [x] + items[i]];
      binOf := binOf[x := i];
      NewFirst(l, its[i], bo, i, x, link);
      forall j | 0 <= j < NSMALLBINS
        ensures BinOk(link, j in Bins(smallmap), items[j], binOf, j)
      {
        if j != i {
          assert BinOk(l, j in Bins(old(smallmap)), its[j], bo, j);
          BinFrame(l, link, j in Bins(smallmap), its[j], bo, binOf, j);
        }
      }
    }

    /** The k-th chunk of bin i has been bypassed, or was the only one. */
    lemma BypassedBin(l: map<int, Link>, map0: bv32, its: seq<seq<int>>, bo: map<int, nat>, i: nat, k: nat, x: int)
      requires |its| == NSMALLBINS && i < NSMALLBINS && k < |its[i]| && its[i][k] == x
      requires forall j :: 0 <= j < NSMALLBINS ==> BinOk(l, j in Bins(map0), its[j], bo, j)
      requires forall y :: y in bo ==> y > 0 && bo[y] < NSMALLBINS
      requires items == its[i := Removed(its[i], k)] && binOf == bo - {x}
      requires x in l && l[x].fd in l && l[x].bk in l
      requires if l[x].fd == l[x].bk then link == l && smallmap == Clear(map0, i)
               else link == Bypassed(l, x) && smallmap == map0
      ensures Valid()
    {
      hide Bins, Clear, RingAt, Removed;
      assert BinOk(l, i in Bins(map0), its[i], bo, i);
      assert x in its[i];
      OwnBin(l, its[i], bo, i, k, x, link);
      forall j | 0 <= j < NSMALLBINS
        ensures BinOk(link, j in Bins(smallmap), items[j], binOf, j)
      {
        assert BinOk(l, j in Bins(map0), its[j], bo, j);
        if j != i {
          BinFrame(l, link, j in Bins(smallmap), its[j], bo, binOf, j);
        }
      }
    }

    /** Chunk x of size s leaves its bin. */
    method UnlinkSmallChunk(x: int, s: nat)
      requires Valid() && x in Bag() && Bag()[x] == s
      modifies this
      ensures Valid() && Bag() == old(Bag()) - {x}
    {
      hide Bins, Clear, RingAt;
      ghost var l, m0, its, bo := link, smallmap, items, binOf;
      var i := SmallIndex(s);
      BinFacts(i);
      ghost var k :| 0 <= k < |items[i]| && items[i][k] == x;
      ghost var r := [BinAt(i)] + items[i];
      assert r[k + 1] == x;
      RingNeighbour(link, r, k + 1);
      RingMirror(link, r, k + 1);
      var f := link[x].fd;
      var b := link[x].bk;
      assert link[f].bk == x && link[b].fd == x && s == IndexToSize(i);
      if b == f {
        smallmap := Clear(smallmap, i);
      } else {
        link := link[f := Link(link[f].fd, b)];
        link := link[b := Link(f, link[b].bk)];
      }
      items := items[i := Removed(items[i], k)];
      binOf := binOf - {x};
      BypassedBin(l, m0, its, bo, i, k, x);
    }

    /** The first chunk p of the marked bin i leaves it. */
    method UnlinkFirstSmallChunk(p: int, i: nat)
      requires Valid() && i < NSMALLBINS && i in Bins(smallmap) && BinAt(i) in link && link[BinAt(i)].fd == p
      modifies this
      ensures p in old(Bag()) && old(Bag())[p] == IndexToSize(i)
      ensures Valid() && Bag() == old(Bag()) - {p}
    {
      hide Bins, Clear, RingAt;
      ghost var l, m0, its, bo := link, smallmap, items, binOf;
      BinFacts(i);
      ghost var r := [BinAt(i)] + items[i];
      assert r[1] == p && r[0] == BinAt(i);
      RingNeighbour(link, r, 1);
      RingMirror(link, r, 1);
      RingMirror(link, r, 0);
      var b := BinAt(i);
      var f := link[p].fd;
      assert link[f].bk == p && link[p].bk == b;
      if b == f {
        smallmap := Clear(smallmap, i);
      } else {
        link := link[f := Link(link[f].fd, b)];
        link := link[b := Link(f, link[b].bk)];
      }
      items := items[i := Removed(items[i], 0)];
      binOf := binOf - {p};
      BypassedBin(l, m0, its, bo, i, 0, p);
    }
  }

  lemma TwoRing(m: map<int, Link>, b: int, x: int)
    requires b != x && b in m && x in m && m[b] == Link(x, x) && m[x] == Link(b, b)
    ensures RingAt(m, [b, x])
  {
  }

  lemma ItemsDistinct(b: int, items: seq<int>)
    requires Distinct([b] + items)
    ensures Distinct(items)
  {
    var s := [b] + items;
    forall i, j | 0 <= i < j < |items|
      ensures items[i] != items[j]
    {
      assert s[i + 1] == items[i] && s[j + 1] == items[j];
    }
  }

  /** A chunk's two neighbours are the same exactly when it shares its ring with at most one other. */
  lemma PairOrMore(m: map<int, Link>, s: seq<int>, k: nat)
    requires RingAt(m, s) && k < |s|
    ensures s[k] in m && (m[s[k]].fd == m[s[k]].bk <==> |s| <= 2)
  {
    assert LinkedAt(m, s, k);
  }
}
