/**
 The allocator's large bins: 32 tries of free chunks, updated in place, with a bit map of the bins that
 are not empty.
 */
module LargeBins {
  import opened ChunkSizes
  import opened Powers
  import opened Blocks
  import opened Bitmaps
  import opened Rings
  import opened TreeIndex
  import opened TrieCells
  import opened Tries
  import opened TreeSearch

  /** The outcome of a naive scan for a smallest chunk of at least nb bytes; 0 when there is none. */
  ghost predicate BestFit(bag: map<int, nat>, nb: nat, best: int) {
    if best == 0 then forall x :: x in bag ==> bag[x] < nb
    else best in bag && bag[best] >= nb && forall x :: x in bag && bag[x] >= nb ==> bag[best] <= bag[x]
  }

  const TOP_BIT := 0x8000_0000_0000_0000

  class TreeBins {
    var link: map<int, Link>
    var node: map<int, TreeNode>
    var size: map<int, nat>
    const treebins: array<int>
    var treemap: bv32
    ghost var cell: map<int, Cell>
    ghost var ring: map<int, seq<int>>

    ghost function V(): Trie
      reads this, treebins
    {
      Trie(link, node, size, treebins[..], cell, ring)
    }

    ghost predicate Valid()
      reads this, treebins
    {
      && treebins.Length == NTREEBINS && Inv(V())
      && forall i :: 0 <= i < NTREEBINS ==> (i in Bins(treemap) <==> treebins[i] != 0)
    }

    /** The binned chunks with their sizes. */
    ghost function Bag(): map<int, nat>
      reads this, treebins
    {
      map x | x in size && Holds(V(), x) :: size[x]
    }

    constructor ()
      ensures Valid() && Bag() == map[] && treemap == 0 && fresh(treebins)
    {
      link, node, size := map[], map[], map[];
      treebins := new int[NTREEBINS](_ => 0);
      treemap := 0;
      cell, ring := map[], map[];
      new;
      EmptyMap(0);
    }

    lemma BagSize(x: int)
      requires Valid()
      ensures x in Bag() <==> Holds(V(), x)
      ensures x in Bag() ==> Bag()[x] == size[x] && LargeSize(size[x]) && x > 0
    {
      if Holds(V(), x) {
        var t := HeldBehind(V(), x);
        CoverOf(V(), t);
      }
    }

    /** With an empty map there are no large chunks. */
    lemma NoBins()
      requires Valid() && treemap == 0
      ensures Bag() == map[]
    {
      hide Inv, Covers, Bins, Holds, Under;
      EmptyMap(treemap);
      forall x | x in Bag()
        ensures false
      {
        BagSize(x);
        var t := HeldBehind(V(), x);
        RootHolds(V(), t);
      }
    }

    /** The first chunk of an empty bin becomes its root. */
    method InsertRoot(x: int, s: nat, i: nat)
      requires Valid() && x > 0 && x !in Bag() && LargeSize(s) && i == TreeIndexOf(s) && i < NTREEBINS
        && treebins[i] == 0
      modifies this, treebins
      ensures Valid() && Bag() == old(Bag())[x := s]
    {
      hide Mark, Bins, Covers, RootHeight, Inv, TreeIndexOf, Base, Pow2, RootCell, Place, Holds;
      ghost var v := V();
      BagSize(x);
      CoverRoot(s);
      NoRoot(v, i, s);
      RootPlace(v, i);
      AddNode(v, x, s, RootCell(i), BinSlot(i), true);
      treemap := Mark(treemap, i);
      treebins[i] := x;
      size := size[x := s];
      node := node[x := TreeNode(0, 0, BinSlot(i), i)];
      link := link[x := Link(x, x)];
      cell := cell[x := RootCell(i)];
      ring := ring[x := [x]];
      assert V() == Added(v, x, s, RootCell(i), BinSlot(i), true);
    }

    /** A chunk of a new size becomes a leaf below the last tree node on its path. */
    method InsertBelow(t: int, b: bool, x: int, s: nat, i: nat)
      requires Valid() && x > 0 && x !in Bag() && t in cell && cell[t].h > 0 && Covers(Sub(cell[t], b), s)
        && i == cell[t].bin
      requires forall u :: u in cell ==> cell[u] != Sub(cell[t], b)
      requires forall u :: u in cell && u in size ==> size[u] != s
      modifies this
      ensures Valid() && Bag() == old(Bag())[x := s]
    {
      hide Bins, Covers, RootHeight, Inv, TreeIndexOf, Base, Pow2, Sub, Place, Holds;
      ghost var v, r := V(), Sub(cell[t], b);
      BagSize(x);
      CoverOf(v, t);
      HalfPlace(v, t, b);
      AddNode(v, x, s, r, t, b);
      node := node[t := WithChild(node[t], b, x)];
      node := node[x := TreeNode(0, 0, t, i)];
      size := size[x := s];
      link := link[x := Link(x, x)];
      cell := cell[x := r];
      ring := ring[x := [x]];
      assert V() == Added(v, x, s, r, t, b);
    }

    /** A chunk of a size that has a tree node is linked into the ring behind it. */
    method InsertBehind(t: int, x: int, s: nat, i: nat)
      requires Valid() && x > 0 && x !in Bag() && t in cell && t in size && size[t] == s && i == cell[t].bin
      modifies this
      ensures Valid() && Bag() == old(Bag())[x := s]
    {
      hide Bins, Covers, RootHeight, Inv, TreeIndexOf, Base, Pow2;
      ghost var v := V();
      BagSize(x);
      CoverOf(v, t);
      GrowRing(v, t, x);
      var f := link[t].fd;
      link := link[f := Link(link[f].fd, x)];
      link := link[t := Link(x, link[t].bk)];
      link := link[x := Link(f, t)];
      size := size[x := s];
      node := node[x := TreeNode(0, 0, 0, i)];
      ring := ring[t := [t, x] + ring[t][1..]];
      assert V() == RingGrown(v, t, x);
    }

    /** Puts a free chunk of size s into the trie of its bin. */
    method InsertLargeChunk(x: int, s: nat)
      requires Valid() && x > 0 && x !in Bag() && LargeSize(s)
      modifies this, treebins
      ensures Valid() && Bag() == old(Bag())[x := s]
    {
      hide Bins, Bit, Covers, RootHeight, Inv, TreeIndexOf, Base, Pow2, Sub, PathClear, SizeBits, DecidingBit,
        LeftShift;
      ghost var v := V();
      var i := TreeIndexOf(s);
      CoverRoot(s);
      InBins(treemap, i);
      if !Bit(treemap, i) {
        InsertRoot(x, s, i);
        return;
      }
      var t := treebins[i];
      RootStart(v, i, s);
      CoverOf(v, t);
      CoverBin(cell[t], s);
      SizeBitsStart(s, i);
      var k := (s * Pow2(LeftShift(i))) % SIZE_LIMIT;
      while size[t] != s
        invariant V() == v && Valid() && Bag() == old(Bag())
        invariant t in cell && t in size && t in node && Covers(cell[t], s) && PathClear(v, t, s) && i == cell[t].bin
        invariant cell[t].h <= 64 && k == SizeBits(s, cell[t].h)
        decreases cell[t].h
      {
        PathStep(v, t, s);
        SizeBitsTop(s, cell[t].h);
        SizeBitsNext(s, cell[t].h);
        var b := k / TOP_BIT == 1;
        var c := Child(node[t], b);
        k := (2 * k) % SIZE_LIMIT;
        if c == 0 {
          InsertBelow(t, b, x, s, i);
          return;
        }
        t := c;
        CoverOf(v, t);
        CoverBin(cell[t], s);
      }
      InsertBehind(t, x, s, i);
    }

    /** The rightmost leaf below tree node x, with the link that leads to it. */
    method RightmostLeaf(x: int) returns (r: int, owner: int, side: bool, ghost path: seq<int>)
      requires Valid() && x in cell && x in node
      ensures r == 0 ==> node[x].left == 0 && node[x].right == 0
      ensures r != 0 ==> RightFirst(x, path) && |path| > 1 && r == path[|path| - 1] && owner == path[|path| - 2]
      ensures r != 0 ==>
        && r != x && r in node && r in cell && Under(V(), r, x) && node[r].left == 0 && node[r].right == 0
        && owner in cell && owner in node && Under(V(), owner, x) && HangsAt(V(), r, owner, side)
    {
      hide Covers, RootHeight, Inv, Under;
      ghost var v := V();
      UnderSelf(v, x);
      if node[x].right != 0 {
        r, owner, side := node[x].right, x, true;
      } else if node[x].left != 0 {
        r, owner, side := node[x].left, x, false;
      } else {
        return 0, 0, false, [x];
      }
      path := [x, r];
      UnderChild(v, x, x, side);
      while node[r].right != 0 || node[r].left != 0
        invariant r != 0 && r != x && r in node && r in cell && Under(v, r, x) && cell[r].h < cell[x].h
        invariant owner in cell && owner in node && Under(v, owner, x) && HangsAt(v, r, owner, side)
        invariant RightFirst(x, path) && |path| > 1 && r == path[|path| - 1] && owner == path[|path| - 2]
        decreases cell[r].h
      {
        owner := r;
        side := node[owner].right != 0;
        r := Child(node[owner], side);
        path := Extended(x, path, r);
        UnderChild(v, x, owner, side);
      }
    }

    /** One more step of the descent. */
    ghost method Extended(x: int, path: seq<int>, r: int) returns (longer: seq<int>)
      requires RightFirst(x, path) && path[|path| - 1] in node && r != 0
      requires var n := node[path[|path| - 1]]; r == if n.right != 0 then n.right else n.left
      ensures longer == path + [r] && RightFirst(x, longer)
    {
      longer := path + [r];
      forall i | 0 <= i < |longer| - 1
        ensures StepsRight(longer, i)
      {
        assert i < |path| - 1 ==> StepsRight(path, i);
      }
    }

    /** A descent from x that goes right wherever it can. */
    ghost predicate RightFirst(x: int, path: seq<int>)
      reads this`node
    {
      path != [] && path[0] == x && forall i :: 0 <= i < |path| - 1 ==> StepsRight(path, i)
    }

    ghost predicate StepsRight(path: seq<int>, i: int)
      requires 0 <= i < |path| - 1
      reads this`node
    {
      path[i] in node && path[i + 1] != 0
      && path[i + 1] == if node[path[i]].right != 0 then node[path[i]].right else node[path[i]].left
    }

    /** Sets the pointer that leads to x: its bin's root pointer, or its parent's child field. */
    method Repoint(x: int, p: int, r: int)
      requires treebins.Length == NTREEBINS && x in node && node[x].index < NTREEBINS
      requires treebins[node[x].index] != x ==> p in node
      modifies this`node, this`treemap, treebins
      ensures var i := old(node)[x].index;
              if old(treebins[i]) == x then
                treebins[..] == old(treebins[..])[i := r] && node == old(node)
                && treemap == if r == 0 then Clear(old(treemap), i) else old(treemap)
              else
                treebins[..] == old(treebins[..]) && treemap == old(treemap)
                && node == old(node)[p := WithChild(old(node)[p], old(node)[p].left != x, r)]
    {
      hide Clear;
      var i := node[x].index;
      if x == treebins[i] {
        treebins[i] := r;
        if r == 0 {
          treemap := Clear(treemap, i);
        }
      } else if node[p].left == x {
        node := node[p := node[p].(left := r)];
      } else {
        node := node[p := node[p].(right := r)];
      }
    }

    /** Gives r the parent and the children of x. */
    method Adopt(x: int, r: int, p: int)
      requires x in node && r in node && x != r
      requires node[x].left != 0 ==> node[x].left in node && node[x].left !in {x, r}
      requires node[x].right != 0 ==> node[x].right in node && node[x].right !in {x, r}
      requires node[r].left == 0 && node[r].right == 0
      modifies this`node
      ensures node == var n := old(node)[x];
                      WithParent(WithParent(old(node)[r := TreeNode(n.left, n.right, p, old(node)[r].index)], n.left,
                        r), n.right, r)
    {
      node := node[r := node[r].(parent := p)];
      var c0 := node[x].left;
      if c0 != 0 {
        node := node[r := node[r].(left := c0)];
        node := node[c0 := node[c0].(parent := r)];
      }
      var c1 := node[x].right;
      if c1 != 0 {
        node := node[r := node[r].(right := c1)];
        node := node[c1 := node[c1].(parent := r)];
      }
    }

    /** Turns the pointers to x and the parent fields of its children over to r. */
    method Relink(x: int, r: int, p: int, ghost b: bool)
      requires treebins.Length == NTREEBINS && x in node && node[x].index < NTREEBINS && r in node && r != x && r != 0
      requires node[r] == TreeNode(0, 0, node[r].parent, node[x].index)
      requires treebins[node[x].index] != x ==> p in node && p != x && p != r && (b <==> node[p].left != x)
      requires node[x].left != 0 ==> node[x].left in node && node[x].left !in {x, r, p}
      requires node[x].right != 0 ==> node[x].right in node && node[x].right !in {x, r, p}
      modifies this`node, this`treemap, treebins
      ensures treemap == old(treemap)
      ensures var n := old(node)[x];
              var root := old(treebins[n.index]) == x;
              && treebins[..] == (if root then old(treebins[..])[n.index := r] else old(treebins[..]))
              && node == RelinkedNodes(old(node), root, x, r, p, b)
    {
      Repoint(x, p, r);
      Adopt(x, r, p);
    }

    static ghost function RelinkedNodes(m: map<int, TreeNode>, root: bool, x: int, r: int, p: int, b: bool): map<int,
                                        TreeNode>
      requires x in m && (!root ==> p in m)
      requires m[x].left != 0 ==> m[x].left in m
      requires m[x].right != 0 ==> m[x].right in m
    {
      var n := m[x];
      var w := if root then m else m[p := WithChild(m[p], b, r)];
      WithParent(WithParent(w[r := TreeNode(n.left, n.right, p, n.index)], n.left, r), n.right, r)
    }

    /** r, with the chunks of ring rr, takes the place of tree node x. */
    method PutInPlace(x: int, r: int, p: int, ghost b: bool, ghost rr: seq<int>, ghost v: Trie)
      requires treebins.Length == NTREEBINS && V() == v.(link := link) && Inv(v)
      requires forall i :: 0 <= i < NTREEBINS ==> (i in Bins(treemap) <==> treebins[i] != 0)
      requires Replaceable(v, x, p, b) && Substitute(v, x, r, rr, link)
      requires r in node && node[r].left == 0 && node[r].right == 0 && node[r].index == cell[x].bin
      modifies this, treebins
      ensures Valid() && V() == Replaced(v, x, p, b, r, rr, old(link)) && size == v.size
    {
      hide Bins, Covers, RootHeight, Inv, RingAt, Sub, Up, RootCell, WithParent;
      PlaceOf(v, x, p, b);
      InvNode(v, x);
      CoverOf(v, x);
      ReplacePlaces(v, x, p, b);
      assert p in v.cell ==> (b <==> node[p].left != x);
      Relink(x, r, p, b);
      cell := (cell - {x})[r := cell[x]];
      ring := (ring - {x})[r := rr];
      assert V() == Replaced(v, x, p, b, r, rr, link);
      ReplaceNode(v, x, p, b, r, rr, link);
    }

    /** Where tree node x hangs. */
    ghost function SideOf(x: int): bool
      reads this
      requires x in node
    {
      node[x].parent in node && node[node[x].parent].left != x
    }

    lemma HangsThere(x: int)
      requires Valid() && x in cell && x in node
      ensures HangsAt(V(), x, node[x].parent, SideOf(x))
    {
      hide Sub, Up, RootHeight, RootCell, Covers, DecidingBit, RingAt;
      InvNode(V(), x);
      if node[x].parent in cell {
        IsRoot(V(), x);
        ParentChild(V(), x);
      }
    }

    lemma BagWithout(v: Trie, x: int)
      requires size == v.size
      requires forall y :: Holds(V(), y) <==> Holds(v, y) && y != x
      ensures Bag() == (map y | y in v.size && Holds(v, y) :: v.size[y]) - {x}
    {
      hide Holds;
    }

    /** A tree node that has others behind it leaves; its predecessor in the ring takes its place. */
    method UnlinkHead(x: int)
      requires Valid() && x in cell && x in node && x in link && x in ring && |ring[x]| >= 2
      modifies this, treebins
      ensures Valid() && Bag() == old(Bag()) - {x}
    {
      hide Bins, Covers, RootHeight, Inv, RingAt, Sub, Up, RootCell, Replaced, Substitute, RingOk, ChildOk, ParentOk,
        NodeOk, Holds;
      ghost var v := V();
      HangsThere(x);
      HeadReplaceable(v, x, node[x].parent, SideOf(x));
      ghost var b, rr := SideOf(x), FromLast(Removed(ring[x], 0));
      var xp := node[x].parent;
      var f := link[x].fd;
      var r := link[x].bk;
      assert link[f].bk == x && link[r].fd == x;
      link := link[f := Link(link[f].fd, r)];
      link := link[r := Link(f, link[r].bk)];
      assert link == Bypassed(v.link, x);
      PutInPlace(x, r, xp, b, rr, v);
      BagWithout(v, x);
    }

    lemma HeadReplaceable(v: Trie, x: int, p: int, b: bool)
      requires Inv(v) && x in v.cell && x in v.node && x in v.link && x in v.ring && |v.ring[x]| >= 2
        && HangsAt(v, x, p, b)
      ensures x in v.link && v.link[x].fd in v.link && v.link[x].bk in v.link
      ensures v.link[v.link[x].fd].bk == x && v.link[v.link[x].bk].fd == x
      ensures var rr, r, link := FromLast(Removed(v.ring[x], 0)), v.link[x].bk, Bypassed(v.link, x);
              && Replaceable(v, x, p, b) && Substitute(v, x, r, rr, link)
              && r in v.node && v.node[r].left == 0 && v.node[r].right == 0 && v.node[r].index == v.cell[x].bin
              && forall y :: Holds(Replaced(v, x, p, b, r, rr, link), y) <==> Holds(v, y) && y != x
    {
      hide Covers, RootHeight, Inv, RingAt, Sub, Up, RootCell, Substitute, Replaced;
      RingEnds(v, x);
      HeadLeaves(v, x);
      InvNode(v, x);
      RingMirror(v.link, v.ring[x], 0);
      PlaceOf(v, x, p, b);
      ReplacePlaces(v, x, p, b);
      var rr, r, link := FromLast(Removed(v.ring[x], 0)), v.link[x].bk, Bypassed(v.link, x);
      ReplaceNode(v, x, p, b, r, rr, link);
      assert forall y :: y in v.ring[x] ==> Holds(v, y);
    }

    /** A chunk behind a tree node leaves its ring. */
    method UnlinkMember(x: int, ghost t: int, ghost k: nat)
      requires Valid() && t in cell && t in ring && 0 < k < |ring[t]| && ring[t][k] == x && x in link
      modifies this, treebins
      ensures Valid() && Bag() == old(Bag()) - {x}
    {
      hide Bins, Covers, RootHeight, Inv, RingAt, Sub, Up, RootCell, Holds;
      ghost var v := V();
      ShrinkRing(v, t, k);
      RingEnds(v, t);
      RingMirror(v.link, ring[t], k);
      var f := link[x].fd;
      var r := link[x].bk;
      assert link[f].bk == x && link[r].fd == x;
      link := link[f := Link(link[f].fd, r)];
      link := link[r := Link(f, link[r].bk)];
      ring := ring[t := Removed(ring[t], k)];
      assert V() == RingShrunk(v, t, k);
      BagWithout(v, x);
    }

    /** The only chunk of its size leaves; a leaf below it, if there is one, takes its place. */
    method UnlinkNode(x: int)
      requires Valid() && x in cell && x in node && x in ring && ring[x] == [x]
      modifies this, treebins
      ensures Valid() && Bag() == old(Bag()) - {x}
    {
      hide Bins, Covers, RootHeight, Inv, RingAt, Clear, Sub, Up, RootCell, Holds, Replaced, Substitute, Under, NodeOk,
        ChildOk, ParentOk, RingOk;
      ghost var v := V();
      HangsThere(x);
      ghost var b := SideOf(x);
      var p := node[x].parent;
      PlaceOf(v, x, p, b);
      CoverOf(v, x);
      var r, owner, side, _ := RightmostLeaf(x);
      if r == 0 {
        RemoveLeaf(x, p, b);
      } else {
        LeafReplaces(v, x, p, b, r, owner, side);
        ghost var v1 := Detached(v, r, owner, side);
        ghost var rr := ring[r];
        node := node[owner := WithChild(node[owner], side, 0)];
        cell := cell - {r};
        ring := ring - {r};
        assert V() == v1;
        PutInPlace(x, r, p, b, rr, v1);
        BagWithout(v, x);
      }
    }

    /** The only chunk of its size leaves, and nothing is below it. */
    method RemoveLeaf(x: int, p: int, ghost b: bool)
      requires Valid() && x in cell && x in node && x in ring && ring[x] == [x]
      requires HangsAt(V(), x, p, b) && node[x].left == 0 && node[x].right == 0
      modifies this, treebins
      ensures Valid() && Bag() == old(Bag()) - {x}
    {
      hide Bins, Covers, RootHeight, Inv, RingAt, Clear, Sub, Up, RootCell, Holds, NodeOk, ChildOk, ParentOk, RingOk;
      ghost var v := V();
      PlaceOf(v, x, p, b);
      CoverOf(v, x);
      DetachLeaf(v, x, p, b);
      assert p in v.cell ==> (b <==> node[p].left != x);
      Repoint(x, p, 0);
      cell := cell - {x};
      ring := ring - {x};
      assert V() == Detached(v, x, p, b);
      BagWithout(v, x);
    }

    lemma LeafReplaces(v: Trie, x: int, p: int, b: bool, r: int, q: int, d: bool)
      requires Inv(v) && x in v.cell && x in v.node && HangsAt(v, x, p, b) && x in v.ring && v.ring[x] == [x]
      requires Under(v, r, x) && r != x && r in v.node && HangsAt(v, r, q, d) && q in v.cell && q in v.node
        && Under(v, q, x)
      requires v.node[r].left == 0 && v.node[r].right == 0
      ensures r in v.ring && v.cell[r].bin < |v.bins| && v.cell[r].h != RootHeight(v.cell[r].bin)
      ensures var v1, rr := Detached(v, r, q, d), v.ring[r];
              && v1 == v.(node := v.node[q := WithChild(v.node[q], d, 0)], cell := v.cell - {r}, ring := v.ring - {r})
              && Inv(v1) && Replaceable(v1, x, p, b) && Substitute(v1, x, r, rr, v.link)
              && r in v1.node && v1.node[r].left == 0 && v1.node[r].right == 0 && v1.node[r].index == v1.cell[x].bin
              && forall y :: Holds(Replaced(v1, x, p, b, r, rr, v.link), y) <==> Holds(v, y) && y != x
    {
      hide Covers, RootHeight, Inv, RingAt, Sub, Up, RootCell, Substitute, Replaced, RingOk, ChildOk, ParentOk, NodeOk;
      LeafMoves(v, x, p, b, r, q, d);
      DetachLeaf(v, r, q, d);
      PlaceOf(v, r, q, d);
      var v1, rr := Detached(v, r, q, d), v.ring[r];
      ReplaceNode(v1, x, p, b, r, rr, v.link);
      assert forall y :: y in v.ring[r] ==> Holds(v, y);
      assert x in [x] && Holds(v, x);
      RingsApart(v, r, x, x);
    }

    /** Takes a chunk out of its bin. */
    method UnlinkLargeChunk(x: int)
      requires Valid() && x in Bag()
      modifies this, treebins
      ensures Valid() && Bag() == old(Bag()) - {x}
    {
      hide Covers, RootHeight, Inv, RingAt;
      BagSize(x);
      ghost var t := HeldBehind(V(), x);
      RingEnds(V(), t);
      ghost var k :| 0 <= k < |ring[t]| && ring[t][k] == x;
      RingNeighbour(link, ring[t], k);
      OwnNeighbour(link, ring[t], k);
      NodeHasParent(V(), t, x);
      if link[x].bk != x {
        if node[x].parent == 0 {
          UnlinkMember(x, t, k);
        } else {
          UnlinkHead(x);
        }
      } else {
        UnlinkNode(x);
      }
    }

    /** The smaller of the chunk chosen so far and tree node t. */
    method FindBestBelow(nb: nat, start: int, best0: int, rsize0: nat) returns (best: int, rsize: nat)
      requires Valid() && 0 < nb && Chosen(V(), nb, best0, rsize0)
      requires start != 0 ==> start in cell
      requires rsize0 == 0 || (nb >= INDEX_LIMIT && best0 == 0)
               || (Searched(V(), nb, best0, start) && (start != 0 ==> AllFit(V(), nb, start)))
      ensures Chosen(V(), nb, best, rsize) && Best(V(), nb, best)
    {
      hide Inv, Covers, RootHeight, Searched, AllFit, Under, Best, Sub64;
      ghost var v := V();
      best, rsize := best0, rsize0;
      var t := start;
      while t != 0
        invariant t != 0 ==> t in cell
        invariant Chosen(v, nb, best, rsize)
        invariant rsize == 0 || (nb >= INDEX_LIMIT && best == 0)
          || (Searched(v, nb, best, t) && (t != 0 ==> AllFit(v, nb, t)))
        decreases if t == 0 then 0 else cell[t].h + 1
      {
        CoverOf(v, t);
        var trem := Sub64(size[t], nb);
        WrappedOrder(v, nb, t, best, rsize);
        ghost var was := best;
        if trem < rsize {
          rsize := trem;
          best := t;
        }
        if rsize != 0 && nb < INDEX_LIMIT {
          AllFitBelow(v, nb, t);
          LeftmostStep(v, nb, was, best, t);
        } else if nb >= INDEX_LIMIT {
          HugeFitsNone(v, nb);
        }
        LeftmostLower(v, t);
        t := Leftmost(node[t]);
      }
      SearchEnd(v, nb, best, rsize);
    }

    /**
     Follows the bits of nb down its own bin; start is the deepest untaken right subtree, or any node after an
     exact fit.
     */
    method FindAlongBits(nb: nat, idx: nat) returns (start: int, best: int, rsize: nat)
      requires Valid() && MIN_LARGE_SIZE <= nb < SIZE_LIMIT && idx == TreeIndexOf(nb) && idx < NTREEBINS
        && treebins[idx] != 0
      ensures Chosen(V(), nb, best, rsize)
      ensures start != 0 ==> start in cell && cell[start].bin == idx
      ensures best != 0 ==> cell[best].bin == idx
      ensures nb >= INDEX_LIMIT ==> best == 0
      ensures rsize == 0 || Descended(V(), nb, idx, best, start)
    {
      hide Inv, Covers, RootHeight, AllFit, Under, Sub64, TreeIndexOf, OnPath, SizeBits, LeftShift, RightOf, Pow2,
        Descending, Descended, DecidingBit, Fits, Beats;
      ghost var v := V();
      best, rsize := 0, Sub64(0, nb);
      WrappedZero(nb);
      var t := treebins[idx];
      RootOf(v, idx);
      SizeBitsStart(nb, idx);
      var sizebits := (nb * Pow2(LeftShift(idx))) % SIZE_LIMIT;
      var rst := 0;
      StartDescending(v, nb, idx);
      while true
        invariant t in cell && cell[t].bin == idx && Chosen(v, nb, best, rsize)
        invariant cell[t].h <= 64 && sizebits == SizeBits(nb, cell[t].h)
        invariant rst != 0 ==> rst in cell && cell[rst].bin == idx
        invariant best != 0 ==> best in cell && cell[best].bin == idx
        invariant nb >= INDEX_LIMIT ==> best == 0
        invariant Descending(v, nb, t, best, rst)
        decreases cell[t].h
      {
        CoverOf(v, t);
        var trem := Sub64(size[t], nb);
        ghost var was := best;
        ghost var _ := LookAt(v, nb, t, best, rsize);
        if trem < rsize {
          best := t;
          rsize := trem;
          if rsize == 0 {
            return t, best, rsize;
          }
        }
        StepBits(v, nb, t, was, best, rst);
        SizeBitsTop(nb, cell[t].h);
        ghost var h := cell[t].h;
        var rt := node[t].right;
        t := Child(node[t], sizebits / TOP_BIT == 1);
        if rt != 0 && rt != t {
          rst := rt;
        }
        if t == 0 {
          return rst, best, rsize;
        }
        SizeBitsNext(nb, h);
        sizebits := (2 * sizebits) % SIZE_LIMIT;
      }
    }

    lemma StartDescending(v: Trie, nb: nat, idx: nat)
      requires Inv(v) && MIN_LARGE_SIZE <= nb && idx == TreeIndexOf(nb) && idx < NTREEBINS && |v.bins| == NTREEBINS
        && v.bins[idx] != 0
      ensures v.bins[idx] in v.cell && Descending(v, nb, v.bins[idx], 0, 0)
    {
      hide Inv, Covers, TreeIndexOf, OnPath, RightOf;
      RootOf(v, idx);
      if LargeSize(nb) { PathStart(v, nb, idx); }
    }

    /** The root of the next bin that is not empty. */
    method NextTree(nb: nat, idx: nat) returns (t: int)
      requires Valid() && MIN_LARGE_SIZE <= nb < SIZE_LIMIT && idx == TreeIndexOf(nb) && idx < NTREEBINS
      requires nb < INDEX_LIMIT ==> OnPath(V(), nb, idx, 0, 0, 0)
      ensures t != 0 ==> t in cell
      ensures nb < INDEX_LIMIT ==> Searched(V(), nb, 0, t) && (t != 0 ==> AllFit(V(), nb, t))
    {
      hide Inv, Covers, Searched, AllFit, TreeIndexOf, OnPath, LeftBins, Bins, LowestBin;
      ghost var v := V();
      NextMarked(treemap, idx);
      var leftbits := LeftBins(treemap, idx);
      t := 0;
      if leftbits != 0 {
        var i := LowestBin(leftbits);
        t := treebins[i];
        RootOf(v, i);
        if nb < INDEX_LIMIT {
          NextBin(v, nb, idx, i);
        }
      } else if nb < INDEX_LIMIT {
        NoNextBin(v, nb, idx);
      }
    }

    /** A smallest chunk that holds nb bytes, preferring none to one that is too small. */
    method FindLarge(nb: nat) returns (best: int, rsize: nat)
      requires Valid() && MIN_LARGE_SIZE <= nb < SIZE_LIMIT
      ensures BestFit(Bag(), nb, best)
      ensures rsize == if best == 0 then SIZE_LIMIT - nb else Bag()[best] - nb
    {
      hide Inv, Covers, RootHeight, Searched, AllFit, Under, Best, Sub64, TreeIndexOf, OnPath, LeftBins, Bins,
        LowestBin,
        Holds, BestFit;
      ghost var v := V();
      best := 0;
      rsize := Sub64(0, nb);
      WrappedZero(nb);
      var idx := TreeIndexOf(nb);
      IndexExact(nb);
      var t := treebins[idx];
      if t != 0 {
        t, best, rsize := FindAlongBits(nb, idx);
        if nb < INDEX_LIMIT && rsize != 0 && (best != 0 || t != 0) {
          OwnBinFirst(v, nb, idx, best, t);
        }
      } else {
        EmptyPath(v, nb, idx);
      }
      if t == 0 && best == 0 {
        t := NextTree(nb, idx);
      }
      best, rsize := FindBestBelow(nb, t, best, rsize);
      BestInBag(nb, best);
    }

    lemma BestInBag(nb: nat, best: int)
      requires Valid() && Best(V(), nb, best)
      ensures BestFit(Bag(), nb, best) && (best != 0 ==> Bag()[best] == size[best])
    {
      hide Inv, Covers, Holds;
      if best != 0 {
        HeadHeld(V(), best);
        BagSize(best);
      }
      forall x | x in Bag() && Bag()[x] >= nb
        ensures best != 0 && Bag()[best] <= Bag()[x]
      {
        BagSize(x);
        var t := HeldBehind(V(), x);
        assert Fits(V(), t, nb);
      }
    }

    /** The smallest chunk of all, for a request below the large sizes. */
    method FindSmallest(nb: nat) returns (best: int, rsize: nat)
      requires Valid() && 0 < nb < MIN_LARGE_SIZE && treemap != 0
      ensures best in Bag() && rsize == Bag()[best] - nb
      ensures forall x :: x in Bag() ==> Bag()[best] <= Bag()[x]
    {
      hide Inv, Covers, Searched, AllFit, Under, Best, TreeIndexOf, Bins, LowestBin, Holds, Beats, Ahead, Leftmost;
      ghost var v := V();
      EmptyMap(treemap);
      var i := LowestBin(treemap);
      var t := treebins[i];
      RootOf(v, i);
      CoverOf(v, t);
      FirstBin(v, nb, i);
      best := t;
      rsize := size[t] - nb;
      LeftmostLower(v, t);
      t := Leftmost(node[t]);
      while t != 0
        invariant t != 0 ==> t in cell
        invariant best != 0 && best in cell && best in size && size[best] >= nb && rsize == size[best] - nb
        invariant Searched(v, nb, best, t)
        decreases if t == 0 then 0 else cell[t].h + 1
      {
        CoverOf(v, t);
        var trem := size[t] - nb;
        ghost var was := best;
        if trem < rsize {
          rsize := trem;
          best := t;
        }
        BeatsBoth(v, best, was, t);
        LeftmostStep(v, nb, was, best, t);
        LeftmostLower(v, t);
        t := Leftmost(node[t]);
      }
      AllLarge(v, nb, best);
      BestInBag(nb, best);
      forall x | x in Bag()
        ensures Bag()[best] <= Bag()[x]
      {
        BagSize(x);
      }
    }
  }
}
