/**
 The large bins as values: chunk records by address, one bitwise trie per bin with one
 tree node per size, and a ring of equal-sized chunks behind each tree node.
 */
module Tries {
  import opened Powers
  import opened Blocks
  import opened TreeIndex
  import opened TrieCells
  import opened Rings

  /** The tree fields of a free chunk; a null parent marks a chunk that is not a tree node. */
  datatype TreeNode = TreeNode(left: int, right: int, parent: int, index: nat)

  /** The address of a bin's root pointer, as stored in the parent field of a root. */
  function BinSlot(i: nat): int { -1 - i }

  function Child(n: TreeNode, b: bool): int { if b then n.right else n.left }

  function WithChild(n: TreeNode, b: bool, c: int): TreeNode {
    if b then n.(right := c) else n.(left := c)
  }

  /**
   link, node, size: the memory of the chunks; bins: the roots.
   cell: for each tree node the range of sizes its subtree is for.
   ring: for each tree node the chunks of its size, itself first.
   */
  datatype Trie = Trie(link: map<int, Link>, node: map<int, TreeNode>, size: map<int, nat>, bins: seq<int>,
                       cell: map<int, Cell>, ring: map<int, seq<int>>)

  ghost predicate NodeOk(v: Trie, t: int)
    requires t in v.cell
  {
    && t > 0 && t in v.node && t in v.size
    && v.cell[t].bin < NTREEBINS && Covers(v.cell[t], v.size[t]) && v.node[t].index == v.cell[t].bin
  }

  ghost predicate ChildOk(v: Trie, t: int, b: bool)
    requires t in v.cell
  {
    && t in v.node
    && var c := Child(v.node[t], b);
       if c != 0 then v.cell[t].h > 0 && c in v.cell && v.cell[c] == Sub(v.cell[t], b)
       else v.cell[t].h > 0 ==> forall u :: u in v.cell ==> v.cell[u] != Sub(v.cell[t], b)
  }

  ghost predicate ParentOk(v: Trie, t: int)
    requires t in v.cell
  {
    && t in v.node
    && var p := v.node[t].parent;
       if v.cell[t].h == RootHeight(v.cell[t].bin) then p == BinSlot(v.cell[t].bin)
       else p in v.cell && v.cell[p] == Up(v.cell[t])
  }

  ghost predicate BinOk(v: Trie, i: nat)
    requires i < |v.bins|
  {
    if v.bins[i] != 0 then v.bins[i] in v.cell && v.cell[v.bins[i]] == RootCell(i)
    else forall u :: u in v.cell ==> v.cell[u] != RootCell(i)
  }

  ghost predicate MemberOk(v: Trie, t: int, x: int)
    requires t in v.cell && t in v.size
  {
    && x > 0 && x in v.size && v.size[x] == v.size[t]
    && x in v.node && v.node[x].index == v.cell[t].bin
    && (x != t ==> v.node[x] == TreeNode(0, 0, 0, v.cell[t].bin))
  }

  ghost predicate RingOk(v: Trie, t: int)
    requires t in v.cell
  {
    && t in v.size && t in v.ring && RingAt(v.link, v.ring[t]) && v.ring[t][0] == t
    && forall x :: x in v.ring[t] ==> MemberOk(v, t, x)
  }

  /** Ranges and sizes are unique among tree nodes, and no chunk is in two rings. */
  ghost predicate Unique(v: Trie) {
    && (forall t, u :: t in v.cell && u in v.cell && v.cell[t] == v.cell[u] ==> t == u)
    && (forall t, u :: t in v.cell && u in v.cell && t in v.size && u in v.size && v.size[t] == v.size[u] ==> t == u)
    && (forall t, u, x :: t in v.ring && u in v.ring && x in v.ring[t] && x in v.ring[u] ==> t == u)
  }

  ghost predicate Inv(v: Trie) {
    && |v.bins| == NTREEBINS && v.ring.Keys == v.cell.Keys
    && (forall t :: t in v.cell ==> NodeOk(v, t))
    && (forall t, b :: t in v.cell ==> ChildOk(v, t, b))
    && (forall t :: t in v.cell ==> ParentOk(v, t))
    && (forall t :: t in v.cell ==> RingOk(v, t))
    && (forall i :: 0 <= i < NTREEBINS ==> BinOk(v, i))
    && Unique(v)
  }

  /** The binned chunks. */
  ghost predicate Holds(v: Trie, x: int) {
    exists t :: t in v.ring && x in v.ring[t]
  }

  // ---------- reading the trie ----------

  lemma HeadHeld(v: Trie, t: int)
    requires Inv(v) && t in v.cell
    ensures t in v.ring && t in v.ring[t] && Holds(v, t)
  {
    assert RingOk(v, t);
    assert v.ring[t][0] in v.ring[t];
  }

  /** A chunk that is held but is not a tree node sits behind another tree node. */
  lemma HeldBehind(v: Trie, x: int) returns (t: int)
    requires Inv(v) && Holds(v, x)
    ensures t in v.cell && x in v.ring[t] && NodeOk(v, t) && MemberOk(v, t, x) && RingOk(v, t)
    ensures x in v.cell <==> x == t
  {
    t :| t in v.ring && x in v.ring[t];
    assert RingOk(v, t) && NodeOk(v, t);
    if x in v.cell {
      HeadHeld(v, x);
    }
  }

  /** The invariant at one tree node. */
  lemma InvAt(v: Trie, t: int)
    requires Inv(v) && t in v.cell
    ensures NodeOk(v, t) && ParentOk(v, t) && RingOk(v, t)
    ensures forall b :: ChildOk(v, t, b)
  {
  }

  lemma SameNode(v: Trie, t: int, u: int)
    requires Inv(v) && t in v.cell && u in v.cell && v.cell[t] == v.cell[u]
    ensures t == u
  {
  }

  lemma CoverCell(v: Trie, t: int)
    requires t in v.cell && NodeOk(v, t)
    ensures v.cell[t] == CellAt(v.cell[t].bin, v.cell[t].h, v.size[t])
  {
  }

  /** Every range around a tree node's size, from the node's height up to the root's, has its own tree node. */
  lemma {:induction false} Ancestor(v: Trie, u: int, h: nat) returns (t: int)
    requires Inv(v) && u in v.cell && NodeOk(v, u)
    requires v.cell[u].h <= h <= RootHeight(v.cell[u].bin)
    ensures t in v.cell && v.cell[t] == CellAt(v.cell[u].bin, h, v.size[u])
    decreases h
  {
    hide Inv, NodeOk, RingOk, ChildOk, RootHeight, Covers;
    InvAt(v, u);
    if h == v.cell[u].h {
      CoverCell(v, u);
      t := u;
    } else {
      var w := Ancestor(v, u, h - 1);
      InvAt(v, w);
      t := v.node[w].parent;
      BaseNest(v.size[u], h - 1, h);
    }
  }

  /** Tree node u is in the subtree of t. */
  ghost predicate Under(v: Trie, u: int, t: int) {
    && u in v.cell && t in v.cell && u in v.size
    && v.cell[u].h <= v.cell[t].h && Covers(v.cell[t], v.size[u])
  }

  lemma SameHeight(v: Trie, u: int, t: int)
    requires Inv(v) && Under(v, u, t)
    ensures v.cell[u].h == v.cell[t].h ==> u == t
  {
    assert NodeOk(v, u) && NodeOk(v, t);
  }

  /** A subtree is its root, its left subtree and its right subtree. */
  lemma Descend(v: Trie, u: int, t: int)
    requires Inv(v) && Under(v, u, t) && u != t
    ensures t in v.node && v.cell[t].h > 0
    ensures var b := DecidingBit(v.size[u], v.cell[t].h); Child(v.node[t], b) != 0 && Under(v, u, Child(v.node[t], b))
  {
    assert NodeOk(v, u) && NodeOk(v, t);
    var h := v.cell[t].h;
    SameHeight(v, u, t);
    var b := DecidingBit(v.size[u], h);
    CoverSub(v.cell[t], v.size[u]);
    var w := Ancestor(v, u, h - 1);
    assert v.cell[w] == Sub(v.cell[t], b);
    assert ChildOk(v, t, b);
  }

  /** All tree nodes of a bin are under its root. */
  lemma RootHolds(v: Trie, u: int)
    requires Inv(v) && u in v.cell
    ensures var i := v.cell[u].bin; i < NTREEBINS && v.bins[i] != 0 && Under(v, u, v.bins[i])
  {
    assert NodeOk(v, u);
    var i := v.cell[u].bin;
    CoverRoot(v.size[u]);
    var w := Ancestor(v, u, RootHeight(i));
    assert v.cell[w] == RootCell(i);
    assert BinOk(v, i);
  }

  lemma ChildUnder(v: Trie, t: int, b: bool)
    requires Inv(v) && t in v.cell && t in v.node && Child(v.node[t], b) != 0
    ensures var c := Child(v.node[t], b);
            c in v.cell && c in v.size && v.cell[t].h > 0 && v.cell[c] == Sub(v.cell[t], b)
              && v.cell[c].h == v.cell[t].h - 1
    ensures forall u :: Under(v, u, Child(v.node[t], b)) ==> Under(v, u, t)
  {
    assert ChildOk(v, t, b) && NodeOk(v, t);
    var c := Child(v.node[t], b);
    assert NodeOk(v, c);
    CoverAligned(v.cell[t], v.size[t]);
    forall u | Under(v, u, c)
      ensures Under(v, u, t)
    {
      SubCover(v.cell[t], v.size[u], b);
    }
  }

  /** Bins are ordered by size. */
  lemma BinOrder(s: nat, s': nat)
    requires LargeSize(s) && LargeSize(s')
    ensures TreeIndexOf(s) < TreeIndexOf(s') ==> s < s'
  {
    hide TreeIndexOf, MinSize, Pow2;
    IndexInBin(s);
    IndexInBin(s');
    if TreeIndexOf(s) < TreeIndexOf(s') {
      MinSizeMonotone(TreeIndexOf(s), TreeIndexOf(s'));
    }
  }

  // ---------- changing the trie ----------

  /** The trie with a child pointer (or a bin's root pointer) of cell c's parent p set to x. */
  ghost function WithSlot(v: Trie, c: Cell, p: int, b: bool, x: int): Trie
    requires c.h == RootHeight(c.bin) ==> c.bin < |v.bins|
    requires c.h != RootHeight(c.bin) ==> p in v.node
  {
    if c.h == RootHeight(c.bin) then v.(bins := v.bins[c.bin := x])
    else v.(node := v.node[p := WithChild(v.node[p], b, x)])
  }

  /**
   Parent p is the place for a node of range c: the bin slot for a root, else the node of the range one level up,
   whose b half is c.
   */
  ghost predicate Place(v: Trie, c: Cell, p: int, b: bool) {
    if c.h == RootHeight(c.bin) then p == BinSlot(c.bin) && c == RootCell(c.bin) && c.bin < NTREEBINS
    else c.h < RootHeight(c.bin) && p in v.cell && v.cell[p] == Up(c) && c == Sub(Up(c), b)
  }

  ghost function Added(v: Trie, x: int, s: nat, c: Cell, p: int, b: bool): Trie
    requires c.h == RootHeight(c.bin) ==> c.bin < |v.bins|
    requires c.h != RootHeight(c.bin) ==> p in v.node
  {
    var w := WithSlot(v, c, p, b, x);
    w.(node := w.node[x := TreeNode(0, 0, p, c.bin)], link := v.link[x := Link(x, x)], size := v.size[x := s],
       cell := v.cell[x := c], ring := v.ring[x := [x]])
  }

  lemma UpOfSub(c: Cell, b: bool, s: nat)
    requires Covers(c, s) && c.h > 0
    ensures Up(Sub(c, b)) == c
  {
    hide Pow2, Base;
    CoverAligned(c, s);
    Halves(c.lo, c.h - 1);
  }

  lemma AddKeepsRing(v: Trie, v': Trie, x: int, t: int, s: nat, c: Cell, p: int, b: bool)
    requires Inv(v) && !Holds(v, x) && t in v.cell && t != x
    requires c.h == RootHeight(c.bin) ==> c.bin < |v.bins|
    requires c.h != RootHeight(c.bin) ==> p in v.node && p in v.cell
    requires v' == Added(v, x, s, c, p, b)
    ensures t in v'.size && RingOk(v', t)
  {
    hide RingAt, Covers, RootHeight, ChildOk, ParentOk, BinOk;
    assert NodeOk(v, t) && RingOk(v, t);
    assert x !in v.ring[t];
    RingMembers(v.link, v.ring[t]);
    forall y | y in v.ring[t]
      ensures MemberOk(v', t, y) && v'.link[y] == v.link[y]
    {
      assert MemberOk(v, t, y);
      if y in v.cell { HeadHeld(v, y); }
    }
    RingFrame(v.link, v'.link, v.ring[t]);
  }

  lemma SubDiffers(c: Cell)
    requires c.h > 0
    ensures Sub(c, false) != Sub(c, true) && forall b :: Sub(c, b).h == c.h - 1 && Sub(c, b).bin == c.bin
  {
  }

  lemma AddKeepsChild(v: Trie, v': Trie, x: int, s: nat, c: Cell, p: int, b: bool, t: int, d: bool)
    requires Inv(v) && x > 0 && x !in v.cell && Covers(c, s) && c.bin < NTREEBINS && Place(v, c, p, b)
    requires forall u :: u in v.cell ==> v.cell[u] != c
    requires c.h != RootHeight(c.bin) ==> p in v.node
    requires v' == Added(v, x, s, c, p, b)
    requires t in v'.cell
    ensures ChildOk(v', t, d)
  {
    hide Covers, Up, Sub, RootCell, RootHeight;
    CoverHeight(c, s);
    if t == x {
      if c.h > 0 {
        UpOfSub(c, d, s);
        SubDiffers(c);
        forall u | u in v'.cell
          ensures v'.cell[u] != Sub(c, d)
        {
          if u in v.cell {
            assert ParentOk(v, u) && NodeOk(v, u);
          }
        }
      }
    } else {
      assert ChildOk(v, t, d) && NodeOk(v, t);
      CoverHeight(v.cell[t], v.size[t]);
      UpHeight(c);
      if v.cell[t].h > 0 {
        UpOfSub(v.cell[t], d, v.size[t]);
        SubDiffers(v.cell[t]);
      }
    }
  }

  lemma CoverHeight(c: Cell, s: nat)
    requires Covers(c, s)
    ensures c.h <= RootHeight(c.bin)
  {
  }

  lemma UpHeight(c: Cell)
    ensures Up(c).h == c.h + 1 && Up(c).bin == c.bin
  {
  }

  lemma AddKeepsUnique(v: Trie, v': Trie, x: int, s: nat, c: Cell)
    requires Inv(v) && x !in v.cell && !Holds(v, x)
    requires forall u :: u in v.cell ==> v.cell[u] != c
    requires forall u :: u in v.cell && u in v.size ==> v.size[u] != s
    requires v'.cell == v.cell[x := c] && v'.size == v.size[x := s] && v'.ring == v.ring[x := [x]]
    ensures Unique(v')
  {
    assert forall u :: u in v.cell ==> NodeOk(v, u);
  }

  lemma AddHolds(v: Trie, v': Trie, x: int)
    requires x !in v.ring && v'.ring == v.ring[x := [x]]
    ensures forall y :: Holds(v', y) <==> Holds(v, y) || y == x
  {
    forall y
      ensures Holds(v', y) <==> Holds(v, y) || y == x
    {
      if Holds(v, y) {
        var t :| t in v.ring && y in v.ring[t];
        assert y in v'.ring[t];
      }
      if y == x { assert y in v'.ring[x]; }
    }
  }

  lemma RootPlace(v: Trie, i: nat)
    requires i < NTREEBINS
    ensures Place(v, RootCell(i), BinSlot(i), true)
    ensures RootCell(i).bin == i && RootCell(i).h == RootHeight(i)
  {
  }

  /** Each half of a node's range is a place below that node. */
  lemma HalfPlace(v: Trie, t: int, b: bool)
    requires Inv(v) && t in v.cell && v.cell[t].h > 0
    ensures var c := Sub(v.cell[t], b); Place(v, c, t, b) && c.bin == v.cell[t].bin && c.h != RootHeight(c.bin)
  {
    hide RootCell, RootHeight, Sub, Up;
    assert NodeOk(v, t);
    CoverHeight(v.cell[t], v.size[t]);
    SubDiffers(v.cell[t]);
    UpOfSub(v.cell[t], b, v.size[t]);
  }

  /** Hanging a new tree node for a new size below the last node on its path. */
  lemma AddNode(v: Trie, x: int, s: nat, c: Cell, p: int, b: bool)
    requires Inv(v) && x > 0 && !Holds(v, x) && Covers(c, s) && c.bin < NTREEBINS && Place(v, c, p, b)
    requires forall u :: u in v.cell ==> v.cell[u] != c
    requires forall u :: u in v.cell && u in v.size ==> v.size[u] != s
    requires c.h != RootHeight(c.bin) ==> p in v.node
    ensures Inv(Added(v, x, s, c, p, b))
    ensures forall y :: Holds(Added(v, x, s, c, p, b), y) <==> Holds(v, y) || y == x
  {
    hide Covers, Up, Sub, RootCell, RootHeight, RingAt, NodeOk, RingOk, ChildOk, ParentOk, BinOk, Unique;
    var v' := Added(v, x, s, c, p, b);
    assert x !in v.cell by {
      if x in v.cell { HeadHeld(v, x); }
    }
    forall t | t in v'.cell
      ensures NodeOk(v', t) && RingOk(v', t) && ParentOk(v', t)
    {
      if t != x {
        AddKeepsNode(v, v', x, t, s, c, p, b);
        AddKeepsRing(v, v', x, t, s, c, p, b);
      } else {
        AddedNode(v, v', x, s, c, p, b);
      }
    }
    forall t, d: bool | t in v'.cell
      ensures ChildOk(v', t, d)
    {
      AddKeepsChild(v, v', x, s, c, p, b, t, d);
    }
    forall i: nat | i < NTREEBINS
      ensures BinOk(v', i)
    {
      AddKeepsBin(v, v', x, s, c, p, b, i);
    }
    AddKeepsUnique(v, v', x, s, c);
    AddHolds(v, v', x);
  }

  lemma AddKeepsNode(v: Trie, v': Trie, x: int, t: int, s: nat, c: Cell, p: int, b: bool)
    requires Inv(v) && t in v.cell && t != x && x !in v.cell
    requires c.h == RootHeight(c.bin) ==> c.bin < |v.bins|
    requires c.h != RootHeight(c.bin) ==> p in v.node && p in v.cell
    requires v' == Added(v, x, s, c, p, b)
    ensures NodeOk(v', t) && ParentOk(v', t)
  {
    hide Covers, RootHeight, Up;
    assert NodeOk(v, t) && ParentOk(v, t);
  }

  lemma AddedNode(v: Trie, v': Trie, x: int, s: nat, c: Cell, p: int, b: bool)
    requires Inv(v) && x > 0 && x !in v.cell && Covers(c, s) && c.bin < NTREEBINS && Place(v, c, p, b)
    requires c.h != RootHeight(c.bin) ==> p in v.node
    requires v' == Added(v, x, s, c, p, b)
    ensures NodeOk(v', x) && RingOk(v', x) && ParentOk(v', x)
  {
    hide Covers, RootHeight, Up, Sub;
    Singleton(v'.link, x);
  }

  lemma AddKeepsBin(v: Trie, v': Trie, x: int, s: nat, c: Cell, p: int, b: bool, i: nat)
    requires Inv(v) && x != 0 && x !in v.cell && c.bin < NTREEBINS && Place(v, c, p, b) && i < NTREEBINS
    requires forall u :: u in v.cell ==> v.cell[u] != c
    requires c.h != RootHeight(c.bin) ==> p in v.node
    requires v' == Added(v, x, s, c, p, b)
    ensures BinOk(v', i)
  {
    hide RootHeight, Up, Sub;
    assert BinOk(v, i);
    assert RootCell(i).h == RootHeight(i) && RootCell(i).bin == i;
  }

  // ---------- parents and children ----------

  /** A tree node that is not a root is the child of its parent. */
  lemma ParentChild(v: Trie, t: int)
    requires Inv(v) && t in v.cell && NodeOk(v, t) && v.cell[t].h != RootHeight(v.cell[t].bin)
    ensures ParentOk(v, t) && v.node[t].parent in v.cell && v.node[t].parent in v.node
    ensures v.cell[v.node[t].parent].h == v.cell[t].h + 1 && v.cell[v.node[t].parent] == Up(v.cell[t])
    ensures v.cell[t] == Sub(Up(v.cell[t]), DecidingBit(v.size[t], v.cell[t].h + 1))
    ensures Child(v.node[v.node[t].parent], DecidingBit(v.size[t], v.cell[t].h + 1)) == t
  {
    hide Covers, RootHeight, Sub, DecidingBit, RingOk, Base, Pow2, Inv;
    InvAt(v, t);
    var p := v.node[t].parent;
    InvAt(v, p);
    UpHeight(v.cell[t]);
    CoverHeight(v.cell[t], v.size[t]);
    CoverUp(v.cell[t], v.size[t]);
    var b := DecidingBit(v.size[t], v.cell[t].h + 1);
    assert ChildOk(v, p, b);
    SameNode(v, Child(v.node[p], b), t);
  }

  /** A child's parent field names its parent. */
  lemma ChildParent(v: Trie, t: int, b: bool)
    requires Inv(v) && t in v.cell && t in v.node && Child(v.node[t], b) != 0
    ensures var c := Child(v.node[t], b);
            c in v.cell && c in v.node && v.cell[c].bin == v.cell[t].bin && v.cell[c].h + 1 == v.cell[t].h
            && v.cell[c] == Sub(v.cell[t], b) && v.cell[c].h != RootHeight(v.cell[c].bin) && v.node[c].parent == t
  {
    hide Covers, RootHeight, Sub, Up;
    assert ChildOk(v, t, b) && NodeOk(v, t);
    var c := Child(v.node[t], b);
    assert NodeOk(v, c) && ParentOk(v, c);
    CoverHeight(v.cell[t], v.size[t]);
    SubDiffers(v.cell[t]);
    UpOfSub(v.cell[t], b, v.size[t]);
  }

  lemma OnlyChildOf(v: Trie, t: int, b: bool, u: int, d: bool)
    requires Inv(v) && t in v.cell && t in v.node && u in v.cell && u in v.node
    requires Child(v.node[t], b) != 0 && Child(v.node[t], b) == Child(v.node[u], d)
    ensures t == u && b == d
  {
    ChildParent(v, t, b);
    ChildParent(v, u, d);
    SubDiffers(v.cell[t]);
  }

  lemma IsRoot(v: Trie, t: int)
    requires Inv(v) && t in v.cell && NodeOk(v, t)
    ensures v.cell[t].h == RootHeight(v.cell[t].bin) <==> v.bins[v.cell[t].bin] == t
    ensures v.bins[v.cell[t].bin] == t ==>
      v.node[t].parent == BinSlot(v.cell[t].bin) && v.cell[t] == RootCell(v.cell[t].bin)
    ensures v.bins[v.cell[t].bin] != t ==> v.node[t].parent in v.cell
    ensures v.node[t].parent != 0
  {
    hide Covers, RootCell, RootHeight, TreeIndexOf, Up;
    RootCellIs(v.cell[t], v.size[t]);
    assert BinOk(v, v.cell[t].bin) && ParentOk(v, t);
    if v.node[t].parent in v.cell { assert NodeOk(v, v.node[t].parent); }
  }

  lemma RootCellIs(c: Cell, s: nat)
    requires Covers(c, s)
    ensures c.h == RootHeight(c.bin) <==> c == RootCell(c.bin)
  {
    CoverRoot(s);
  }

  // ---------- growing and shrinking a ring ----------

  /** The tree does not depend on the chunks behind its nodes. */
  lemma RingChanged(v: Trie, v': Trie, t: int, x: int, r: seq<int>)
    requires Inv(v) && t in v.cell && x !in v.cell && (Holds(v, x) ==> t in v.ring && x in v.ring[t])
    requires v' == v.(link := v'.link, node := v'.node, size := v'.size, ring := v.ring[t := r])
    requires forall y :: y != x && y in v.node ==> y in v'.node && v'.node[y] == v.node[y]
    requires forall y :: y != x && y in v.size ==> y in v'.size && v'.size[y] == v.size[y]
    requires forall u, y :: u in v.ring && u != t && y in v.ring[u] && y in v.link ==>
      y in v'.link && v'.link[y] == v.link[y]
    requires RingAt(v'.link, r) && r[0] == t && t in v'.size && forall y :: y in r ==> MemberOk(v', t, y)
    requires forall y :: y in r ==> y == x || (t in v.ring && y in v.ring[t])
    ensures Inv(v')
  {
    hide Covers, Up, Sub, RootCell, RootHeight, RingAt;
    forall u | u in v.cell
      ensures NodeOk(v', u) && ParentOk(v', u) && RingOk(v', u) && forall b :: ChildOk(v', u, b)
    {
      assert NodeOk(v, u) && ParentOk(v, u) && RingOk(v, u) && ChildOk(v, u, true) && ChildOk(v, u, false);
      if u != t {
        RingMembers(v.link, v.ring[u]);
        RingFrame(v.link, v'.link, v.ring[u]);
        forall y | y in v.ring[u]
          ensures MemberOk(v', u, y)
        {
          assert MemberOk(v, u, y);
        }
      }
      assert ChildOk(v', u, true) && ChildOk(v', u, false);
    }
    forall i: nat | i < NTREEBINS
      ensures BinOk(v', i)
    {
      assert BinOk(v, i);
    }
    RingChangedUnique(v, v', t, x, r);
  }

  lemma RingChangedUnique(v: Trie, v': Trie, t: int, x: int, r: seq<int>)
    requires Inv(v) && t in v.cell && x !in v.cell && (Holds(v, x) ==> t in v.ring && x in v.ring[t])
    requires v'.cell == v.cell && v'.ring == v.ring[t := r]
    requires forall y :: y != x && y in v.size ==> y in v'.size && v'.size[y] == v.size[y]
    requires forall y :: y in r ==> y == x || (t in v.ring && y in v.ring[t])
    ensures Unique(v')
  {
    hide Covers, RingAt;
    assert forall u :: u in v.cell ==> NodeOk(v, u);
    assert forall u, y :: u in v.ring && y in v.ring[u] ==> Holds(v, y);
  }

  /** Links the chunk x, of the same size, behind tree node t. */
  ghost function RingGrown(v: Trie, t: int, x: int): Trie
    requires t in v.cell && t in v.size && t in v.ring && v.ring[t] != [] && t in v.link && v.link[t].fd in v.link
  {
    v.(link := LinkedBehind(v.link, t, x), node := v.node[x := TreeNode(0, 0, 0, v.cell[t].bin)],
       size := v.size[x := v.size[t]], ring := v.ring[t := [t, x] + v.ring[t][1..]])
  }

  lemma GrowRing(v: Trie, t: int, x: int)
    requires Inv(v) && t in v.cell && x > 0 && !Holds(v, x)
    ensures t in v.size && t in v.ring && v.ring[t] != [] && t in v.link && v.link[t].fd in v.link
    ensures Inv(RingGrown(v, t, x))
    ensures forall y :: Holds(RingGrown(v, t, x), y) <==> Holds(v, y) || y == x
  {
    hide Covers, Up, Sub, RootCell, RootHeight, Inv, RingAt;
    RingEnds(v, t);
    HeadHeld(v, t);
    var v' := RingGrown(v, t, x);
    var s, r := v.ring[t], v'.ring[t];
    assert x !in s && x !in v.cell by {
      if x in v.cell { HeadHeld(v, x); }
    }
    InsertAfterHead(v.link, s, x, v'.link);
    GrownMembers(s, x);
    forall y | y in r
      ensures MemberOk(v', t, y)
    {
      if y != x { assert MemberOk(v, t, y); }
    }
    OtherLinks(v, v', t, x);
    RingChanged(v, v', t, x, r);
    SameHolders(v, v', t, r);
  }

  /** Linking next to t touches no other ring. */
  lemma OtherLinks(v: Trie, v': Trie, t: int, x: int)
    requires Inv(v) && t in v.cell && t in v.ring && !Holds(v, x) && t in v.link && v.link[t].fd in v.link
    requires v.link[t].fd in v.ring[t] && t in v.ring[t] && v'.link == LinkedBehind(v.link, t, x)
    ensures forall u, y :: u in v.ring && u != t && y in v.ring[u] && y in v.link ==>
      y in v'.link && v'.link[y] == v.link[y]
  {
    forall u, y | u in v.ring && u != t && y in v.ring[u] && y in v.link
      ensures y in v'.link && v'.link[y] == v.link[y]
    {
      RingsApart(v, t, u, y);
    }
  }

  lemma RingEnds(v: Trie, t: int)
    requires Inv(v) && t in v.cell
    ensures t in v.node && t in v.size && t in v.ring && t > 0
    ensures RingAt(v.link, v.ring[t]) && v.ring[t][0] == t
    ensures forall x :: x in v.ring[t] ==> MemberOk(v, t, x)
    ensures t in v.ring[t] && t in v.link && v.link[t].fd in v.link && v.link[t].fd in v.ring[t]
  {
    hide RingAt, Covers, RootHeight;
    assert RingOk(v, t) && NodeOk(v, t);
    RingNonEmpty(v.link, v.ring[t]);
    RingNeighbour(v.link, v.ring[t], 0);
  }

  lemma RingsApart(v: Trie, t: int, u: int, y: int)
    requires Inv(v) && t in v.ring && u in v.ring && t != u && y in v.ring[u]
    ensures y !in v.ring[t]
  {
  }

  lemma SameHolders(v: Trie, v': Trie, t: int, r: seq<int>)
    requires t in v.ring && v'.ring == v.ring[t := r]
    ensures forall y :: Holds(v', y) <==> (exists u :: u in v.ring && u != t && y in v.ring[u]) || y in r
  {
    forall y
      ensures Holds(v', y) <==> (exists u :: u in v.ring && u != t && y in v.ring[u]) || y in r
    {
      if u :| u in v.ring && u != t && y in v.ring[u] { assert y in v'.ring[u]; }
      if y in r { assert y in v'.ring[t]; }
    }
  }

  /** Takes the k-th chunk of a ring, not the tree node itself, out of it. */
  ghost function RingShrunk(v: Trie, t: int, k: nat): Trie
    requires t in v.ring && k < |v.ring[t]|
    requires var x := v.ring[t][k]; x in v.link && v.link[x].fd in v.link && v.link[x].bk in v.link
  {
    v.(link := Bypassed(v.link, v.ring[t][k]), ring := v.ring[t := Removed(v.ring[t], k)])
  }

  lemma ShrinkRing(v: Trie, t: int, k: nat)
    requires Inv(v) && t in v.cell && t in v.ring && 0 < k < |v.ring[t]|
    ensures var x := v.ring[t][k]; x in v.link && v.link[x].fd in v.link && v.link[x].bk in v.link
    ensures Inv(RingShrunk(v, t, k))
    ensures forall y :: Holds(RingShrunk(v, t, k), y) <==> Holds(v, y) && y != v.ring[t][k]
  {
    hide Covers, Up, Sub, RootCell, RootHeight, Inv, RingAt;
    RingEnds(v, t);
    var s := v.ring[t];
    var x := s[k];
    RingNeighbour(v.link, s, k);
    var v' := RingShrunk(v, t, k);
    var r := v'.ring[t];
    RingDistinct(v.link, s);
    RemovedMembers(s, k);
    Unlink(v.link, s, k, v'.link);
    assert x !in v.cell by {
      if x in v.cell { HeadHeld(v, x); assert Holds(v, x); RingsApartAll(v, t, x, x); }
    }
    forall y | y in r
      ensures MemberOk(v', t, y)
    {
      assert MemberOk(v, t, y);
    }
    BypassLinks(v, v', t, x);
    RingChanged(v, v', t, x, r);
    SameHolders(v, v', t, r);
    HoldersSplit(v, t);
    forall u | u in v.ring && x in v.ring[u]
      ensures u == t
    {
      RingsApartAll(v, t, u, x);
    }
  }

  lemma RingsApartAll(v: Trie, t: int, u: int, y: int)
    requires Inv(v) && t in v.ring && u in v.ring && y in v.ring[u] && y in v.ring[t]
    ensures t == u
  {
  }

  lemma HoldersSplit(v: Trie, t: int)
    requires t in v.ring
    ensures forall y :: Holds(v, y) <==> (exists u :: u in v.ring && u != t && y in v.ring[u]) || y in v.ring[t]
  {
  }

  lemma BypassLinks(v: Trie, v': Trie, t: int, x: int)
    requires Inv(v) && t in v.ring && x in v.link && v.link[x].fd in v.link && v.link[x].bk in v.link
    requires v.link[x].fd in v.ring[t] && v.link[x].bk in v.ring[t] && v'.link == Bypassed(v.link, x)
    ensures forall u, y :: u in v.ring && u != t && y in v.ring[u] && y in v.link ==>
      y in v'.link && v'.link[y] == v.link[y]
  {
    forall u, y | u in v.ring && u != t && y in v.ring[u] && y in v.link
      ensures y in v'.link && v'.link[y] == v.link[y]
    {
      RingsApart(v, t, u, y);
    }
  }

  // ---------- taking a leaf away ----------

  /** p, b is where tree node t hangs. */
  ghost predicate HangsAt(v: Trie, t: int, p: int, b: bool)
    requires t in v.cell && t in v.node
  {
    p == v.node[t].parent && (p in v.cell ==> p in v.node && Child(v.node[p], b) == t)
  }

  ghost function Detached(v: Trie, t: int, p: int, b: bool): Trie
    requires t in v.cell
    requires v.cell[t].h == RootHeight(v.cell[t].bin) ==> v.cell[t].bin < |v.bins|
    requires v.cell[t].h != RootHeight(v.cell[t].bin) ==> p in v.node
  {
    WithSlot(v, v.cell[t], p, b, 0).(cell := v.cell - {t}, ring := v.ring - {t})
  }

  /** What is known of a tree node's place. */
  lemma PlaceOf(v: Trie, t: int, p: int, b: bool)
    requires Inv(v) && t in v.cell && t in v.node && HangsAt(v, t, p, b)
    ensures NodeOk(v, t) && p != 0 && v.cell[t].bin < |v.bins| == NTREEBINS
    ensures v.cell[t].h == RootHeight(v.cell[t].bin) <==> p !in v.cell
    ensures p in v.cell ==> p in v.node && p != t && v.cell[p].h == v.cell[t].h + 1 && v.cell[t] == Sub(v.cell[p], b)
    ensures p !in v.cell ==>
              v.bins[v.cell[t].bin] == t && v.cell[t] == RootCell(v.cell[t].bin) && p == BinSlot(v.cell[t].bin)
    ensures p in v.cell ==> v.bins[v.cell[t].bin] != t && Child(v.node[p], !b) != t
  {
    hide Covers, RootCell, RootHeight, TreeIndexOf, Up, Sub;
    assert NodeOk(v, t);
    IsRoot(v, t);
    if p in v.cell {
      ChildParent(v, p, b);
      if Child(v.node[p], !b) == t {
        OnlyChildOf(v, p, b, p, !b);
      }
    }
    assert p !in v.cell ==> v.bins[v.cell[t].bin] == t;
    NotNode(v, v.cell[t].bin);
  }

  lemma NotNode(v: Trie, i: nat)
    requires Inv(v)
    ensures BinSlot(i) !in v.cell
  {
    assert forall t :: t in v.cell ==> NodeOk(v, t);
  }

  lemma DetachKeepsChild(v: Trie, t: int, p: int, b: bool, u: int, d: bool)
    requires Inv(v) && t in v.cell && t in v.node && HangsAt(v, t, p, b) && u in v.cell && u != t
    requires v.cell[t].h == RootHeight(v.cell[t].bin) ==> v.cell[t].bin < |v.bins|
    requires v.cell[t].h != RootHeight(v.cell[t].bin) ==> p in v.node
    ensures ChildOk(Detached(v, t, p, b), u, d)
  {
    hide Covers, RootCell, RootHeight, Up, Sub;
    PlaceOf(v, t, p, b);
    assert ChildOk(v, u, d);
    var v' := Detached(v, t, p, b);
    if Child(v.node[u], d) == t {
      ChildParent(v, u, d);
      OnlyChildOf(v, u, d, p, b);
    }
  }

  lemma DetachKeepsNode(v: Trie, t: int, p: int, b: bool, u: int)
    requires Inv(v) && t in v.cell && t in v.node && HangsAt(v, t, p, b) && u in v.cell && u != t
    requires v.node[t].left == 0 && v.node[t].right == 0
    requires v.cell[t].h == RootHeight(v.cell[t].bin) ==> v.cell[t].bin < |v.bins|
    requires v.cell[t].h != RootHeight(v.cell[t].bin) ==> p in v.node
    ensures var v' := Detached(v, t, p, b); NodeOk(v', u) && ParentOk(v', u) && RingOk(v', u)
  {
    hide Covers, RootCell, RootHeight, Up, Sub, RingAt, DecidingBit;
    var v' := Detached(v, t, p, b);
    assert NodeOk(v, u) && ParentOk(v, u) && RingOk(v, u);
    if v.cell[u].h != RootHeight(v.cell[u].bin) {
      ParentChild(v, u);
    }
    forall y | y in v.ring[u]
      ensures MemberOk(v', u, y)
    {
      assert MemberOk(v, u, y);
      if y in v.cell { HeadHeld(v, y); RingsApartAll(v, u, y, y); }
    }
  }

  lemma DetachKeepsBin(v: Trie, t: int, p: int, b: bool, i: nat)
    requires Inv(v) && t in v.cell && t in v.node && HangsAt(v, t, p, b) && i < NTREEBINS
    requires v.cell[t].h == RootHeight(v.cell[t].bin) ==> v.cell[t].bin < |v.bins|
    requires v.cell[t].h != RootHeight(v.cell[t].bin) ==> p in v.node
    ensures |v.bins| == NTREEBINS && BinOk(Detached(v, t, p, b), i)
  {
    hide Covers, RootHeight, Up, Sub;
    PlaceOf(v, t, p, b);
    assert BinOk(v, i);
    assert RootCell(i).bin == i;
  }

  lemma DetachUnique(v: Trie, v': Trie, t: int)
    requires Inv(v) && v'.cell == v.cell - {t} && v'.ring == v.ring - {t} && v'.size == v.size
    ensures Unique(v')
  {
  }

  lemma DetachHolders(v: Trie, v': Trie, t: int)
    requires Inv(v) && t in v.ring && v'.ring == v.ring - {t}
    ensures forall y :: Holds(v', y) <==> Holds(v, y) && y !in v.ring[t]
  {
    hide Covers, RingAt;
    forall y
      ensures Holds(v', y) <==> Holds(v, y) && y !in v.ring[t]
    {
      if Holds(v, y) && y !in v.ring[t] {
        var u :| u in v.ring && y in v.ring[u];
        assert u in v'.ring && v'.ring[u] == v.ring[u];
      }
      if Holds(v', y) {
        var u :| u in v'.ring && y in v'.ring[u];
        assert u in v.ring && v'.ring[u] == v.ring[u];
        if y in v.ring[t] { RingsApartAll(v, t, u, y); }
      }
    }
  }

  lemma DetachLeaf(v: Trie, t: int, p: int, b: bool)
    requires Inv(v) && t in v.cell && t in v.node && HangsAt(v, t, p, b)
    requires v.node[t].left == 0 && v.node[t].right == 0
    ensures v.cell[t].h == RootHeight(v.cell[t].bin) ==> v.cell[t].bin < |v.bins|
    ensures v.cell[t].h != RootHeight(v.cell[t].bin) ==> p in v.node
    ensures Inv(Detached(v, t, p, b))
    ensures t in v.ring && forall y :: Holds(Detached(v, t, p, b), y) <==> Holds(v, y) && y !in v.ring[t]
  {
    hide Covers, RootCell, RootHeight, Up, Sub, RingAt;
    PlaceOf(v, t, p, b);
    RingEnds(v, t);
    var v' := Detached(v, t, p, b);
    forall u | u in v'.cell
      ensures NodeOk(v', u) && ParentOk(v', u) && RingOk(v', u) && forall d :: ChildOk(v', u, d)
    {
      DetachKeepsNode(v, t, p, b, u);
      DetachKeepsChild(v, t, p, b, u, true);
      DetachKeepsChild(v, t, p, b, u, false);
    }
    forall i: nat | i < NTREEBINS
      ensures BinOk(v', i)
    {
      DetachKeepsBin(v, t, p, b, i);
    }
    assert Unique(v') by { DetachUnique(v, v', t); }
    DetachHolders(v, v', t);
  }

  // ---------- replacing a tree node ----------

  ghost function WithParent(n: map<int, TreeNode>, c: int, p: int): map<int, TreeNode>
    requires c != 0 ==> c in n
  {
    if c == 0 then n else n[c := n[c].(parent := p)]
  }

  /** Chunk r, with the chunks of its own ring, takes the place of tree node t. */
  ghost function Replaced(v: Trie, t: int, p: int, b: bool, r: int, rr: seq<int>, link: map<int, Link>): Trie
    requires t in v.cell && t in v.node
    requires v.cell[t].h == RootHeight(v.cell[t].bin) ==> v.cell[t].bin < |v.bins|
    requires v.cell[t].h != RootHeight(v.cell[t].bin) ==> p in v.node
    requires v.node[t].left != 0 ==> v.node[t].left in v.node
    requires v.node[t].right != 0 ==> v.node[t].right in v.node
  {
    var w := WithSlot(v, v.cell[t], p, b, r);
    var n := v.node[t];
    var nodes := w.node[r := TreeNode(n.left, n.right, p, v.cell[t].bin)];
    w.(node := WithParent(WithParent(nodes, n.left, r), n.right, r), link := link,
       cell := (v.cell - {t})[r := v.cell[t]], ring := (v.ring - {t})[r := rr])
  }

  /** r can stand where t stands. */
  ghost predicate Substitute(v: Trie, t: int, r: int, rr: seq<int>, link: map<int, Link>)
    requires t in v.cell
  {
    && r > 0 && r !in v.cell && r in v.size && Covers(v.cell[t], v.size[r])
    && RingAt(link, rr) && rr[0] == r
    && (forall y :: y in rr ==> y > 0 && y in v.size && v.size[y] == v.size[r])
    && (forall y :: y in rr && y != r ==> y in v.node && v.node[y] == TreeNode(0, 0, 0, v.cell[t].bin))
    && (forall u :: u in v.cell && u != t && u in v.size ==> v.size[u] != v.size[r])
    && (forall u, y :: u in v.ring && u != t && y in v.ring[u] ==>
      y !in rr && y in v.link && y in link && link[y] == v.link[y])
  }

  lemma ReplacePlaces(v: Trie, t: int, p: int, b: bool)
    requires Inv(v) && t in v.cell && t in v.node && HangsAt(v, t, p, b)
    ensures v.cell[t].h == RootHeight(v.cell[t].bin) ==> v.cell[t].bin < |v.bins|
    ensures v.cell[t].h != RootHeight(v.cell[t].bin) ==> p in v.node
    ensures v.node[t].left != 0 ==> v.node[t].left in v.node && v.node[t].left in v.cell && v.node[t].left !in {t, p}
    ensures v.node[t].right != 0 ==>
      v.node[t].right in v.node && v.node[t].right in v.cell && v.node[t].right !in {t, p}
    ensures v.node[t].left != 0 ==> v.node[t].left != v.node[t].right
  {
    hide Covers, RootCell, RootHeight, Up, Sub;
    PlaceOf(v, t, p, b);
    var n := v.node[t];
    assert Child(n, false) == n.left && Child(n, true) == n.right;
    if n.left != 0 { ChildParent(v, t, false); }
    if n.right != 0 { ChildParent(v, t, true); }
    if n.left != 0 && n.left == n.right { OnlyChildOf(v, t, false, t, true); }
  }

  /** The record of a surviving tree node after a replacement. */
  lemma ReplacedRecord(v: Trie, v': Trie, t: int, p: int, b: bool, r: int, rr: seq<int>, link: map<int, Link>, u: int)
    requires Inv(v) && t in v.cell && t in v.node && HangsAt(v, t, p, b) && Substitute(v, t, r, rr, link)
    requires u in v.cell && u != t
    requires v.cell[t].h == RootHeight(v.cell[t].bin) ==> v.cell[t].bin < |v.bins|
    requires v.cell[t].h != RootHeight(v.cell[t].bin) ==> p in v.node
    requires v.node[t].left != 0 ==> v.node[t].left in v.node
    requires v.node[t].right != 0 ==> v.node[t].right in v.node
    requires v' == Replaced(v, t, p, b, r, rr, link)
    ensures u in v.node && u in v'.node && v'.node[u].index == v.node[u].index
    ensures v'.node[u].parent == if u == v.node[t].left || u == v.node[t].right then r else v.node[u].parent
    ensures forall d :: Child(v'.node[u], d) == if u == p && d == b then r else Child(v.node[u], d)
    ensures r in v'.node && v'.node[r] == TreeNode(v.node[t].left, v.node[t].right, p, v.cell[t].bin)
  {
    hide Covers, RootCell, RootHeight, Up, Sub, RingAt, Inv, NodeOk;
    InvNode(v, u);
    PlaceOf(v, t, p, b);
    ReplacePlaces(v, t, p, b);
  }

  lemma InvNode(v: Trie, u: int)
    requires Inv(v) && u in v.cell
    ensures NodeOk(v, u) && ParentOk(v, u) && RingOk(v, u) && ChildOk(v, u, true) && ChildOk(v, u, false)
    ensures u in v.node && u in v.size && u in v.ring && u > 0
  {
    hide Covers, Up, Sub, RingAt;
    assert NodeOk(v, u);
  }

  /** Everything a replacement needs to be well defined. */
  ghost predicate Replaceable(v: Trie, t: int, p: int, b: bool) {
    && t in v.cell && t in v.node && |v.bins| == NTREEBINS && v.cell[t].bin < NTREEBINS
    && (v.cell[t].h != RootHeight(v.cell[t].bin) ==> p in v.node)
    && (v.node[t].left != 0 ==> v.node[t].left in v.node)
    && (v.node[t].right != 0 ==> v.node[t].right in v.node)
    && HangsAt(v, t, p, b)
  }

  lemma ReplaceKeepsNode(v: Trie, t: int, p: int, b: bool, r: int, rr: seq<int>, link: map<int, Link>, u: int)
    requires Inv(v) && Replaceable(v, t, p, b) && Substitute(v, t, r, rr, link) && u in v.cell && u != t
    ensures var v' := Replaced(v, t, p, b, r, rr, link); NodeOk(v', u) && ParentOk(v', u)
  {
    hide Covers, RootCell, RootHeight, Up, Sub, RingAt, DecidingBit;
    var v' := Replaced(v, t, p, b, r, rr, link);
    assert NodeOk(v, u) && ParentOk(v, u);
    ReplacedRecord(v, v', t, p, b, r, rr, link, u);
    assert Child(v.node[t], false) == v.node[t].left && Child(v.node[t], true) == v.node[t].right;
    if v.node[t].left != 0 { ChildParent(v, t, false); }
    if v.node[t].right != 0 { ChildParent(v, t, true); }
    if v.cell[u].h != RootHeight(v.cell[u].bin) { ParentChild(v, u); }
  }

  lemma ReplaceKeepsRing(v: Trie, t: int, p: int, b: bool, r: int, rr: seq<int>, link: map<int, Link>, u: int)
    requires Inv(v) && Replaceable(v, t, p, b) && Substitute(v, t, r, rr, link) && u in v.cell && u != t
    ensures RingOk(Replaced(v, t, p, b, r, rr, link), u)
  {
    hide Covers, RootCell, RootHeight, Up, Sub, RingAt, Inv, NodeOk;
    var v' := Replaced(v, t, p, b, r, rr, link);
    InvNode(v, u);
    RingNonEmpty(link, rr);
    RingHeadIn(rr, r);
    assert r !in v.ring[u];
    forall y | y in v.ring[u]
      ensures MemberOk(v', u, y)
    {
      assert MemberOk(v, u, y);
      ReplacedMember(v, t, p, b, r, rr, link, u, y);
    }
    RingFrame(v.link, v'.link, v.ring[u]);
  }

  lemma ReplacedMember(v: Trie, t: int, p: int, b: bool, r: int, rr: seq<int>, link: map<int, Link>, u: int, y: int)
    requires Inv(v) && Replaceable(v, t, p, b) && Substitute(v, t, r, rr, link) && u in v.cell && u != t
    requires u in v.ring && y in v.ring[u] && y != r
    ensures var v' := Replaced(v, t, p, b, r, rr, link);
            y in v.node && y in v'.node && v'.node[y].index == v.node[y].index && (y != u ==> v'.node[y] == v.node[y])
  {
    hide Covers, RootCell, RootHeight, Up, Sub, RingAt, Inv, NodeOk;
    var v' := Replaced(v, t, p, b, r, rr, link);
    InvNode(v, u);
    assert MemberOk(v, u, y);
    ReplacePlaces(v, t, p, b);
    PlaceOf(v, t, p, b);
    assert y in v.cell ==> y == u by {
      if y in v.cell { HeadHeld(v, y); RingsApartAll(v, u, y, y); }
    }
  }

  lemma RingHeadIn(rr: seq<int>, r: int)
    requires rr != [] && rr[0] == r
    ensures r in rr
  {
  }

  lemma ReplaceNewNode(v: Trie, t: int, p: int, b: bool, r: int, rr: seq<int>, link: map<int, Link>)
    requires Inv(v) && Replaceable(v, t, p, b) && Substitute(v, t, r, rr, link)
    ensures var v' := Replaced(v, t, p, b, r, rr, link); NodeOk(v', r) && ParentOk(v', r) && RingOk(v', r)
  {
    hide Covers, RootCell, RootHeight, Up, Sub, RingAt, RingOk;
    var v' := Replaced(v, t, p, b, r, rr, link);
    assert NodeOk(v, t) && ParentOk(v, t);
    ReplacePlaces(v, t, p, b);
    PlaceOf(v, t, p, b);
    ReplaceNewRing(v, t, p, b, r, rr, link);
  }

  lemma ReplaceNewRing(v: Trie, t: int, p: int, b: bool, r: int, rr: seq<int>, link: map<int, Link>)
    requires Inv(v) && Replaceable(v, t, p, b) && Substitute(v, t, r, rr, link)
    ensures r in Replaced(v, t, p, b, r, rr, link).size && RingOk(Replaced(v, t, p, b, r, rr, link), r)
  {
    hide Covers, RootCell, RootHeight, Up, Sub, RingAt, ParentOk;
    var v' := Replaced(v, t, p, b, r, rr, link);
    assert NodeOk(v, t);
    ReplacePlaces(v, t, p, b);
    PlaceOf(v, t, p, b);
    forall y | y in rr
      ensures MemberOk(v', r, y)
    {
      if y in v.cell && y != t {
        HeadHeld(v, y);
      }
    }
  }

  lemma ReplaceKeepsChild(v: Trie, t: int, p: int, b: bool, r: int, rr: seq<int>, link: map<int, Link>, u: int, d: bool)
    requires Inv(v) && Replaceable(v, t, p, b) && Substitute(v, t, r, rr, link)
    requires u in v.cell && u != t
    ensures ChildOk(Replaced(v, t, p, b, r, rr, link), u, d)
  {
    hide Covers, RootCell, RootHeight, Up, Sub, RingAt, Inv, NodeOk;
    var v' := Replaced(v, t, p, b, r, rr, link);
    PlaceOf(v, t, p, b);
    InvNode(v, u);
    assert ChildOk(v, u, d);
    ReplacedRecord(v, v', t, p, b, r, rr, link, u);
    if Child(v.node[u], d) == t {
      InvNode(v, t);
      ChildParent(v, u, d);
      OnlyChildOf(v, u, d, p, b);
    }
  }

  lemma ReplaceNewChild(v: Trie, t: int, p: int, b: bool, r: int, rr: seq<int>, link: map<int, Link>, d: bool)
    requires Inv(v) && Replaceable(v, t, p, b) && Substitute(v, t, r, rr, link)
    ensures ChildOk(Replaced(v, t, p, b, r, rr, link), r, d)
  {
    hide Covers, RootCell, RootHeight, Up, Sub, RingAt, Inv, NodeOk;
    var v' := Replaced(v, t, p, b, r, rr, link);
    PlaceOf(v, t, p, b);
    ReplacePlaces(v, t, p, b);
    InvNode(v, t);
    assert ChildOk(v, t, d);
    if v.cell[t].h > 0 { SubDiffers(v.cell[t]); }
  }

  lemma ReplaceKeepsBin(v: Trie, t: int, p: int, b: bool, r: int, rr: seq<int>, link: map<int, Link>, i: nat)
    requires Inv(v) && Replaceable(v, t, p, b) && Substitute(v, t, r, rr, link) && i < NTREEBINS
    ensures BinOk(Replaced(v, t, p, b, r, rr, link), i)
  {
    hide Covers, RootHeight, Up, Sub, RingAt;
    PlaceOf(v, t, p, b);
    assert BinOk(v, i);
    assert RootCell(i).bin == i;
  }

  lemma ReplaceUnique(v: Trie, t: int, p: int, b: bool, r: int, rr: seq<int>, link: map<int, Link>)
    requires Inv(v) && Replaceable(v, t, p, b) && Substitute(v, t, r, rr, link)
    ensures Unique(Replaced(v, t, p, b, r, rr, link))
  {
    hide Covers, RootCell, RootHeight, Up, Sub, RingAt;
    assert forall u :: u in v.cell ==> NodeOk(v, u);
  }

  lemma ReplaceHolders(v: Trie, t: int, p: int, b: bool, r: int, rr: seq<int>, link: map<int, Link>)
    requires Inv(v) && Replaceable(v, t, p, b) && Substitute(v, t, r, rr, link)
    ensures t in v.ring
    ensures forall y :: Holds(Replaced(v, t, p, b, r, rr, link), y) <==> (Holds(v, y) && y !in v.ring[t]) || y in rr
  {
    hide Covers, RootCell, RootHeight, Up, Sub, RingAt;
    HeadHeld(v, t);
    var v' := Replaced(v, t, p, b, r, rr, link);
    forall y
      ensures Holds(v', y) <==> (Holds(v, y) && y !in v.ring[t]) || y in rr
    {
      if Holds(v, y) && y !in v.ring[t] {
        var u :| u in v.ring && y in v.ring[u];
        assert u in v'.ring && v'.ring[u] == v.ring[u];
      }
      if y in rr { assert y in v'.ring[r]; }
      if Holds(v', y) && y !in rr {
        var u :| u in v'.ring && y in v'.ring[u];
        assert u in v.ring && v'.ring[u] == v.ring[u];
        assert y in v.ring[t] ==> u == t;
      }
    }
  }

  lemma ReplaceNode(v: Trie, t: int, p: int, b: bool, r: int, rr: seq<int>, link: map<int, Link>)
    requires Inv(v) && Replaceable(v, t, p, b) && Substitute(v, t, r, rr, link)
    ensures Inv(Replaced(v, t, p, b, r, rr, link))
    ensures t in v.ring
    ensures forall y :: Holds(Replaced(v, t, p, b, r, rr, link), y) <==> (Holds(v, y) && y !in v.ring[t]) || y in rr
  {
    hide Covers, RootCell, RootHeight, Up, Sub, RingAt, NodeOk, ParentOk, RingOk, ChildOk, BinOk, Unique;
    var v' := Replaced(v, t, p, b, r, rr, link);
    ReplaceNewNode(v, t, p, b, r, rr, link);
    forall u | u in v'.cell
      ensures NodeOk(v', u) && ParentOk(v', u) && RingOk(v', u) && forall d :: ChildOk(v', u, d)
    {
      if u != r {
        ReplaceKeepsNode(v, t, p, b, r, rr, link, u);
        ReplaceKeepsRing(v, t, p, b, r, rr, link, u);
        ReplaceKeepsChild(v, t, p, b, r, rr, link, u, true);
        ReplaceKeepsChild(v, t, p, b, r, rr, link, u, false);
      } else {
        ReplaceNewChild(v, t, p, b, r, rr, link, true);
        ReplaceNewChild(v, t, p, b, r, rr, link, false);
      }
    }
    forall i: nat | i < NTREEBINS
      ensures BinOk(v', i)
    {
      ReplaceKeepsBin(v, t, p, b, r, rr, link, i);
    }
    ReplaceUnique(v, t, p, b, r, rr, link);
    ReplaceHolders(v, t, p, b, r, rr, link);
  }

  // ---------- insertion path ----------

  /** No tree node of size s lies above t. */
  ghost predicate PathClear(v: Trie, t: int, s: nat)
    requires t in v.cell
  {
    forall u :: u in v.cell && u in v.size && v.size[u] == s ==> v.cell[u].h <= v.cell[t].h
  }

  lemma RootStart(v: Trie, i: nat, s: nat)
    requires Inv(v) && LargeSize(s) && i == TreeIndexOf(s) && i < |v.bins| && v.bins[i] != 0
    ensures var t := v.bins[i];
            t in v.cell && Covers(v.cell[t], s) && v.cell[t].h == RootHeight(i)
            && PathClear(v, t, s)
  {
    hide TreeIndexOf, Base, RingAt;
    CoverRoot(s);
    assert BinOk(v, i);
    forall u | u in v.cell && u in v.size && v.size[u] == s
      ensures v.cell[u].h <= RootHeight(i)
    {
      CoverOf(v, u);
    }
  }

  lemma NoRoot(v: Trie, i: nat, s: nat)
    requires Inv(v) && LargeSize(s) && i == TreeIndexOf(s) && i < |v.bins| && v.bins[i] == 0
    ensures forall u :: u in v.cell ==> v.cell[u] != RootCell(i)
    ensures forall u :: u in v.cell && u in v.size ==> v.size[u] != s
  {
    hide TreeIndexOf, Base, RingAt, Under;
    assert BinOk(v, i);
    forall u | u in v.cell && u in v.size
      ensures v.size[u] != s
    {
      RootHolds(v, u);
      CoverOf(v, u);
    }
  }

  /** One step down the path of size s: to the child its deciding bit selects, or to a free place when there is none. */
  lemma PathStep(v: Trie, t: int, s: nat)
    requires Inv(v) && t in v.cell && t in v.size && Covers(v.cell[t], s) && v.size[t] != s && PathClear(v, t, s)
    ensures t in v.node && v.cell[t].h > 0
    ensures var b := DecidingBit(s, v.cell[t].h);
            var c := Child(v.node[t], b);
            if c != 0 then c in v.cell && v.cell[c].h == v.cell[t].h - 1 && Covers(v.cell[c], s) && PathClear(v, c, s)
            else && Covers(Sub(v.cell[t], b), s)
                 && (forall u :: u in v.cell ==> v.cell[u] != Sub(v.cell[t], b))
                 && (forall u :: u in v.cell && u in v.size ==> v.size[u] != s)
  {
    hide Sub, Up, RootCell, RootHeight, RingAt;
    InvNode(v, t);
    CoverSingle(v.cell[t], s, v.size[t]);
    var b := DecidingBit(s, v.cell[t].h);
    CoverSub(v.cell[t], s);
    assert ChildOk(v, t, b);
    SubDiffers(v.cell[t]);
    forall u | u in v.cell && u in v.size && v.size[u] == s
      ensures Child(v.node[t], b) != 0 && Under(v, u, Child(v.node[t], b))
    {
      Descend(v, u, t);
    }
  }

  // ---------- removal ----------

  /** The next member of a ring takes over when the tree node itself is unlinked. */
  lemma HeadLeaves(v: Trie, t: int)
    requires Inv(v) && t in v.cell && t in v.ring && |v.ring[t]| >= 2
    ensures t in v.link && v.link[t].fd in v.link && v.link[t].bk in v.link
    ensures var rr := FromLast(Removed(v.ring[t], 0));
            rr[0] == v.link[t].bk && Substitute(v, t, v.link[t].bk, rr, Bypassed(v.link, t))
    ensures forall y :: y in FromLast(Removed(v.ring[t], 0)) <==> y in v.ring[t] && y != t
    ensures v.link[t].bk in v.node && v.node[v.link[t].bk] == TreeNode(0, 0, 0, v.cell[t].bin) && v.link[t].bk != t
  {
    hide Up, Sub, RootCell, RootHeight, RingAt, Inv, NodeOk;
    InvNode(v, t);
    RingEnds(v, t);
    var s := v.ring[t];
    WithoutHead(v.link, s);
    var link := Bypassed(v.link, t);
    var rr := FromLast(Removed(s, 0));
    var r := v.link[t].bk;
    RingNonEmpty(link, rr);
    assert MemberOk(v, t, r);
    forall y | y in rr
      ensures y > 0 && y in v.size && v.size[y] == v.size[r] && y in v.node
        && v.node[y] == TreeNode(0, 0, 0, v.cell[t].bin)
    {
      assert MemberOk(v, t, y);
    }
    assert r !in v.cell by {
      if r in v.cell { HeadHeld(v, r); RingsApartAll(v, t, r, r); }
    }
    OthersApart(v, t, rr, link);
    OtherSizes(v, t, v.size[r]);
    CoverOf(v, t);
  }

  lemma CoverOf(v: Trie, t: int)
    requires Inv(v) && t in v.cell
    ensures t in v.size && v.cell[t].bin < NTREEBINS && Covers(v.cell[t], v.size[t]) && LargeSize(v.size[t])
    ensures t > 0 && t in v.node && v.node[t].index == v.cell[t].bin == TreeIndexOf(v.size[t])
  {
    assert NodeOk(v, t);
  }

  lemma OtherSizes(v: Trie, t: int, s: nat)
    requires Inv(v) && t in v.cell && t in v.size && v.size[t] == s
    ensures forall u :: u in v.cell && u != t && u in v.size ==> v.size[u] != s
  {
  }

  lemma RingPerNode(v: Trie)
    requires Inv(v)
    ensures v.ring.Keys == v.cell.Keys
  {
  }

  lemma OthersApart(v: Trie, t: int, rr: seq<int>, link: map<int, Link>)
    requires Inv(v) && t in v.ring && t in v.link && v.link[t].fd in v.link && v.link[t].bk in v.link
    requires t in v.ring[t] && v.link[t].fd in v.ring[t] && v.link[t].bk in v.ring[t]
    requires link == Bypassed(v.link, t) && forall y :: y in rr ==> y in v.ring[t]
    ensures forall u, y :: u in v.ring && u != t && y in v.ring[u] ==>
      y !in rr && y in v.link && y in link && link[y] == v.link[y]
  {
    hide RingAt, Inv, RootHeight, Up, Sub, Covers;
    RingPerNode(v);
    forall u, y | u in v.ring && u != t && y in v.ring[u]
      ensures y !in rr && y in v.link && y in link && link[y] == v.link[y]
    {
      RingsApart(v, t, u, y);
      RingEnds(v, u);
      RingMembers(v.link, v.ring[u]);
    }
  }

  /** A leaf below t can be taken off its place and put in t's, when t is the only chunk of its size. */
  lemma LeafMoves(v: Trie, t: int, p: int, b: bool, r: int, q: int, d: bool)
    requires Inv(v) && t in v.cell && t in v.node && HangsAt(v, t, p, b)
    requires Under(v, r, t) && r != t && r in v.node && HangsAt(v, r, q, d) && q in v.cell && q in v.node
      && Under(v, q, t)
    requires v.node[r].left == 0 && v.node[r].right == 0
    ensures var v1 := Detached(v, r, q, d);
            Inv(v1) && r in v.ring && Replaceable(v1, t, p, b) && Substitute(v1, t, r, v.ring[r], v.link)
    ensures v.node[r].index == v.cell[t].bin
  {
    hide Up, Sub, RootCell, RootHeight, RingAt, Inv, NodeOk;
    CoverOf(v, r);
    CoverOf(v, t);
    PlaceOf(v, r, q, d);
    PlaceOf(v, t, p, b);
    DetachLeaf(v, r, q, d);
    var v1 := Detached(v, r, q, d);
    RingEnds(v, r);
    ReplacePlaces(v1, t, p, b);
    forall y | y in v.ring[r]
      ensures y > 0 && y in v1.size && v1.size[y] == v1.size[r]
      ensures y != r ==> y in v1.node && v1.node[y] == TreeNode(0, 0, 0, v1.cell[t].bin)
    {
      assert MemberOk(v, r, y);
      assert y in v.cell ==> y == r by {
        if y in v.cell { HeadHeld(v, y); RingsApartAll(v, r, y, y); }
      }
    }
    RingOutside(v, r);
    OtherSizes(v, r, v.size[r]);
  }

  lemma RingOutside(v: Trie, r: int)
    requires Inv(v) && r in v.ring
    ensures forall u, y :: u in v.ring && u != r && y in v.ring[u] ==> y !in v.ring[r] && y in v.link
  {
    hide RingAt;
    forall u, y | u in v.ring && u != r && y in v.ring[u]
      ensures y !in v.ring[r] && y in v.link
    {
      RingsApart(v, r, u, y);
      RingEnds(v, u);
      RingMembers(v.link, v.ring[u]);
    }
  }

  lemma UnderSelf(v: Trie, t: int)
    requires Inv(v) && t in v.cell
    ensures Under(v, t, t)
  {
    CoverOf(v, t);
  }

  /** A child of a node under x is under x, strictly below its parent, and hangs there. */
  lemma UnderChild(v: Trie, x: int, t: int, b: bool)
    requires Inv(v) && Under(v, t, x) && t in v.node && Child(v.node[t], b) != 0
    ensures var c := Child(v.node[t], b);
            c in v.cell && c in v.node && v.cell[c].h < v.cell[t].h && Under(v, c, x) && HangsAt(v, c, t, b)
  {
    hide Sub, Up, RootHeight, RootCell, RingAt;
    ChildParent(v, t, b);
    ChildUnder(v, t, b);
    var c := Child(v.node[t], b);
    UnderSelf(v, c);
    UnderTrans(v, c, t, x);
  }

  lemma UnderTrans(v: Trie, a: int, b: int, c: int)
    requires Inv(v) && Under(v, a, b) && Under(v, b, c)
    ensures Under(v, a, c)
  {
    CoverOf(v, a);
    CoverOf(v, b);
    BaseNest(v.size[a], v.cell[b].h, v.cell[c].h);
    BaseNest(v.size[b], v.cell[b].h, v.cell[c].h);
  }

  /** A chunk has a parent field exactly when it is a tree node. */
  lemma NodeHasParent(v: Trie, t: int, x: int)
    requires Inv(v) && t in v.cell && t in v.ring && x in v.ring[t] && x in v.node
    ensures v.node[x].parent != 0 <==> x == t
    ensures x == v.ring[t][0] <==> x == t
  {
    hide RingAt, Covers;
    InvNode(v, t);
    IsRoot(v, t);
    assert MemberOk(v, t, x);
  }
}
