/**
 The doubly linked ring list of the coursework library, proved against the sequence of its elements from the root on.
 */
module RingLists {
  import opened Sequences

  class ListNode<T> {
    const data: T
    var next: ListNode?<T>
    var prev: ListNode?<T>

    constructor (data: T)
      ensures this.data == data && next == null && prev == null
    {
      this.data := data;
      next, prev := null, null;
    }
  }

  /** The elements of the nodes. */
  ghost function DataOf<T>(nodes: seq<ListNode<T>>): (s: seq<T>)
    ensures |s| == |nodes| && forall i :: 0 <= i < |s| ==> s[i] == nodes[i].data
  {
    seq(|nodes|, i requires 0 <= i < |nodes| => nodes[i].data)
  }

  ghost function Next(i: nat, n: nat): nat
    requires i < n
  {
    if i + 1 == n then 0 else i + 1
  }

  /** Two neighbouring nodes point to each other. */
  ghost predicate Joined<T>(nodes: seq<ListNode<T>>, i: nat)
    requires i < |nodes|
    reads nodes
  {
    nodes[i].next == nodes[Next(i, |nodes|)] && nodes[Next(i, |nodes|)].prev == nodes[i]
  }

  class List<T(==)> {
    var root: ListNode?<T>
    var count: int
    ghost var nodes: seq<ListNode<T>>

    ghost predicate Valid()
      reads this, nodes
    {
      && count == |nodes| && root == (if nodes == [] then null else nodes[0])
      && (forall i, j :: 0 <= i < j < |nodes| ==> nodes[i] != nodes[j])
      && (forall i {:trigger Joined(nodes, i)} :: 0 <= i < |nodes| ==> Joined(nodes, i))
    }

    ghost function Contents(): seq<T>
      reads this
    {
      DataOf(nodes)
    }

    constructor ()
      ensures Valid() && nodes == []
    {
      root, count, nodes := null, 0, [];
    }

    /** Puts newNode into the ring behind oldNode, the k-th node. */
    method AddAfter(newNode: ListNode<T>, oldNode: ListNode<T>, ghost k: nat)
      requires Valid() && k < |nodes| && oldNode == nodes[k] && newNode !in nodes
      modifies this, nodes, newNode
      ensures Valid() && nodes == WithAfter(old(nodes), k, newNode) && root == old(root)
      ensures forall n :: n in nodes ==> n in old(nodes) || n == newNode
    {
      hide WithAfter;
      ghost var n := |nodes|;
      assert Joined(nodes, k);
      WithAfterElements(nodes, k, newNode);
      newNode.next := oldNode.next;
      newNode.prev := oldNode;
      oldNode.next.prev := newNode;
      oldNode.next := newNode;
      count := count + 1;
      nodes := WithAfter(nodes, k, newNode);
      forall i | 0 <= i < |nodes|
        ensures Joined(nodes, i)
      {
        assert i != k && i != k + 1 ==> old(Joined(nodes, if i < k then i else i - 1));
      }
    }

    /** Takes the k-th node out of the ring; when it is the root, the root moves on. */
    method RemoveNode(node: ListNode<T>, ghost k: nat)
      requires Valid() && k < |nodes| && nodes[k] == node
      modifies this, nodes
      ensures Valid() && nodes == WithoutAt(old(nodes), k)
      ensures forall n :: n in nodes ==> n in old(nodes)
    {
      hide WithoutAt;
      ghost var n := |nodes|;
      ghost var b := if k == 0 then n - 1 else k - 1;
      assert Joined(nodes, k) && Joined(nodes, b);
      node.next.prev := node.prev;
      node.prev.next := node.next;
      if node == root {
        root := root.next;
        if count == 1 {
          root := null;
        }
      }
      count := count - 1;
      WithoutAtElements(nodes, k);
      WithoutAtDistinct(nodes, k);
      nodes := WithoutAt(nodes, k);
      forall i | 0 <= i < |nodes|
        ensures Joined(nodes, i)
      {
        assert old(Joined(nodes, if i < k then i else i + 1));
      }
    }

    /** Adds an element at the end of the ring. */
    method AddToTail(elem: T)
      requires Valid()
      modifies this, nodes
      ensures Valid() && Contents() == old(Contents()) + [elem]
      ensures forall n :: n in nodes ==> n in old(nodes) || fresh(n)
    {
      var newNode := new ListNode(elem);
      if root != null {
        assert Joined(nodes, |nodes| - 1);
        AddAfter(newNode, root.prev, |nodes| - 1);
      } else {
        newNode.next := newNode;
        newNode.prev := newNode;
        root := newNode;
        count := count + 1;
        nodes := [newNode];
        assert Joined(nodes, 0);
      }
    }

    /** Adds an element in front: it is linked in at the end and becomes the root. */
    method AddToHead(elem: T)
      requires Valid()
      modifies this, nodes
      ensures Valid() && Contents() == [elem] + old(Contents())
      ensures forall n :: n in nodes ==> n in old(nodes) || fresh(n)
    {
      var newNode := new ListNode(elem);
      if root != null {
        assert Joined(nodes, |nodes| - 1);
        AddAfter(newNode, root.prev, |nodes| - 1);
        root := newNode;
        TurnBack();
      } else {
        newNode.next := newNode;
        newNode.prev := newNode;
        count := count + 1;
        nodes := [newNode];
        assert Joined(nodes, 0);
        root := newNode;
      }
    }

    /** The root has moved to the last node. */
    ghost method TurnBack()
      requires nodes != [] && count == |nodes| && root == nodes[|nodes| - 1]
      requires forall i, j :: 0 <= i < j < |nodes| ==> nodes[i] != nodes[j]
      requires forall i {:trigger Joined(nodes, i)} :: 0 <= i < |nodes| ==> Joined(nodes, i)
      modifies this`nodes
      ensures Valid() && nodes == [old(nodes)[|old(nodes)| - 1]] + old(nodes)[..|old(nodes)| - 1]
    {
      ghost var n := |nodes|;
      nodes := [nodes[n - 1]] + nodes[..n - 1];
      forall i | 0 <= i < |nodes|
        ensures Joined(nodes, i)
      {
        assert old(Joined(nodes, if i == 0 then n - 1 else i - 1));
      }
    }

    /** Makes the front the new tail and returns its element. */
    method Skew() returns (elem: T)
      requires Valid() && nodes != []
      modifies this
      ensures Valid() && elem == old(Contents())[0] && Contents() == old(Contents())[1..] + [elem]
      ensures nodes == old(nodes)[1..] + [old(nodes)[0]]
    {
      elem := root.data;
      ghost var n := |nodes|;
      assert Joined(nodes, 0);
      root := root.next;
      nodes := nodes[1..] + [nodes[0]];
      forall i | 0 <= i < |nodes|
        ensures Joined(nodes, i)
      {
        assert old(Joined(nodes, Next(i, n)));
      }
    }

    /** Takes the front off the list. */
    method Dequeue() returns (elem: T)
      requires Valid() && nodes != []
      modifies this, nodes
      ensures Valid() && old(Contents()) == [elem] + Contents()
      ensures forall n :: n in nodes ==> n in old(nodes)
    {
      elem := root.data;
      RemoveNode(root, 0);
    }

    /** Removes every node that holds elem: first they are collected on one round, then taken out one by one. */
    method Remove(elem: T)
      requires Valid()
      modifies this, nodes
      ensures Valid() && Contents() == Without(old(Contents()), elem)
      ensures forall n :: n in nodes ==> n in old(nodes)
    {
      hide Without, Matches, WithoutAt, List.Valid, MatchesAre, DataOf;
      NoMatches(nodes, elem);
      EmptyRing();
      if root == null {
        return;
      }
      var deleteList, deleteIndex := Collect(elem);
      var p := 0;
      while p < deleteIndex
        invariant 0 <= p <= deleteIndex <= deleteList.Length && Valid()
        invariant MatchesAre(deleteList, p, deleteIndex, Matches(nodes, elem))
        invariant Without(Contents(), elem) == Without(old(Contents()), elem)
        invariant forall n :: n in nodes ==> n in old(nodes)
      {
        MatchesTail(deleteList, p, deleteIndex, Matches(nodes, elem));
        ghost var k := FirstMatch(nodes, elem);
        StillOld(nodes, old(nodes));
        RemoveNode(deleteList[p], k);
        p := p + 1;
      }
      AllDeleted(deleteList, p, Matches(nodes, elem));
      NoMatches(nodes, elem);
      StillOld(nodes, old(nodes));
    }

    lemma EmptyRing()
      requires Valid()
      ensures root == null <==> nodes == []
    {
    }

    lemma StillOld(s: seq<ListNode<T>>, all: seq<ListNode<T>>)
      requires forall i :: 0 <= i < |s| ==> s[i] in all
      ensures forall n :: n in s ==> n in all
    {
    }

    lemma MatchesTail(a: array<ListNode?<T>>, p: int, e: int, ns: seq<ListNode<T>>)
      requires MatchesAre(a, p, e, ns) && p < e
      ensures ns != [] && a[p] == ns[0] && MatchesAre(a, p + 1, e, ns[1..])
    {
      assert forall j :: 0 <= j < |ns[1..]| ==> ns[1..][j] == ns[j + 1] == a[p + (j + 1)];
    }

    lemma AllDeleted(a: array<ListNode?<T>>, p: int, ns: seq<ListNode<T>>)
      requires MatchesAre(a, p, p, ns)
      ensures ns == []
    {
    }

    /** The nodes that hold elem, in ring order, at the start of a buffer. */
    method Collect(elem: T) returns (deleteList: array<ListNode?<T>>, deleteIndex: nat)
      requires Valid() && nodes != []
      ensures fresh(deleteList) && deleteIndex <= deleteList.Length
      ensures MatchesAre(deleteList, 0, deleteIndex, Matches(nodes, elem))
    {
      hide Matches;
      var end := root;
      var node := root;
      deleteList := new ListNode?<T>[count](_ => null);
      deleteIndex := 0;
      NoMatches([], elem);
      var begun := false;
      ghost var i: nat := 0;
      while !begun || node != end
        invariant i <= |nodes| && (begun <==> i > 0) && node == nodes[if i == |nodes| then 0 else i]
        invariant deleteIndex <= i && MatchesAre(deleteList, 0, deleteIndex, Matches(nodes[..i], elem))
        decreases |nodes| - i
        modifies deleteList
      {
        begun := true;
        MatchesSnoc(nodes, elem, i);
        assert Joined(nodes, i);
        if node.data == elem {
          deleteList[deleteIndex] := node;
          deleteIndex := deleteIndex + 1;
        }
        node := node.next;
        i := i + 1;
      }
      assert nodes[..|nodes|] == nodes;
    }

    /** Entries p up to e of the buffer are the nodes ns. */
    ghost predicate MatchesAre(a: array<ListNode?<T>>, p: int, e: int, ns: seq<ListNode<T>>)
      reads a
    {
      0 <= p <= e <= a.Length && |ns| == e - p && forall j :: 0 <= j < |ns| ==> a[p + j] == ns[j]
    }
  }

  /** s without all occurrences of x. */
  function Without<T(==)>(s: seq<T>, x: T): seq<T> {
    if s == [] then [] else (if s[0] == x then [] else [s[0]]) + Without(s[1..], x)
  }

  /** All of x go, and everything else stays as often as it was. */
  lemma {:induction false} WithoutExact<T>(s: seq<T>, x: T)
    ensures x !in Without(s, x) && forall y :: y != x ==> multiset(Without(s, x))[y] == multiset(s)[y]
  {
    if s != [] {
      var t := s[1..];
      WithoutExact(t, x);
      assert s == [s[0]] + t;
    }
  }

  /** Parts are treated one by one, so the order stays. */
  lemma {:induction false} WithoutParts<T>(s: seq<T>, t: seq<T>, x: T)
    ensures Without(s + t, x) == Without(s, x) + Without(t, x)
  {
    hide Without;
    WithoutHead(s, x);
    if s == [] {
      assert [] + t == t && [] + Without(t, x) == Without(t, x);
    } else {
      WithoutParts(s[1..], t, x);
      WithoutHead(s + t, x);
      assert (s + t)[1..] == s[1..] + t;
      Grouped(if s[0] == x then [] else [s[0]], Without(s[1..], x), Without(t, x));
    }
  }

  lemma WithoutHead<T>(s: seq<T>, x: T)
    ensures Without(s, x) == if s == [] then [] else (if s[0] == x then [] else [s[0]]) + Without(s[1..], x)
  {
  }

  lemma Grouped<T>(a: seq<T>, b: seq<T>, c: seq<T>)
    ensures a + (b + c) == a + b + c
  {
  }

  /** The nodes that hold x, in order. */
  ghost function Matches<T>(nodes: seq<ListNode<T>>, x: T): seq<ListNode<T>> {
    if nodes == [] then [] else (if nodes[0].data == x then [nodes[0]] else []) + Matches(nodes[1..], x)
  }

  /** One more node. */
  lemma {:induction false} MatchesSnoc<T>(nodes: seq<ListNode<T>>, x: T, i: nat)
    requires i < |nodes|
    ensures Matches(nodes[..i + 1], x) == Matches(nodes[..i], x) + if nodes[i].data == x then [nodes[i]] else []
  {
    if i > 0 {
      MatchesSnoc(nodes[1..], x, i - 1);
      assert nodes[..i + 1][1..] == nodes[1..][..i] && nodes[..i][1..] == nodes[1..][..i - 1];
    } else {
      assert nodes[..1][1..] == [] && nodes[..0] == [];
    }
  }

  /** Without matches nothing is removed. */
  lemma {:induction false} NoMatches<T>(nodes: seq<ListNode<T>>, x: T)
    ensures Matches(nodes, x) == [] ==> Without(DataOf(nodes), x) == DataOf(nodes)
    ensures nodes == [] ==> Matches(nodes, x) == []
  {
    if nodes != [] {
      NoMatches(nodes[1..], x);
      assert DataOf(nodes) == [nodes[0].data] + DataOf(nodes[1..]);
    }
  }

  /** Taking out the first match leaves the others, and the rest of the contents. */
  lemma {:induction false} FirstMatch<T>(nodes: seq<ListNode<T>>, x: T) returns (k: nat)
    requires Matches(nodes, x) != []
    ensures k < |nodes| && nodes[k] == Matches(nodes, x)[0]
    ensures var rest := WithoutAt(nodes, k);
            Matches(rest, x) == Matches(nodes, x)[1..] && Without(DataOf(rest), x) == Without(DataOf(nodes), x)
  {
    hide WithoutAt;
    var t := nodes[1..];
    DataOfRest(nodes);
    if nodes[0].data == x {
      k := 0;
      WithoutAtRest(nodes, 0);
    } else {
      var j := FirstMatch(t, x);
      k := j + 1;
      WithoutAtRest(nodes, k);
      var rest := WithoutAt(nodes, k);
      assert rest[0] == nodes[0] && rest[1..] == WithoutAt(t, j);
      DataOfRest(rest);
    }
  }

  lemma DataOfRest<T>(nodes: seq<ListNode<T>>)
    requires nodes != []
    ensures DataOf(nodes) == [nodes[0].data] + DataOf(nodes[1..])
  {
  }
}
