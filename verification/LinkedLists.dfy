/** The kernel's singly linked list, proved against the sequence of its elements. */
module LinkedLists {
  import opened Sequences

  /** s without the first occurrence of x. */
  function RemoveFirst<T(==)>(s: seq<T>, x: T): seq<T> {
    if s == [] then []
    else if s[0] == x then s[1..]
    else [s[0]] + RemoveFirst(s[1..], x)
  }

  lemma {:induction false} RemoveFirstAt<T>(s: seq<T>, x: T, k: nat)
    requires k <= |s| && forall j :: 0 <= j < k ==> s[j] != x
    requires k < |s| ==> s[k] == x
    ensures RemoveFirst(s, x) == if k < |s| then WithoutAt(s, k) else s
  {
    hide WithoutAt;
    if k < |s| {
      WithoutAtRest(s, k);
    }
    if s != [] && s[0] != x {
      RemoveFirstAt(s[1..], x, k - 1);
    }
  }

  class Node<T> {
    const data: T
    var next: Node?<T>

    constructor (data: T)
      ensures this.data == data && next == null
    {
      this.data := data;
      next := null;
    }
  }

  class List<T(==)> {
    var elems: Node?<T>
    var count: nat
    ghost var nodes: seq<Node<T>>
    /** The elements, in order. */
    ghost var contents: seq<T>

    /** What a link to the i-th node holds. */
    ghost function At(i: nat): Node?<T>
      reads this
    {
      if i < |nodes| then nodes[i] else null
    }

    ghost predicate LinkOk(i: nat)
      requires i < |nodes|
      reads this, nodes
    {
      nodes[i].next == At(i + 1)
    }

    ghost predicate Valid()
      reads this, nodes
    {
      && count == |nodes| == |contents| && elems == At(0)
      && (forall i {:trigger LinkOk(i)} :: 0 <= i < |nodes| ==> LinkOk(i))
      && (forall i :: 0 <= i < |nodes| ==> nodes[i].data == contents[i])
      && (forall i, j :: 0 <= i < j < |nodes| ==> nodes[i] != nodes[j])
    }

    constructor ()
      ensures Valid() && contents == [] && nodes == []
    {
      elems, count, nodes, contents := null, 0, [], [];
    }

    /** Adds x at the end. */
    method Append(x: T)
      requires Valid()
      modifies this, nodes
      ensures Valid() && contents == old(contents) + [x]
      ensures forall n :: n in nodes ==> n in old(nodes) || fresh(n)
    {
      var before, cur := null, elems;
      ghost var i: nat := 0;
      while cur != null
        invariant i <= |nodes| && cur == At(i) && before == if i == 0 then null else At(i - 1)
        decreases |nodes| - i
        modifies {}
      {
        assert LinkOk(i);
        before, cur, i := cur, cur.next, i + 1;
      }
      var node := new Node(x);
      if before == null {
        elems := node;
      } else {
        before.next := node;
      }
      count := count + 1;
      nodes, contents := nodes + [node], contents + [x];
      forall m | 0 <= m < |nodes|
        ensures LinkOk(m)
      {
        assert m < i ==> old(LinkOk(m));
      }
    }

    /** The first node that holds x, or null, and the node before it. */
    method Locate(x: T) returns (before: Node?<T>, cur: Node?<T>, ghost i: nat)
      requires Valid()
      ensures i <= |nodes| && cur == At(i) && before == if i == 0 then null else At(i - 1)
      ensures forall j :: 0 <= j < i ==> contents[j] != x
      ensures i < |nodes| ==> contents[i] == x
    {
      before, cur, i := null, elems, 0;
      while cur != null && cur.data != x
        invariant i <= |nodes| && cur == At(i) && before == if i == 0 then null else At(i - 1)
        invariant forall j :: 0 <= j < i ==> contents[j] != x
        decreases |nodes| - i
      {
        assert LinkOk(i);
        before, cur, i := cur, cur.next, i + 1;
      }
    }

    /** Removes the first occurrence of x, if there is one. */
    method Remove(x: T)
      requires Valid()
      modifies this, nodes
      ensures Valid() && contents == RemoveFirst(old(contents), x)
      ensures forall n :: n in nodes ==> n in old(nodes)
    {
      hide RemoveFirst, WithoutAt;
      var before, cur, i := Locate(x);
      RemoveFirstAt(contents, x, i);
      if cur != null {
        assert LinkOk(i);
        if before == null {
          elems := cur.next;
        } else {
          before.next := cur.next;
        }
        count := count - 1;
        WithoutAtElements(nodes, i);
        WithoutAtElements(contents, i);
        WithoutAtDistinct(nodes, i);
        nodes, contents := WithoutAt(nodes, i), WithoutAt(contents, i);
        assert elems == At(0);
        forall m | 0 <= m < |nodes|
          ensures LinkOk(m)
        {
          assert old(LinkOk(if m < i then m else m + 1));
        }
      }
    }

    /** Takes the element at the front off the list. */
    method Dequeue() returns (x: T)
      requires Valid() && contents != []
      modifies this
      ensures Valid() && old(contents) == [x] + contents
      ensures forall n :: n in nodes ==> n in old(nodes)
    {
      x := elems.data;
      assert LinkOk(0);
      elems := elems.next;
      count := count - 1;
      nodes, contents := nodes[1..], contents[1..];
      forall m | 0 <= m < |nodes|
        ensures LinkOk(m)
      {
        assert old(LinkOk(m + 1));
      }
    }

    /** Adds x at the front. */
    method Push(x: T)
      requires Valid()
      modifies this
      ensures Valid() && contents == [x] + old(contents)
      ensures forall n :: n in nodes ==> n in old(nodes) || fresh(n)
    {
      var node := new Node(x);
      node.next := elems;
      elems := node;
      count := count + 1;
      nodes, contents := [node] + nodes, [x] + contents;
      forall m | 0 <= m < |nodes|
        ensures LinkOk(m)
      {
        assert m > 0 ==> old(LinkOk(m - 1));
      }
    }

    method Clear()
      requires Valid()
      modifies this
      ensures Valid() && contents == [] && nodes == []
    {
      elems, count, nodes, contents := null, 0, [], [];
    }
  }
}
