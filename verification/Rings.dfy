/**
 Circular doubly linked lists threaded through chunk addresses by fd and bk.
 */
module Rings {

  /** The two links every free chunk (and every small-bin header) carries. */
  datatype Link = Link(fd: int, bk: int)

  function After(i: nat, n: nat): nat
    requires i < n
  {
    if i + 1 < n then i + 1 else 0
  }

  function Before(i: nat, n: nat): nat
    requires i < n
  {
    if i > 0 then i - 1 else n - 1
  }

  ghost predicate Distinct(s: seq<int>) {
    forall i, j :: 0 <= i < j < |s| ==> s[i] != s[j]
  }

  ghost predicate LinkedAt(m: map<int, Link>, s: seq<int>, i: nat)
    requires i < |s|
  {
    s[i] in m && m[s[i]] == Link(s[After(i, |s|)], s[Before(i, |s|)])
  }

  /** Following fd from s[0] meets the addresses of s in order and returns to s[0]; bk goes the other way. */
  ghost predicate RingAt(m: map<int, Link>, s: seq<int>) {
    s != [] && Distinct(s) && forall i :: 0 <= i < |s| ==> LinkedAt(m, s, i)
  }

  lemma RingFrame(m: map<int, Link>, m': map<int, Link>, s: seq<int>)
    requires RingAt(m, s)
    requires forall x :: x in s ==> x in m && x in m' && m'[x] == m[x]
    ensures RingAt(m', s)
  {
    forall i | 0 <= i < |s|
      ensures LinkedAt(m', s, i)
    {
      assert LinkedAt(m, s, i) && s[i] in s;
    }
  }

  /** A ring of one is linked to itself. */
  lemma Singleton(m: map<int, Link>, x: int)
    requires x in m && m[x] == Link(x, x)
    ensures RingAt(m, [x])
  {
  }

  /** t's successor f gets x as its predecessor, then t gets x as its successor. */
  function LinkedBehind(m: map<int, Link>, t: int, x: int): map<int, Link>
    requires t in m && m[t].fd in m
  {
    var f := m[t].fd;
    var m1 := m[f := Link(m[f].fd, x)];
    m1[t := Link(x, m1[t].bk)][x := Link(f, t)]
  }

  /** x's neighbours are linked to each other. */
  function Bypassed(m: map<int, Link>, x: int): map<int, Link>
    requires x in m && m[x].fd in m && m[x].bk in m
  {
    var f, r := m[x].fd, m[x].bk;
    var m1 := m[f := Link(m[f].fd, r)];
    m1[r := Link(f, m1[r].bk)]
  }

  /** Linking x behind the ring's first member. */
  lemma InsertAfterHead(m: map<int, Link>, s: seq<int>, x: int, m': map<int, Link>)
    requires RingAt(m, s) && x !in s
    requires s[0] in m && m[s[0]].fd in m && m' == LinkedBehind(m, s[0], x)
    ensures RingAt(m', [s[0], x] + s[1..])
  {
    var s' := [s[0], x] + s[1..];
    assert LinkedAt(m, s, 0);
    forall i, j | 0 <= i < j < |s'|
      ensures s'[i] != s'[j]
    {
      if i == 1 { assert s'[j] == s[j - 1]; }
      if j == 1 { assert s'[i] == s[0]; }
    }
    forall i | 0 <= i < |s'|
      ensures LinkedAt(m', s', i)
    {
      if i >= 2 {
        assert LinkedAt(m, s, i - 1);
      }
    }
  }

  ghost function Removed(s: seq<int>, k: nat): seq<int>
    requires k < |s|
  {
    s[..k] + s[k + 1..]
  }

  /** Unlinking a member of a ring of at least two. */
  lemma Unlink(m: map<int, Link>, s: seq<int>, k: nat, m': map<int, Link>)
    requires RingAt(m, s) && 0 <= k < |s| && |s| >= 2
    requires s[k] in m && m[s[k]].fd in m && m[s[k]].bk in m && m' == Bypassed(m, s[k])
    ensures RingAt(m', Removed(s, k))
  {
    var s' := Removed(s, k);
    var n := |s|;
    assert LinkedAt(m, s, k);
    forall i, j | 0 <= i < j < |s'|
      ensures s'[i] != s'[j]
    {
      var i0 := if i < k then i else i + 1;
      var j0 := if j < k then j else j + 1;
      assert s'[i] == s[i0] && s'[j] == s[j0];
    }
    forall i | 0 <= i < |s'|
      ensures LinkedAt(m', s', i)
    {
      var i0 := if i < k then i else i + 1;
      assert s'[i] == s[i0] && LinkedAt(m, s, i0);
      assert LinkedAt(m, s, After(k, n)) && LinkedAt(m, s, Before(k, n));
    }
  }

  /** The same ring, entered at its last member. */
  ghost function FromLast(s: seq<int>): seq<int>
    requires s != []
  {
    [s[|s| - 1]] + s[..|s| - 1]
  }

  lemma EnterAtLast(m: map<int, Link>, s: seq<int>)
    requires RingAt(m, s)
    ensures RingAt(m, FromLast(s))
  {
    var s' := FromLast(s);
    forall i | 0 <= i < |s'|
      ensures LinkedAt(m, s', i)
    {
      assert LinkedAt(m, s, Before(i, |s|));
    }
  }

  lemma RemovedMembers(s: seq<int>, k: nat)
    requires Distinct(s) && k < |s|
    ensures forall x :: x in Removed(s, k) <==> x in s && x != s[k]
  {
    forall x
      ensures x in Removed(s, k) <==> x in s && x != s[k]
    {
      if x in s && x != s[k] {
        var i :| 0 <= i < |s| && s[i] == x;
        if i < k { assert Removed(s, k)[i] == x; } else { assert Removed(s, k)[i - 1] == x; }
      }
    }
  }

  lemma GrownMembers(s: seq<int>, x: int)
    requires s != []
    ensures forall y :: y in [s[0], x] + s[1..] <==> y == x || y in s
  {
    assert s == [s[0]] + s[1..];
  }

  /** Ring links lead from members to members. */
  lemma RingNeighbour(m: map<int, Link>, s: seq<int>, k: nat)
    requires RingAt(m, s) && k < |s|
    ensures s[k] in m && m[s[k]].fd in s && m[s[k]].bk in s && m[s[k]].fd in m && m[s[k]].bk in m
  {
    assert LinkedAt(m, s, k);
    assert LinkedAt(m, s, After(k, |s|)) && LinkedAt(m, s, Before(k, |s|));
  }

  lemma RingNonEmpty(m: map<int, Link>, s: seq<int>)
    requires RingAt(m, s)
    ensures s != []
  {
  }

  lemma FromLastMembers(s: seq<int>)
    requires s != []
    ensures forall y :: y in FromLast(s) <==> y in s
  {
    assert s == s[..|s| - 1] + [s[|s| - 1]];
  }

  /** A ring of at least two without its first member, entered at that member's predecessor. */
  lemma WithoutHead(m: map<int, Link>, s: seq<int>)
    requires RingAt(m, s) && |s| >= 2
    ensures s[0] in m && m[s[0]].fd in m && m[s[0]].bk in m && m[s[0]].bk in s && m[s[0]].bk != s[0]
    ensures var rr := FromLast(Removed(s, 0)); RingAt(Bypassed(m, s[0]), rr) && rr[0] == m[s[0]].bk
    ensures forall y :: y in FromLast(Removed(s, 0)) <==> y in s && y != s[0]
  {
    RingNeighbour(m, s, 0);
    assert LinkedAt(m, s, 0);
    var w := Removed(s, 0);
    Unlink(m, s, 0, Bypassed(m, s[0]));
    EnterAtLast(Bypassed(m, s[0]), w);
    RemovedMembers(s, 0);
    FromLastMembers(w);
  }

  lemma RingMirror(m: map<int, Link>, s: seq<int>, k: nat)
    requires RingAt(m, s) && k < |s|
    ensures s[k] in m && m[s[k]].fd in m && m[s[k]].bk in m
    ensures m[m[s[k]].fd].bk == s[k] && m[m[s[k]].bk].fd == s[k]
  {
    assert LinkedAt(m, s, k);
    assert LinkedAt(m, s, After(k, |s|)) && LinkedAt(m, s, Before(k, |s|));
  }

  /** A ring is a single chunk exactly when the chunk is its own neighbour. */
  lemma OwnNeighbour(m: map<int, Link>, s: seq<int>, k: nat)
    requires RingAt(m, s) && k < |s|
    ensures s[k] in m && (m[s[k]].bk == s[k] <==> |s| == 1)
  {
    assert LinkedAt(m, s, k);
  }

  lemma RingMembers(m: map<int, Link>, s: seq<int>)
    requires RingAt(m, s)
    ensures forall x :: x in s ==> x in m
  {
    forall x | x in s
      ensures x in m
    {
      var i :| 0 <= i < |s| && s[i] == x;
      assert LinkedAt(m, s, i);
    }
  }

  lemma RingDistinct(m: map<int, Link>, s: seq<int>)
    requires RingAt(m, s)
    ensures Distinct(s)
  {
  }
}
