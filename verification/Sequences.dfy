/** Sequences with one element put in or taken out, and parts of parts. */
module Sequences {

  /** s without its k-th element. */
  function WithoutAt<T>(s: seq<T>, k: nat): seq<T>
    requires k < |s|
  {
    s[..k] + s[k + 1..]
  }

  lemma WithoutAtElements<T>(s: seq<T>, k: nat)
    requires k < |s|
    ensures |WithoutAt(s, k)| == |s| - 1
    ensures forall m {:trigger WithoutAt(s, k)[m]} :: 0 <= m < |s| - 1 ==>
      WithoutAt(s, k)[m] == s[if m < k then m else m + 1]
  {
  }

  /** Elements that were distinct still are, and none is new. */
  lemma WithoutAtDistinct<T>(s: seq<T>, k: nat)
    requires k < |s| && forall i, j :: 0 <= i < j < |s| ==> s[i] != s[j]
    ensures var t := WithoutAt(s, k);
            (forall i, j :: 0 <= i < j < |t| ==> t[i] != t[j]) && forall x :: x in t ==> x in s
  {
    hide WithoutAt;
    WithoutAtElements(s, k);
  }

  /** Taking an element out of the rest. */
  lemma WithoutAtRest<T>(s: seq<T>, k: nat)
    requires k < |s|
    ensures WithoutAt(s, k) == if k == 0 then s[1..] else [s[0]] + WithoutAt(s[1..], k - 1)
  {
    if k == 0 {
      assert s[..0] + s[1..] == s[1..];
    } else {
      var t := s[1..];
      assert s[..k] == [s[0]] + t[..k - 1] && s[k + 1..] == t[k..];
    }
  }

  /** s with x behind its k-th element. */
  function WithAfter<T>(s: seq<T>, k: nat, x: T): seq<T>
    requires k < |s|
  {
    s[..k + 1] + [x] + s[k + 1..]
  }

  lemma WithAfterElements<T>(s: seq<T>, k: nat, x: T)
    requires k < |s| && x !in s && forall i, j :: 0 <= i < j < |s| ==> s[i] != s[j]
    ensures var t := WithAfter(s, k, x);
            && |t| == |s| + 1
            && (forall m {:trigger t[m]} :: 0 <= m <= |s| ==>
                  t[m] == if m <= k then s[m] else if m == k + 1 then x else s[m - 1])
            && (forall i, j :: 0 <= i < j < |t| ==> t[i] != t[j])
            && (forall y :: y in t ==> y in s || y == x)
    ensures k == |s| - 1 ==> WithAfter(s, k, x) == s + [x]
  {
  }

  lemma Subslice<T>(s: seq<T>, a: nat, b: nat, c: nat, d: nat)
    requires a <= b <= |s| && c <= d <= b - a
    ensures s[a..b][c..d] == s[a + c..a + d]
  {
    var x, y := s[a..b][c..d], s[a + c..a + d];
    assert forall k :: 0 <= k < d - c ==> x[k] == s[a..b][c + k] == s[a + (c + k)] == y[k];
  }
}
