/** Counting the elements of sets. */
module Sets {

  lemma {:induction false} SubsetSize<T>(a: set<T>, b: set<T>)
    requires a <= b
    ensures |a| <= |b|
  {
    if x :| x in a {
      SubsetSize(a - {x}, b - {x});
    }
  }

  lemma Pick<T>(s: set<T>) returns (x: T)
    requires |s| > 0
    ensures x in s
  {
    assert s != {};
    x :| x in s;
  }

  /** What s adds to k, and then t to both, is what s + t adds to k. */
  lemma AddedInTwoSteps<T>(s: set<T>, t: set<T>, k: set<T>, k': set<T>)
    requires k' == k + s
    ensures |s + t - k| == |s - k| + |t - k'|
  {
    assert s + t - k == (s - k) + (t - k');
    assert (s - k) !! (t - k');
  }

  /** Whether a single element is outside k. */
  lemma OneOutside<T>(a: T, k: set<T>)
    ensures |{a} - k| == if a in k then 0 else 1
  {
    assert {a} - k == if a in k then {} else {a};
  }

  lemma ThreeOutside<T>(a: T, b: T, c: T, k: set<T>)
    requires a != b && b != c && a != c
    ensures |{a, b, c} - k| == (if a in k then 0 else 1) + (if b in k then 0 else 1) + if c in k then 0 else 1
  {
    AddedInTwoSteps({a, b}, {c}, k, k + {a, b});
    AddedInTwoSteps({a}, {b}, k, k + {a});
    assert {a, b} + {c} == {a, b, c} && {a} + {b} == {a, b};
    OneOutside(a, k);
    OneOutside(b, k + {a});
    OneOutside(c, k + {a, b});
  }

  lemma {:induction false} IntervalSize(s: set<int>, p: int, n: nat)
    requires forall x :: x in s <==> p <= x < p + n
    ensures |s| == n
  {
    if n == 0 {
      assert forall x :: x !in s;
      assert s == {};
    } else {
      var last := p + n - 1;
      assert last in s;
      var rest := s - {last};
      assert forall x :: x in rest <==> p <= x < p + (n - 1);
      IntervalSize(rest, p, n - 1);
    }
  }
}
