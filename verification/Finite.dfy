/** Sizes of finite sets and of sequences without repetition. */
module Finite {

  ghost predicate Distinct<T>(q: seq<T>) {
    forall i, j :: 0 <= i < j < |q| ==> q[i] != q[j]
  }

  ghost function Elements<T>(q: seq<T>): set<T> { set x | x in q }

  lemma ElementsLast<T>(r: seq<T>, x: T)
    requires x !in r
    ensures |Elements(r + [x])| == |Elements(r)| + 1
  {
    assert Elements(r + [x]) == Elements(r) + {x};
  }

  lemma {:induction false} DistinctSize<T>(q: seq<T>)
    requires Distinct(q)
    ensures |Elements(q)| == |q|
  {
    if |q| == 0 {
      assert Elements(q) == {};
    } else {
      var r := q[..|q| - 1];
      DistinctSize(r);
      ElementsLast(r, q[|q| - 1]);
      assert r + [q[|q| - 1]] == q;
    }
  }

  lemma {:induction false} SubsetSize<T>(a: set<T>, b: set<T>)
    requires a <= b
    ensures |a| <= |b|
    ensures |a| == |b| ==> a == b
  {
    if a == {} {
    } else {
      var x :| x in a;
      SubsetSize(a - {x}, b - {x});
    }
  }
}
