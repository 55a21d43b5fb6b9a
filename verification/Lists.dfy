/** Lists of sys/queue.h as sequences of their entries. */
module Lists {

  ghost predicate NoDup<T(!new)>(q: seq<T>) {
    forall i, j :: 0 <= i < j < |q| ==> q[i] != q[j]
  }

  /** LIST_REMOVE */
  function Without<T(==)>(q: seq<T>, x: T): seq<T> {
    if q == [] then [] else if q[0] == x then q[1..] else [q[0]] + Without(q[1..], x)
  }

  lemma {:induction false} WithoutElements<T(!new)>(q: seq<T>, x: T)
    requires NoDup(q)
    ensures NoDup(Without(q, x)) && forall y :: y in Without(q, x) <==> y in q && y != x
    ensures |Without(q, x)| == |q| - if x in q then 1 else 0
    decreases |q|
  {
    if q != [] {
      WithoutElements(q[1..], x);
      assert q == [q[0]] + q[1..];
      var w := Without(q[1..], x);
      if q[0] != x {
        forall i | 0 <= i < |w|
          ensures w[i] != q[0]
        {
          assert w[i] in w && w[i] in q[1..];
        }
      } else {
        assert x !in q[1..];
      }
    }
  }

  lemma {:induction false} WithoutFirst<T>(x: T, q: seq<T>)
    ensures Without([x] + q, x) == q
  {
    assert ([x] + q)[1..] == q;
  }

  lemma {:induction false} WithoutNone<T>(q: seq<T>, x: T)
    requires x !in q
    ensures Without(q, x) == q
    decreases |q|
  {
    if q != [] {
      WithoutNone(q[1..], x);
    }
  }
}
