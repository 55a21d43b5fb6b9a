/** The comparator contract of libec/rbtree.h and sorted sequences of nodes. */
module RbOrder {
  import opened RbShape

  type Comparator = (Ptr, Ptr) -> int

  /** The comparator laws for three nodes. */
  ghost predicate Lawful(cmp: Comparator, a: Ptr, b: Ptr, c: Ptr) {
    && (cmp(a, b) < 0 <==> cmp(b, a) > 0)
    && (cmp(a, b) <= 0 && cmp(b, c) <= 0 ==> cmp(a, c) <= 0)
  }

  /** Negative, zero and positive results describe a total preorder. */
  ghost predicate Ordered(cmp: Comparator) {
    forall a, b, c :: Lawful(cmp, a, b, c)
  }

  lemma {:induction false} Chain(cmp: Comparator, a: Ptr, b: Ptr, c: Ptr)
    requires Ordered(cmp)
    ensures cmp(a, b) < 0 && cmp(b, c) <= 0 ==> cmp(a, c) < 0
    ensures cmp(a, b) <= 0 && cmp(b, c) < 0 ==> cmp(a, c) < 0
    ensures cmp(a, b) < 0 <==> cmp(b, a) > 0
    ensures cmp(b, c) < 0 <==> cmp(c, b) > 0
    ensures cmp(a, a) == 0
  {
    assert Lawful(cmp, a, b, c) && Lawful(cmp, b, a, c) && Lawful(cmp, b, c, a) && Lawful(cmp, c, b, a);
    assert Lawful(cmp, c, a, b) && Lawful(cmp, a, c, b) && Lawful(cmp, a, a, a);
  }

  ghost predicate Sorted(cmp: Comparator, s: seq<Ptr>) {
    forall i, j :: 0 <= i < j < |s| ==> cmp(s[i], s[j]) < 0
  }

  lemma {:induction false} SortedDistinct(cmp: Comparator, s: seq<Ptr>, i: int, j: int)
    requires Ordered(cmp) && Sorted(cmp, s)
    requires 0 <= i < |s| && 0 <= j < |s| && s[i] == s[j]
    ensures i == j
  {
    Chain(cmp, s[i], s[j], s[i]);
  }

  ghost predicate Below(cmp: Comparator, s: seq<Ptr>, x: Ptr) {
    forall i :: 0 <= i < |s| ==> cmp(s[i], x) < 0
  }

  ghost predicate Above(cmp: Comparator, s: seq<Ptr>, x: Ptr) {
    forall i :: 0 <= i < |s| ==> cmp(s[i], x) > 0
  }

  /** Everything up to an element `y` below `x` is below `x`. */
  lemma {:induction false} BelowPrefix(cmp: Comparator, s: seq<Ptr>, k: nat, x: Ptr)
    requires Ordered(cmp) && Sorted(cmp, s) && k < |s| && cmp(s[k], x) < 0
    ensures Below(cmp, s[..k + 1], x)
  {
    var p := s[..k + 1];
    forall i | 0 <= i < |p|
      ensures cmp(p[i], x) < 0
    {
      Chain(cmp, s[i], s[k], x);
    }
  }

  lemma {:induction false} AboveSuffix(cmp: Comparator, s: seq<Ptr>, k: nat, x: Ptr)
    requires Ordered(cmp) && Sorted(cmp, s) && k < |s| && cmp(s[k], x) > 0
    ensures Above(cmp, s[k..], x)
  {
    var p := s[k..];
    forall i | 0 <= i < |p|
      ensures cmp(p[i], x) > 0
    {
      assert p[i] == s[k + i];
      Chain(cmp, x, s[k], p[i]);
      Chain(cmp, x, p[i], p[i]);
    }
  }

  lemma {:induction false} SortedInsert(cmp: Comparator, a: seq<Ptr>, x: Ptr, b: seq<Ptr>)
    requires Ordered(cmp) && Sorted(cmp, a + b) && Below(cmp, a, x) && Above(cmp, b, x)
    ensures Sorted(cmp, a + [x] + b)
  {
    var s := a + b;
    var r := a + [x] + b;
    forall i, j | 0 <= i < j < |r|
      ensures cmp(r[i], r[j]) < 0
    {
      var k := |a|;
      if j == k {
        assert r[i] == a[i] && r[j] == x;
      } else if i == k {
        assert r[i] == x && r[j] == b[j - k - 1];
        Chain(cmp, x, r[j], r[j]);
      } else {
        assert r[i] == s[if i < k then i else i - 1] && r[j] == s[if j < k then j else j - 1];
      }
    }
  }

  lemma {:induction false} SortedRemove(cmp: Comparator, a: seq<Ptr>, x: Ptr, b: seq<Ptr>)
    requires Sorted(cmp, a + [x] + b)
    ensures Sorted(cmp, a + b)
  {
    var s := a + b;
    var r := a + [x] + b;
    assert forall i :: 0 <= i < |s| ==> s[i] == r[if i < |a| then i else i + 1];
  }

  lemma {:induction false} SortedDropLast(cmp: Comparator, a: seq<Ptr>, k: seq<Ptr>, x: Ptr, b: seq<Ptr>)
    requires Sorted(cmp, a + (k + [x]) + b)
    ensures Sorted(cmp, a + k + b)
  {
    assert a + (k + [x]) + b == (a + k) + [x] + b;
    SortedRemove(cmp, a + k, x, b);
  }

  lemma {:induction false} SortedDropFirst(cmp: Comparator, a: seq<Ptr>, x: Ptr, k: seq<Ptr>, b: seq<Ptr>)
    requires Sorted(cmp, a + ([x] + k) + b)
    ensures Sorted(cmp, a + k + b)
  {
    assert a + ([x] + k) + b == a + [x] + (k + b);
    SortedRemove(cmp, a, x, k + b);
    assert a + (k + b) == a + k + b;
  }

  /** rbto_compare_key for one key: the sign for each node. */
  type KeyComparator = Ptr -> int

  /** Along ascending nodes the sign only grows. */
  ghost predicate KeyOrdered(key: KeyComparator, s: seq<Ptr>) {
    forall i, j :: 0 <= i < j < |s| ==> (key(s[i]) > 0 ==> key(s[j]) > 0) && (key(s[j]) < 0 ==> key(s[i]) < 0)
  }

  ghost predicate KeyLow(key: KeyComparator, s: seq<Ptr>) {
    forall i :: 0 <= i < |s| ==> key(s[i]) < 0
  }

  ghost predicate KeyHigh(key: KeyComparator, s: seq<Ptr>) {
    forall i :: 0 <= i < |s| ==> key(s[i]) > 0
  }

  lemma {:induction false} KeyPrefix(key: KeyComparator, s: seq<Ptr>, k: nat)
    requires KeyOrdered(key, s) && k < |s|
    ensures key(s[k]) < 0 ==> KeyLow(key, s[..k + 1])
    ensures key(s[k]) > 0 ==> KeyHigh(key, s[k..])
  {
  }

  ghost predicate Hit(key: KeyComparator, s: seq<Ptr>, r: Ptr) {
    r in s && key(r) == 0
  }

  /** The nodes before position `i` are below the key, the others above it. */
  ghost predicate Gap(key: KeyComparator, s: seq<Ptr>, i: nat) {
    i <= |s| && KeyLow(key, s[..i]) && KeyHigh(key, s[i..])
  }

  /** A gap means that no node equals the key, so a search has a hit or a gap and not both. */
  lemma {:induction false} GapMeansNone(key: KeyComparator, s: seq<Ptr>, i: nat)
    requires Gap(key, s, i)
    ensures forall y :: y in s ==> key(y) != 0
  {
    forall y | y in s
      ensures key(y) != 0
    {
      var k :| 0 <= k < |s| && s[k] == y;
      if k < i {
        assert s[..i][k] == y;
      } else {
        assert s[i..][k - i] == y;
      }
    }
  }
}
