/**
 What sorting a linked list should do, on the sequence of its nodes: merge sort that prefers the left half on ties.  For
 any strict weak order it sorts, keeps the nodes, and keeps the order of equivalent ones; only one sequence does so.
 */
module MergeSort {

  class Node<T> {
    const data: T
    var next: Node?<T>

    constructor (data: T)
      ensures this.data == data && next == null
    {
      this.data, next := data, null;
    }
  }

  type Order<!T> = (T, T) -> bool

  ghost predicate Irreflexive<T(!new)>(less: Order<T>) {
    forall a :: !less(a, a)
  }

  ghost predicate Transitive<T(!new)>(less: Order<T>) {
    forall a, b, c :: less(a, b) && less(b, c) ==> less(a, c)
  }

  /** What is below c is below everything that is not. */
  ghost predicate NegativelyTransitive<T(!new)>(less: Order<T>) {
    forall a, b, c :: less(a, c) ==> less(a, b) || less(b, c)
  }

  ghost predicate Laws<T(!new)>(less: Order<T>) {
    Irreflexive(less) && Transitive(less) && NegativelyTransitive(less)
  }

  /** A strict weak order; the verifier looks inside only where `Laws` is mentioned. */
  ghost predicate StrictWeak<T(!new)>(less: Order<T>) {
    forall l {:trigger Laws(l)} :: l == less ==> Laws(l)
  }

  lemma Between<T(!new)>(a: T, b: T, c: T, less: Order<T>)
    requires StrictWeak(less) && less(a, c)
    ensures less(a, b) || less(b, c)
  {
    assert Laws(less);
  }

  lemma Asymmetric<T(!new)>(a: T, b: T, less: Order<T>)
    requires StrictWeak(less) && less(a, b)
    ensures !less(b, a)
  {
    assert Laws(less);
  }

  lemma NotBelowItself<T(!new)>(a: T, less: Order<T>)
    requires StrictWeak(less)
    ensures !less(a, a)
  {
    assert Laws(less);
  }

  // ---- specification ----

  function Merge<T>(a: seq<Node<T>>, b: seq<Node<T>>, less: Order<T>): (m: seq<Node<T>>)
    ensures |m| == |a| + |b|
  {
    if a == [] then b
    else if b == [] then a
    else if less(b[0].data, a[0].data) then [b[0]] + Merge(a, b[1..], less)
    else [a[0]] + Merge(a[1..], b, less)
  }

  function Sort<T>(s: seq<Node<T>>, less: Order<T>): (r: seq<Node<T>>)
    ensures |r| == |s|
  {
    if |s| < 2 then s
    else Merge(Sort(s[..|s| / 2], less), Sort(s[|s| / 2..], less), less)
  }

  ghost predicate Sorted<T>(s: seq<Node<T>>, less: Order<T>) {
    forall i, j :: 0 <= i < j < |s| ==> !less(s[j].data, s[i].data)
  }

  /** The nodes that the order does not tell from v, in the order of the sequence. */
  function Equivalent<T>(s: seq<Node<T>>, v: T, less: Order<T>): seq<Node<T>> {
    if s == [] then []
    else if !less(s[0].data, v) && !less(v, s[0].data) then [s[0]] + Equivalent(s[1..], v, less)
    else Equivalent(s[1..], v, less)
  }

  // ---- the same nodes ----

  lemma {:induction false} MergePermutes<T>(a: seq<Node<T>>, b: seq<Node<T>>, less: Order<T>)
    ensures multiset(Merge(a, b, less)) == multiset(a) + multiset(b)
  {
    if a != [] && b != [] {
      assert a == [a[0]] + a[1..] && b == [b[0]] + b[1..];
      if less(b[0].data, a[0].data) {
        MergePermutes(a, b[1..], less);
      } else {
        MergePermutes(a[1..], b, less);
      }
    }
  }

  lemma HalvesPermute<T>(s: seq<Node<T>>, h: nat)
    requires h <= |s|
    ensures multiset(s) == multiset(s[..h]) + multiset(s[h..])
  {
    assert s == s[..h] + s[h..];
  }

  lemma {:induction false} SortPermutes<T>(s: seq<Node<T>>, less: Order<T>)
    ensures multiset(Sort(s, less)) == multiset(s)
  {
    if |s| >= 2 {
      var h := |s| / 2;
      var a, b := s[..h], s[h..];
      HalvesPermute(s, h);
      SortPermutes(a, less);
      SortPermutes(b, less);
      MergePermutes(Sort(a, less), Sort(b, less), less);
    }
  }

  // ---- sorted ----

  lemma MergeMembers<T>(a: seq<Node<T>>, b: seq<Node<T>>, less: Order<T>)
    ensures forall i :: 0 <= i < |Merge(a, b, less)| ==> Merge(a, b, less)[i] in a || Merge(a, b, less)[i] in b
  {
  }

  /** The first node of a sorted sequence has nothing below it. */
  lemma FirstIsLeast<T(!new)>(s: seq<Node<T>>, n: Node<T>, less: Order<T>)
    requires StrictWeak(less) && Sorted(s, less) && n in s
    ensures !less(n.data, s[0].data)
  {
    NotBelowItself(n.data, less);
    var i :| 0 <= i < |s| && s[i] == n;
  }

  /** Nor has it anything of another sequence that starts above it. */
  lemma LeastOfBoth<T(!new)>(x: T, s: seq<Node<T>>, n: Node<T>, less: Order<T>)
    requires StrictWeak(less) && Sorted(s, less) && n in s && !less(s[0].data, x)
    ensures !less(n.data, x)
  {
    FirstIsLeast(s, n, less);
    if less(n.data, x) {
      Between(n.data, s[0].data, x, less);
    }
  }

  lemma {:induction false} MergeSorts<T(!new)>(a: seq<Node<T>>, b: seq<Node<T>>, less: Order<T>)
    requires StrictWeak(less) && Sorted(a, less) && Sorted(b, less)
    ensures Sorted(Merge(a, b, less), less)
  {
    if a != [] && b != [] {
      if less(b[0].data, a[0].data) {
        MergeSorts(a, b[1..], less);
        Asymmetric(b[0].data, a[0].data, less);
        forall n | n in a { LeastOfBoth(b[0].data, a, n, less); }
        forall n | n in b[1..] { FirstIsLeast(b, n, less); }
        PrependSmallest(b[0], a, b[1..], less);
      } else {
        MergeSorts(a[1..], b, less);
        forall n | n in a[1..] { FirstIsLeast(a, n, less); }
        forall n | n in b { LeastOfBoth(a[0].data, b, n, less); }
        PrependSmallest(a[0], a[1..], b, less);
      }
    }
  }

  lemma PrependSmallest<T(!new)>(n: Node<T>, a: seq<Node<T>>, b: seq<Node<T>>, less: Order<T>)
    requires Sorted(Merge(a, b, less), less) && (forall m :: (m in a || m in b) ==> !less(m.data, n.data))
    ensures Sorted([n] + Merge(a, b, less), less)
  {
    MergeMembers(a, b, less);
    var m := Merge(a, b, less);
    forall i, j | 0 <= i < j < |m| + 1 ensures !less(([n] + m)[j].data, ([n] + m)[i].data) {
      assert ([n] + m)[j] == m[j - 1] && m[j - 1] in m;
      if i > 0 {
        assert ([n] + m)[i] == m[i - 1];
        assert !less(m[j - 1].data, m[i - 1].data);
      } else {
        assert ([n] + m)[i] == n;
        assert m[j - 1] in a || m[j - 1] in b;
      }
    }
  }

  lemma {:induction false} SortSorts<T(!new)>(s: seq<Node<T>>, less: Order<T>)
    requires StrictWeak(less)
    ensures Sorted(Sort(s, less), less)
  {
    if |s| >= 2 {
      var h := |s| / 2;
      SortSorts(s[..h], less);
      SortSorts(s[h..], less);
      MergeSorts(Sort(s[..h], less), Sort(s[h..], less), less);
    }
  }

  // ---- stable ----

  lemma {:induction false} EquivalentConcat<T>(a: seq<Node<T>>, b: seq<Node<T>>, v: T, less: Order<T>)
    ensures Equivalent(a + b, v, less) == Equivalent(a, v, less) + Equivalent(b, v, less)
  {
    if a == [] {
      assert a + b == b;
    } else {
      assert (a + b)[1..] == a[1..] + b;
      EquivalentConcat(a[1..], b, v, less);
    }
  }

  /** Nodes that are all above v are not equivalent to it. */
  lemma {:induction false} NoneEquivalent<T>(s: seq<Node<T>>, v: T, less: Order<T>)
    requires forall n :: n in s ==> less(v, n.data)
    ensures Equivalent(s, v, less) == []
  {
    if s != [] {
      NoneEquivalent(s[1..], v, less);
    }
  }

  lemma {:induction false} MergeIsStable<T(!new)>(a: seq<Node<T>>, b: seq<Node<T>>, v: T, less: Order<T>)
    requires StrictWeak(less) && Sorted(a, less) && Sorted(b, less)
    ensures Equivalent(Merge(a, b, less), v, less) == Equivalent(a, v, less) + Equivalent(b, v, less)
  {
    if a != [] && b != [] {
      if less(b[0].data, a[0].data) {
        MergeIsStable(a, b[1..], v, less);
        assert Merge(a, b, less)[1..] == Merge(a, b[1..], less);
        if !less(b[0].data, v) && !less(v, b[0].data) {
          forall n | n in a ensures less(v, n.data) {
            FirstIsLeast(a, n, less);
            Between(b[0].data, n.data, a[0].data, less);
            Between(b[0].data, v, n.data, less);
          }
          NoneEquivalent(a, v, less);
        }
      } else {
        MergeIsStable(a[1..], b, v, less);
        assert Merge(a, b, less)[1..] == Merge(a[1..], b, less);
      }
    }
  }

  lemma {:induction false} SortIsStable<T(!new)>(s: seq<Node<T>>, v: T, less: Order<T>)
    requires StrictWeak(less)
    ensures Equivalent(Sort(s, less), v, less) == Equivalent(s, v, less)
  {
    if |s| >= 2 {
      var h := |s| / 2;
      SortSorts(s[..h], less);
      SortSorts(s[h..], less);
      SortIsStable(s[..h], v, less);
      SortIsStable(s[h..], v, less);
      MergeIsStable(Sort(s[..h], less), Sort(s[h..], less), v, less);
      EquivalentConcat(s[..h], s[h..], v, less);
      assert s == s[..h] + s[h..];
    }
  }

  // ---- and nothing else would do ----

  lemma {:induction false} EquivalentMembers<T>(s: seq<Node<T>>, v: T, less: Order<T>)
    ensures forall n :: n in Equivalent(s, v, less) <==> n in s && !less(n.data, v) && !less(v, n.data)
  {
    if s != [] {
      EquivalentMembers(s[1..], v, less);
    }
  }

  /** A sorted sequence with the same equivalent nodes in the same order, for every value, is the sorted one. */
  lemma {:induction false} SortedIsUnique<T(!new)>(s: seq<Node<T>>, r: seq<Node<T>>, less: Order<T>)
    requires StrictWeak(less) && Sorted(s, less) && Sorted(r, less)
    requires forall v :: Equivalent(s, v, less) == Equivalent(r, v, less)
    ensures s == r
  {
    if s == [] || r == [] {
      var n := if s != [] then s else r;
      if n != [] {
        EquivalentMembers(s, n[0].data, less);
        EquivalentMembers(r, n[0].data, less);
        NotBelowItself(n[0].data, less);
        assert false;
      }
    } else {
      SameFirst(s, r, less);
      forall v {
        SameRest(s, r, v, less);
      }
      SortedIsUnique(s[1..], r[1..], less);
      assert s == [s[0]] + s[1..] && r == [r[0]] + r[1..];
    }
  }

  lemma SameRest<T(!new)>(s: seq<Node<T>>, r: seq<Node<T>>, v: T, less: Order<T>)
    requires s != [] && r != [] && s[0] == r[0] && Equivalent(s, v, less) == Equivalent(r, v, less)
    ensures Equivalent(s[1..], v, less) == Equivalent(r[1..], v, less)
  {
    if !less(s[0].data, v) && !less(v, s[0].data) {
      assert Equivalent(s[1..], v, less) == Equivalent(s, v, less)[1..];
      assert Equivalent(r[1..], v, less) == Equivalent(r, v, less)[1..];
    }
  }

  lemma SameFirst<T(!new)>(s: seq<Node<T>>, r: seq<Node<T>>, less: Order<T>)
    requires StrictWeak(less) && Sorted(s, less) && Sorted(r, less) && s != [] && r != []
    requires forall v :: Equivalent(s, v, less) == Equivalent(r, v, less)
    ensures s[0] == r[0]
  {
    var x, y := s[0].data, r[0].data;
    EquivalentMembers(s, x, less);
    EquivalentMembers(r, x, less);
    EquivalentMembers(s, y, less);
    EquivalentMembers(r, y, less);
    NotBelowItself(x, less);
    NotBelowItself(y, less);
    assert s[0] in Equivalent(s, x, less) && r[0] in Equivalent(r, y, less);
    assert s[0] in r && r[0] in s;
    FirstIsLeast(r, s[0], less);
    FirstIsLeast(s, r[0], less);
    assert Equivalent(s, x, less)[0] == s[0] && Equivalent(r, x, less)[0] == r[0];
  }
}
