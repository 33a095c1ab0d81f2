/**
 The singly linked list of the program: head, tail and count, appended to, removed from, and sorted
 in place by relinking its nodes.

 `Chain` says that a sequence of nodes is the chain from one node to another.  Each pointer that is
 written changes that sequence in one place, and `MergeSort` says what the sequence has to become.
 */
module LinkedLists {
  import opened Basics
  import opened MergeSort

  // ---- chains of nodes ----

  function FirstOr<T>(s: seq<Node<T>>, after: Node?<T>): Node?<T> {
    if s == [] then after else s[0]
  }

  /** Each node points to the one that follows it, and the last one to `after`. */
  ghost predicate Chain<T>(s: seq<Node<T>>, after: Node?<T>)
    reads s
  {
    forall i :: 0 <= i < |s| ==> LinkedAt(s, i, after)
  }

  function Last<T>(s: seq<Node<T>>): Node<T>
    requires s != []
  {
    s[|s| - 1]
  }

  ghost predicate Distinct<T>(s: seq<Node<T>>) {
    forall i, j :: 0 <= i < j < |s| ==> s[i] != s[j]
  }

  ghost predicate Disjoint<T>(a: seq<Node<T>>, b: seq<Node<T>>) {
    forall i, j :: 0 <= i < |a| && 0 <= j < |b| ==> a[i] != b[j]
  }

  /** What the node at position i of a chain points to. */
  ghost predicate LinkedAt<T>(s: seq<Node<T>>, i: nat, after: Node?<T>)
    requires i < |s|
    reads s[i]
  {
    s[i].next == if i + 1 < |s| then s[i + 1] else after
  }

  lemma LinkedInConcat<T>(a: seq<Node<T>>, b: seq<Node<T>>, after: Node?<T>, i: nat)
    requires i < |a| + |b|
    ensures LinkedAt(a + b, i, after) <==>
            if i < |a| then LinkedAt(a, i, FirstOr(b, after)) else LinkedAt(b, i - |a|, after)
  {
  }

  lemma ChainSplit<T>(a: seq<Node<T>>, b: seq<Node<T>>, after: Node?<T>)
    ensures Chain(a + b, after) <==> Chain(a, FirstOr(b, after)) && Chain(b, after)
  {
    forall i: nat | i < |a| + |b| {
      LinkedInConcat(a, b, after, i);
    }
    if Chain(a + b, after) {
      forall i | 0 <= i < |b| ensures LinkedAt(b, i, after) {
        assert LinkedAt(a + b, |a| + i, after);
      }
    }
  }

  lemma DistinctSplit<T>(a: seq<Node<T>>, b: seq<Node<T>>)
    ensures Distinct(a + b) <==> Distinct(a) && Distinct(b) && Disjoint(a, b)
  {
    var s := a + b;
    assert forall i :: 0 <= i < |a| ==> s[i] == a[i];
    assert forall i :: 0 <= i < |b| ==> s[|a| + i] == b[i];
    if Distinct(s) {
      forall i, j | 0 <= i < |a| && 0 <= j < |b| ensures a[i] != b[j] {
        assert s[i] != s[|a| + j];
      }
    }
  }

  lemma {:induction false} DistinctCount<T>(s: seq<Node<T>>)
    ensures Distinct(s) <==> forall i :: 0 <= i < |s| ==> multiset(s)[s[i]] == 1
  {
    if s != [] {
      var h, t := s[0], s[1..];
      assert s == [h] + t;
      DistinctCount(t);
      DistinctSplit([h], t);
      assert h in t <==> multiset(t)[h] > 0;
      if forall i :: 0 <= i < |s| ==> multiset(s)[s[i]] == 1 {
        assert multiset(s)[s[0]] == 1;
        forall i | 0 <= i < |t| ensures multiset(t)[t[i]] == 1 {
          assert s[i + 1] == t[i] && t[i] in t;
        }
      }
    }
  }

  /** The same nodes in another order are as distinct. */
  lemma DistinctPermuted<T>(s: seq<Node<T>>, r: seq<Node<T>>)
    requires multiset(s) == multiset(r) && Distinct(s)
    ensures Distinct(r)
  {
    DistinctCount(s);
    DistinctCount(r);
    forall i | 0 <= i < |r| ensures multiset(r)[r[i]] == 1 {
      assert r[i] in multiset(s);
      var j :| 0 <= j < |s| && s[j] == r[i];
    }
  }

  // ---- the list ----

  class List<T(0)> {
    var head: Node?<T>
    var tail: Node?<T>
    var count: nat
    /** The nodes, first to last. */
    ghost var nodes: seq<Node<T>>

    /** An empty list may keep a stale tail. */
    ghost predicate Valid()
      reads this, nodes
    {
      && count == |nodes| && Distinct(nodes) && Chain(nodes, null)
      && head == FirstOr(nodes, null)
      && (nodes != [] ==> tail == Last(nodes))
    }

    constructor ()
      ensures Valid() && nodes == []
    {
      head, tail, count, nodes := null, null, 0, [];
    }

    method LinkElement(previous: Node?<T>, next: Node?<T>)
      modifies previous
      ensures previous != null ==> previous.next == next
    {
      if previous != null {
        previous.next := next;
      }
    }

    // ---- sorting ----

    /** `list_get_element`: the node `index` links after `from`, null past the end. */
    method GetElement(from: Node?<T>, index: nat, ghost s: seq<Node<T>>, ghost after: Node?<T>)
      returns (element: Node?<T>)
      requires Chain(s, after) && from == FirstOr(s, after) && (index <= |s| || after == null)
      ensures element == if index <= |s| then FirstOr(s[index..], after) else null
    {
      element := from;
      var left: nat := index;
      while element != null && left > 0
        invariant left <= index && index - left <= |s| && element == FirstOr(s[index - left..], after)
        invariant index <= |s| || after == null
        decreases left
      {
        assert LinkedAt(s, index - left, after);
        element := element.next;
        left := left - 1;
      }
      if left > 0 {
        return null;
      }
    }

    /** Moves the first node of the right run, found after the last of the left one, before the left run. */
    method MoveNode(beforeFirst: Node<T>, beforeMid: Node<T>, ghost p: seq<Node<T>>, ghost l: seq<Node<T>>,
                    ghost r: seq<Node<T>>, ghost last: Node?<T>)
      requires p != [] && l != [] && r != [] && Last(p) == beforeFirst && Last(l) == beforeMid
      requires Chain(p + l + r, last) && Distinct(p + l + r)
      modifies this`head, this`tail, beforeFirst, beforeMid, r[0]
      ensures Chain(p + [r[0]] + l + r[1..], last)
      ensures head == if old(head) == l[0] then r[0] else old(head)
      ensures tail == if old(tail) == r[0] then beforeMid else old(tail)
    {
      Pieces(p, l, r, last);
      assert LinkedAt(l, |l| - 1, r[0]) && LinkedAt(p, |p| - 1, l[0]);
      var after := beforeMid.next;
      if after == tail {
        tail := beforeMid;
      }
      LinkElement(beforeMid, after.next);
      if beforeFirst.next == head {
        head := after;
      }
      var next := beforeFirst.next;
      LinkElement(beforeFirst, after);
      LinkElement(after, next);
      forall i | 0 <= i < |p| ensures LinkedAt(p, i, r[0]) {
        assert old(LinkedAt(p, i, l[0]));
      }
      forall i | 0 <= i < |l| ensures LinkedAt(l, i, FirstOr(r[1..], last)) {
        assert old(LinkedAt(l, i, r[0]));
      }
      forall i | 0 <= i < |r| - 1 ensures LinkedAt(r[1..], i, last) {
        assert old(LinkedAt(r[1..], i, last));
      }
      Moved(p, l, r, last);
    }

    /** The first node of the right run goes before the left run, and head and tail follow it. */
    method TakeRight(beforeFirst: Node<T>, beforeMid: Node<T>, last: Node?<T>, less: Order<T>,
                     ghost before: Node<T>, ghost left: seq<Node<T>>, ghost right: seq<Node<T>>,
                     ghost done: seq<Node<T>>, ghost l: seq<Node<T>>, ghost r: seq<Node<T>>)
      returns (newBefore: Node<T>, mid: Node?<T>)
      requires left != [] && right != [] && Distinct(Whole(before, [], left, right))
      requires Merging(before, left, right, less, done, l, r) && Chain(Whole(before, done, l, r), last)
      requires l != [] && r != [] && less(r[0].data, l[0].data)
      requires Last(l) == beforeMid && beforeFirst == ([before] + done)[|done|]
      modifies this`head, this`tail, before, left, right
      ensures Merging(before, left, right, less, done + [r[0]], l, r[1..])
      ensures Chain(Whole(before, done + [r[0]], l, r[1..]), last)
      ensures head == if old(head) == l[0] then r[0] else old(head)
      ensures tail == if old(tail) == r[0] then beforeMid else old(tail)
      ensures newBefore == r[0] && mid == FirstOr(r[1..], last)
    {
      StillDistinct(before, left, right, less, done, l, r);
      Inside(before, left, right, done, l, r);
      ghost var s := Whole(before, done, l, r);
      assert s[|done|] == beforeFirst && s[|done| + |l|] == beforeMid && s[|done| + |l| + 1] == r[0];
      MoveNode(beforeFirst, beforeMid, [before] + done, l, r, last);
      MergeTakesRight(before, left, right, less, done, l, r);
      assert [before] + done + [r[0]] + l + r[1..] == Whole(before, done + [r[0]], l, r[1..]);
      Links(before, done + [r[0]], l, r[1..], last);
      newBefore := beforeFirst.next;
      mid := beforeMid.next;
    }

    /** The first node of the left run is where it should be: only the pointers advance. */
    method TakeLeft(beforeFirst: Node<T>, first: Node<T>, last: Node?<T>, less: Order<T>,
                    ghost before: Node<T>, ghost left: seq<Node<T>>, ghost right: seq<Node<T>>,
                    ghost done: seq<Node<T>>, ghost l: seq<Node<T>>, ghost r: seq<Node<T>>)
      returns (newBefore: Node<T>, newFirst: Node?<T>)
      requires Merging(before, left, right, less, done, l, r) && Chain(Whole(before, done, l, r), last)
      requires l != [] && r != [] && !less(r[0].data, l[0].data) && first == l[0]
      requires beforeFirst == ([before] + done)[|done|]
      ensures Merging(before, left, right, less, done + [l[0]], l[1..], r)
      ensures Chain(Whole(before, done + [l[0]], l[1..], r), last)
      ensures newBefore == l[0] && newFirst == if |l| > 1 then l[1] else r[0]
    {
      MergeTakesLeft(before, left, right, less, done, l, r);
      SameWhole(before, done, l, r);
      Links(before, done, l, r, last);
      newBefore := beforeFirst.next;
      newFirst := first.next;
    }

    /** The merging loop: both runs are sorted and not empty, and follow each other in the chain. */
    method MergeRuns(before: Node<T>, beforeMid: Node<T>, last: Node?<T>, less: Order<T>,
                     ghost left: seq<Node<T>>, ghost right: seq<Node<T>>)
      requires left != [] && right != [] && Last(left) == beforeMid
      requires Chain(Whole(before, [], left, right), last) && Distinct(Whole(before, [], left, right))
               && last !in left + right
      requires head == left[0] || head !in left + right
      requires tail == Last(right) || tail !in left + right
      modifies this`head, this`tail, before, left, right
      ensures Chain([before] + Merge(left, right, less), last)
      ensures head == if old(head) == left[0] then Merge(left, right, less)[0] else old(head)
      ensures tail == if old(tail) == Last(right) then Last(Merge(left, right, less)) else old(tail)
    {
      var beforeFirst := before;
      ghost var done, l, r := [], left, right;
      Links(before, [], left, right, last);
      var first := before.next;
      var mid := beforeMid.next;
      while true
        invariant Merging(before, left, right, less, done, l, r) && Chain(Whole(before, done, l, r), last)
        invariant l != [] && r != [] && first == l[0] && mid == r[0] && Last(l) == beforeMid
        invariant beforeFirst == ([before] + done)[|done|]
        invariant head == if old(head) == left[0] then (done + l)[0] else old(head)
        invariant tail == old(tail)
        decreases |l| + |r|
      {
        Apart(before, left, right, less, done, l, r, last, old(head), old(tail));
        if less(mid.data, first.data) {
          beforeFirst, mid := TakeRight(beforeFirst, beforeMid, last, less, before, left, right, done, l, r);
          done, r := done + [r[0]], r[1..];
          if mid == last {
            break;
          }
        } else {
          beforeFirst, first := TakeLeft(beforeFirst, first, last, less, before, left, right, done, l, r);
          done, l := done + [l[0]], l[1..];
          if first == mid {
            break;
          }
        }
      }
      Finished(before, left, right, less, done, l, r);
    }

    /** `list_sort_aux`: sorts the `size` nodes between `before` and `last`, the left half first. */
    method SortAux(before: Node<T>, last: Node?<T>, less: Order<T>, size: nat, ghost s: seq<Node<T>>)
      requires |s| == size && Chain([before] + s, last) && Distinct([before] + s) && last !in s
      requires size > 0 ==> (head == s[0] || head !in s) && (tail == Last(s) || tail !in s)
      modifies this`head, this`tail, before, s
      ensures Chain([before] + Sort(s, less), last)
      ensures head == if size > 0 && old(head) == s[0] then Sort(s, less)[0] else old(head)
      ensures tail == if size > 0 && old(tail) == Last(s) then Last(Sort(s, less)) else old(tail)
      decreases size, 0
    {
      if size < 2 {
        return;
      }
      var halfSize := size / 2;
      ghost var a, b := s[..halfSize], s[halfSize..];
      ghost var l, r := Sort(a, less), Sort(b, less);
      Halves(before, s, halfSize, last);
      SortedHalves(before, a, b, last, less);
      var beforeMid := SortLeft(before, last, less, halfSize, a, b, l);
      SortRight(before, beforeMid, last, less, size - halfSize, a, b, l);
      assert Last(r) in s;
      MergeRuns(before, beforeMid, last, less, l, r);
      SortSplits(s, less);
    }

    /** The left half, up to the first node of the right one. */
    method SortLeft(before: Node<T>, last: Node?<T>, less: Order<T>, size: nat,
                    ghost a: seq<Node<T>>, ghost b: seq<Node<T>>, ghost l: seq<Node<T>>) returns (beforeMid: Node<T>)
      requires |a| == size > 0 && b != [] && l == Sort(a, less)
      requires Chain([before] + (a + b), last) && Distinct([before] + a + b)
      requires (head == a[0] || head !in a) && tail !in a
      modifies this`head, this`tail, before, a
      ensures Chain([before] + l, b[0]) && Chain(b, last) && beforeMid == Last(l)
      ensures head == if old(head) == a[0] then l[0] else old(head)
      ensures tail == old(tail)
      decreases size, 1
    {
      LeftChain(before, a, b, last);
      var mid := GetElement(before, 1 + size, [before] + (a + b), last);
      assert ([before] + (a + b))[1 + size..] == b;
      SortAux(before, mid, less, size, a);
      forall i | 0 <= i < |b| ensures LinkedAt(b, i, last) {
        assert old(LinkedAt(b, i, last));
        assert b[i] !in a && b[i] != before;
      }
      var element := GetElement(before, size, [before] + l, mid);
      beforeMid := element;
    }

    /** The right half, which the last node of the sorted left half precedes. */
    method SortRight(before: Node<T>, beforeMid: Node<T>, last: Node?<T>, less: Order<T>, size: nat,
                     ghost a: seq<Node<T>>, ghost b: seq<Node<T>>, ghost l: seq<Node<T>>)
      requires |b| == size > 0 && a != [] && l == Sort(a, less) && beforeMid == Last(l)
      requires Chain([before] + l, b[0]) && Chain(b, last) && Distinct([before] + a + b) && last !in b
      requires head !in b && (tail == Last(b) || tail !in b)
      modifies this`head, this`tail, beforeMid, b
      ensures Chain(Whole(before, [], l, Sort(b, less)), last)
      ensures head == old(head)
      ensures tail == if old(tail) == Last(b) then Last(Sort(b, less)) else old(tail)
      decreases size, 1
    {
      ghost var r := Sort(b, less);
      LeftApart(before, a, b, less);
      RightChain(before, l, b, last);
      SortAux(beforeMid, last, less, size, b);
      forall i | 0 <= i < |l| ensures LinkedAt([before] + l, i, r[0]) {
        assert old(LinkedAt([before] + l, i, b[0]));
        assert ([before] + l)[i] !in b && ([before] + l)[i] != ([before] + l)[|l|];
      }
      RightJoins(before, l, r, last);
    }

    /** Sorts the list in place: the same nodes, relinked, between a made-up node and the end. */
    method SortInPlace(less: Order<T>)
      requires Valid()
      modifies this, nodes
      ensures Valid() && nodes == Sort(old(nodes), less)
    {
      var data: T := *;
      var bHead := new Node(data);
      bHead.next := head;
      ghost var s := nodes;
      FrontNode(bHead, s);
      SortAux(bHead, null, less, count, s);
      nodes := Sort(s, less);
      DistinctPermutedSort(s, less);
      ChainSplit([bHead], nodes, null);
      assert LinkedAt([bHead], 0, FirstOr(nodes, null));
    }

    // ---- adding and removing ----

    method Add(data: T) returns (ghost n: Node<T>)
      requires Valid()
      modifies this, nodes
      ensures Valid() && fresh(n) && n.data == data && nodes == old(nodes) + [n]
    {
      var element := new Node(data);
      n := element;
      if count == 0 {
        head := element;
        tail := element;
      } else {
        LinkElement(tail, element);
        tail := element;
      }
      count := count + 1;
      forall i | 0 <= i < |nodes| ensures LinkedAt(nodes, i, n) {
        assert old(LinkedAt(nodes, i, null));
        assert i < |nodes| - 1 ==> nodes[i] != Last(nodes);
      }
      assert LinkedAt([n], 0, null);
      ChainSplit(nodes, [n], null);
      nodes := nodes + [n];
    }

    /** Unlinks the node at a position; the stale tail of a list that becomes empty is never read. */
    method Remove(index: nat) returns (data: Option<T>)
      requires Valid()
      modifies this, nodes
      ensures Valid() && data == if index < |old(nodes)| then Some(old(nodes)[index].data) else None
      ensures nodes == if index < |old(nodes)| then old(nodes)[..index] + old(nodes)[index + 1..] else old(nodes)
    {
      if index >= count {
        return None;
      }
      ghost var s, p, rest := nodes, nodes[..index], nodes[index + 1..];
      Around(s, index);
      var auxElement := GetElement(head, index, s, null);
      data := Some(auxElement.data);
      if index == 0 {
        head := auxElement.next;
      } else {
        var previous := GetElement(head, index - 1, s, null);
        LinkElement(previous, auxElement.next);
        if auxElement == tail {
          tail := previous;
        }
      }
      count := count - 1;
      if index > 0 {
        StillApart(p, rest);
      }
      forall i | 0 <= i < index ensures LinkedAt(p, i, FirstOr(rest, null)) {
        assert old(LinkedAt(p, i, s[index]));
      }
      forall i | 0 <= i < |rest| ensures LinkedAt(rest, i, null) {
        assert old(LinkedAt(rest, i, null));
      }
      ChainSplit(p, rest, null);
      nodes := p + rest;
    }
  }

  /** A new node in front of a list. */
  lemma FrontNode<T>(before: Node<T>, s: seq<Node<T>>)
    requires before !in s && before.next == FirstOr(s, null) && Chain(s, null) && Distinct(s)
    ensures Chain([before] + s, null) && Distinct([before] + s)
  {
    assert LinkedAt([before], 0, FirstOr(s, null));
    ChainSplit([before], s, null);
    DistinctSplit([before], s);
  }

  /** A chain up to the last node of `l`, and the chain from that node on. */
  lemma RightJoins<T>(before: Node<T>, l: seq<Node<T>>, r: seq<Node<T>>, last: Node?<T>)
    requires l != [] && r != [] && Chain([Last(l)] + r, last)
    requires forall i :: 0 <= i < |l| ==> LinkedAt([before] + l, i, r[0])
    ensures Chain(Whole(before, [], l, r), last)
  {
    ChainSplit([Last(l)], r, last);
    assert LinkedAt([Last(l)], 0, r[0]);
    assert ([before] + l)[|l|] == Last(l);
    assert LinkedAt([before] + l, |l|, r[0]);
    ChainSplit([before] + l, r, last);
    assert Whole(before, [], l, r) == [before] + l + r;
  }

  lemma DistinctPermutedSort<T>(s: seq<Node<T>>, less: Order<T>)
    requires Distinct(s)
    ensures Distinct(Sort(s, less))
  {
    SortPermutes(s, less);
    DistinctPermuted(s, Sort(s, less));
  }

  /** The last node before a gap is none of the others around it. */
  lemma StillApart<T>(p: seq<Node<T>>, rest: seq<Node<T>>)
    requires Distinct(p + rest) && p != []
    ensures forall i :: 0 <= i < |p| - 1 ==> p[i] != Last(p)
    ensures forall i :: 0 <= i < |rest| ==> rest[i] != Last(p)
  {
    DistinctSplit(p, rest);
  }

  /** What is on both sides of a node of a list. */
  lemma Around<T>(s: seq<Node<T>>, index: nat)
    requires Chain(s, null) && Distinct(s) && index < |s|
    ensures Chain(s[..index], s[index]) && s[index].next == FirstOr(s[index + 1..], null) && Chain(s[index + 1..], null)
    ensures Distinct(s[..index] + s[index + 1..])
  {
    var p, rest := s[..index], s[index + 1..];
    assert s == p + s[index..] && s[index..] == [s[index]] + rest;
    ChainSplit(p, s[index..], null);
    ChainSplit([s[index]], rest, null);
    assert LinkedAt([s[index]], 0, FirstOr(rest, null));
    DistinctSplit(p, s[index..]);
    DistinctSplit([s[index]], rest);
    assert forall j :: 0 <= j < |rest| ==> s[index..][j + 1] == rest[j];
    DistinctSplit(p, rest);
  }

  lemma SortSplits<T>(s: seq<Node<T>>, less: Order<T>)
    requires |s| >= 2
    ensures Sort(s, less) == Merge(Sort(s[..|s| / 2], less), Sort(s[|s| / 2..], less), less)
  {
  }

  lemma SortMembers<T>(s: seq<Node<T>>, less: Order<T>)
    ensures forall i :: 0 <= i < |s| ==> Sort(s, less)[i] in s
  {
    SortPermutes(s, less);
    forall i | 0 <= i < |s| ensures Sort(s, less)[i] in s {
      assert Sort(s, less)[i] in multiset(Sort(s, less));
    }
  }

  /** Both halves of a sequence of nodes. */
  lemma Halves<T>(before: Node<T>, s: seq<Node<T>>, h: nat, last: Node?<T>)
    requires Chain([before] + s, last) && Distinct([before] + s) && 0 < h < |s| && last !in s
    ensures Chain([before] + (s[..h] + s[h..]), last) && Distinct([before] + s[..h] + s[h..])
    ensures last !in s[h..] && last !in s[..h]
    ensures forall i, j :: 0 <= i < h && 0 <= j < |s| - h ==> s[..h][i] != s[h..][j]
    ensures forall i :: 0 <= i < h ==> s[..h][i] in s
    ensures forall n :: n in s[h..] ==> n in s
    ensures s[..h][0] == s[0] && Last(s[h..]) == Last(s)
  {
    assert s[..h] + s[h..] == s;
    assert [before] + s == [before] + s[..h] + s[h..];
    DistinctSplit([before], s);
    DistinctSplit(s[..h], s[h..]);
  }

  lemma LeftChain<T>(before: Node<T>, a: seq<Node<T>>, b: seq<Node<T>>, last: Node?<T>)
    requires Chain([before] + (a + b), last) && Distinct([before] + a + b) && b != []
    ensures Chain([before] + a, b[0]) && Chain(b, last) && Distinct([before] + a) && b[0] !in a
    ensures forall i :: 0 <= i < |b| ==> b[i] !in a && b[i] != before
  {
    assert [before] + (a + b) == [before] + a + b;
    ChainSplit([before] + a, b, last);
    DistinctSplit([before] + a, b);
    assert ([before] + a)[0] == before;
    assert forall i :: 0 <= i < |a| ==> ([before] + a)[i + 1] == a[i];
  }

  /** The sorted left half and the node before it are apart from the right half. */
  lemma LeftApart<T>(before: Node<T>, a: seq<Node<T>>, b: seq<Node<T>>, less: Order<T>)
    requires Distinct([before] + a + b)
    ensures Distinct([before] + Sort(a, less) + b) && Distinct([before] + Sort(a, less))
            && Disjoint([before] + Sort(a, less), b)
  {
    SortPermutes(a, less);
    DistinctPermuted([before] + a + b, [before] + Sort(a, less) + b);
    DistinctSplit([before] + Sort(a, less), b);
  }

  lemma RightChain<T>(before: Node<T>, l: seq<Node<T>>, b: seq<Node<T>>, last: Node?<T>)
    requires l != [] && b != [] && Chain([before] + l, b[0]) && Chain(b, last) && Distinct([before] + l + b)
    ensures Chain([Last(l)] + b, last) && Distinct([Last(l)] + b)
  {
    assert LinkedAt([before] + l, |l|, b[0]);
    assert LinkedAt([Last(l)], 0, b[0]);
    ChainSplit([Last(l)], b, last);
    DistinctSplit([before] + l, b);
    DistinctSplit([Last(l)], b);
    assert ([before] + l)[|l|] == Last(l);
  }

  /** After both halves are sorted, they are as distinct as before. */
  lemma SortedHalves<T>(before: Node<T>, a: seq<Node<T>>, b: seq<Node<T>>, last: Node?<T>, less: Order<T>)
    requires Distinct([before] + a + b) && last !in a && last !in b
    ensures Distinct(Whole(before, [], Sort(a, less), Sort(b, less))) && last !in Sort(a, less) + Sort(b, less)
    ensures forall i :: 0 <= i < |a| ==> Sort(a, less)[i] in a
    ensures forall i :: 0 <= i < |b| ==> Sort(b, less)[i] in b
  {
    SortMembers(a, less);
    SortMembers(b, less);
    assert multiset(a) == multiset(Sort(a, less)) by { SortPermutes(a, less); }
    assert multiset(b) == multiset(Sort(b, less)) by { SortPermutes(b, less); }
    DistinctHalves(before, a, b, Sort(a, less), Sort(b, less));
  }

  lemma DistinctHalves<T>(before: Node<T>, a: seq<Node<T>>, b: seq<Node<T>>, l: seq<Node<T>>, r: seq<Node<T>>)
    requires multiset(a) == multiset(l) && multiset(b) == multiset(r) && Distinct([before] + a + b)
    ensures Distinct(Whole(before, [], l, r))
  {
    DistinctPermuted([before] + a + b, Whole(before, [], l, r));
  }

  /** When one run is used up, the chain is the merged one. */
  lemma Finished<T>(before: Node<T>, left: seq<Node<T>>, right: seq<Node<T>>, less: Order<T>,
                    done: seq<Node<T>>, l: seq<Node<T>>, r: seq<Node<T>>)
    requires Merging(before, left, right, less, done, l, r) && (l == [] || r == []) && done != [] && right != []
    ensures Whole(before, done, l, r) == [before] + Merge(left, right, less) && Merge(left, right, less)[0] == done[0]
    ensures Last(Merge(left, right, less)) ==
            if r != [] then Last(right) else if l != [] then Last(l) else Last(done)
  {
    assert MergedSoFar(before, left, right, less, done, l, r);
  }

  /** Where the loop's three pointers lead. */
  lemma Links<T>(before: Node<T>, done: seq<Node<T>>, l: seq<Node<T>>, r: seq<Node<T>>, last: Node?<T>)
    requires Chain(Whole(before, done, l, r), last) && l != []
    ensures ([before] + done)[|done|].next == l[0] && l[0].next == FirstOr(l[1..] + r, last)
    ensures Last(l).next == FirstOr(r, last)
    ensures done != [] ==> ([before] + done)[|done| - 1].next == done[|done| - 1]
  {
    var s := Whole(before, done, l, r);
    assert LinkedAt(s, |done|, last) && LinkedAt(s, |done| + 1, last) && LinkedAt(s, |done| + |l|, last);
    assert done != [] ==> LinkedAt(s, |done| - 1, last);
  }

  /** Nodes of different places of a merge differ, and from the head, the tail and the end where those are outside. */
  lemma Apart<T>(before: Node<T>, left: seq<Node<T>>, right: seq<Node<T>>, less: Order<T>,
                 done: seq<Node<T>>, l: seq<Node<T>>, r: seq<Node<T>>, last: Node?<T>, head: Node?<T>, tail: Node?<T>)
    requires Merging(before, left, right, less, done, l, r)
    requires Distinct(Whole(before, [], left, right)) && l != [] && r != [] && left != [] && right != []
    requires last !in left + right
    requires (head == left[0] || head !in left + right) && (tail == Last(right) || tail !in left + right)
    ensures l[0] != r[0] && (|l| > 1 ==> l[1] != r[0]) && (|r| > 1 ==> r[1] != last)
    ensures done != [] ==> done[0] != l[0]
    ensures head == l[0] ==> head == left[0]
    ensures tail == r[0] <==> tail == Last(right) && |r| == 1
  {
    var s := Whole(before, done, l, r);
    assert Last(r) == Last(right) by { assert MergedSoFar(before, left, right, less, done, l, r); }
    StillDistinct(before, left, right, less, done, l, r);
    InsideAt(before, left, right, done, l, r, |done| + 1);
    InsideAt(before, left, right, done, l, r, |done| + |l| + 1);
    if |r| > 1 {
      InsideAt(before, left, right, done, l, r, |done| + |l| + 2);
    }
    assert Last(s) == Last(r);
    assert |l| > 1 ==> s[|done| + 2] == l[1];
    assert done != [] ==> s[1] == done[0];
  }

  lemma StillDistinct<T>(before: Node<T>, left: seq<Node<T>>, right: seq<Node<T>>, less: Order<T>,
                         done: seq<Node<T>>, l: seq<Node<T>>, r: seq<Node<T>>)
    requires Merging(before, left, right, less, done, l, r) && Distinct(Whole(before, [], left, right))
    ensures Distinct(Whole(before, done, l, r))
    ensures multiset(Whole(before, done, l, r)) == multiset(Whole(before, [], left, right))
  {
    assert multiset(done) + multiset(l) + multiset(r) == multiset(left) + multiset(right) by {
      assert MergedSoFar(before, left, right, less, done, l, r);
    }
    WholeNodes(before, done, l, r);
    WholeNodes(before, [], left, right);
    DistinctPermuted(Whole(before, [], left, right), Whole(before, done, l, r));
  }

  lemma WholeNodes<T>(before: Node<T>, done: seq<Node<T>>, l: seq<Node<T>>, r: seq<Node<T>>)
    ensures multiset(Whole(before, done, l, r)) == multiset([before]) + (multiset(done) + multiset(l) + multiset(r))
    ensures done == [] ==> multiset(Whole(before, done, l, r)) == multiset([before]) + (multiset(l) + multiset(r))
  {
  }

  lemma InsideAt<T>(before: Node<T>, left: seq<Node<T>>, right: seq<Node<T>>, done: seq<Node<T>>, l: seq<Node<T>>,
                    r: seq<Node<T>>, i: nat)
    requires multiset(Whole(before, done, l, r)) == multiset(Whole(before, [], left, right))
    requires Distinct(Whole(before, done, l, r)) && 0 < i <= |done| + |l| + |r|
    ensures Whole(before, done, l, r)[i] in left || Whole(before, done, l, r)[i] in right
    ensures |done| < i <= |done| + |l| ==> Whole(before, done, l, r)[i] == l[i - |done| - 1]
    ensures |done| + |l| < i ==> Whole(before, done, l, r)[i] == r[i - |done| - |l| - 1]
  {
    Inside(before, left, right, done, l, r);
    assert Whole(before, done, l, r)[0] == before;
  }

  /** No node of a merge comes from elsewhere. */
  lemma Inside<T>(before: Node<T>, left: seq<Node<T>>, right: seq<Node<T>>, done: seq<Node<T>>, l: seq<Node<T>>,
                  r: seq<Node<T>>)
    requires multiset(Whole(before, done, l, r)) == multiset(Whole(before, [], left, right))
    ensures forall i :: 0 <= i < |done| + |l| + |r| + 1 ==>
              Whole(before, done, l, r)[i] == before || Whole(before, done, l, r)[i] in left
                || Whole(before, done, l, r)[i] in right
  {
    var s := Whole(before, done, l, r);
    forall i | 0 <= i < |s| ensures s[i] == before || s[i] in left || s[i] in right {
      assert s[i] in multiset(Whole(before, [], left, right));
    }
  }

  function Whole<T>(before: Node<T>, done: seq<Node<T>>, l: seq<Node<T>>, r: seq<Node<T>>): seq<Node<T>> {
    [before] + done + l + r
  }

  /** The merge so far: `done` after the node before the runs, then what is left of both. */
  ghost predicate MergedSoFar<T>(before: Node<T>, left: seq<Node<T>>, right: seq<Node<T>>, less: Order<T>,
                                 done: seq<Node<T>>, l: seq<Node<T>>, r: seq<Node<T>>)
  {
    && done + Merge(l, r, less) == Merge(left, right, less)
    && multiset(done) + multiset(l) + multiset(r) == multiset(left) + multiset(right)
    && right != [] && (r != [] ==> Last(r) == Last(right))
  }

  /** The same; the verifier looks inside only where `MergedSoFar` is mentioned. */
  ghost predicate Merging<T>(before: Node<T>, left: seq<Node<T>>, right: seq<Node<T>>, less: Order<T>,
                             done: seq<Node<T>>, l: seq<Node<T>>, r: seq<Node<T>>)
  {
    forall d {:trigger MergedSoFar(before, left, right, less, d, l, r)} ::
      d == done ==> MergedSoFar(before, left, right, less, d, l, r)
  }

  lemma TakeFirst<X>(r: seq<X>)
    requires r != []
    ensures multiset(r) == multiset([r[0]]) + multiset(r[1..])
  {
    assert r == [r[0]] + r[1..];
  }

  lemma TakeRightMerges<T>(done: seq<Node<T>>, l: seq<Node<T>>, r: seq<Node<T>>, less: Order<T>)
    requires l != [] && r != [] && less(r[0].data, l[0].data)
    ensures done + Merge(l, r, less) == done + [r[0]] + Merge(l, r[1..], less)
  {
  }

  lemma TakeLeftMerges<T>(done: seq<Node<T>>, l: seq<Node<T>>, r: seq<Node<T>>, less: Order<T>)
    requires l != [] && r != [] && !less(r[0].data, l[0].data)
    ensures done + Merge(l, r, less) == done + [l[0]] + Merge(l[1..], r, less)
  {
  }

  lemma MergeTakesRight<T>(before: Node<T>, left: seq<Node<T>>, right: seq<Node<T>>, less: Order<T>,
                           done: seq<Node<T>>, l: seq<Node<T>>, r: seq<Node<T>>)
    requires Merging(before, left, right, less, done, l, r) && l != [] && r != [] && less(r[0].data, l[0].data)
    ensures Merging(before, left, right, less, done + [r[0]], l, r[1..])
  {
    assert MergedSoFar(before, left, right, less, done, l, r);
    TakeFirst(r);
    TakeRightMerges(done, l, r, less);
    assert MergedSoFar(before, left, right, less, done + [r[0]], l, r[1..]);
  }

  lemma MergeTakesLeft<T>(before: Node<T>, left: seq<Node<T>>, right: seq<Node<T>>, less: Order<T>,
                          done: seq<Node<T>>, l: seq<Node<T>>, r: seq<Node<T>>)
    requires Merging(before, left, right, less, done, l, r) && l != [] && r != [] && !less(r[0].data, l[0].data)
    ensures Merging(before, left, right, less, done + [l[0]], l[1..], r)
  {
    assert MergedSoFar(before, left, right, less, done, l, r);
    TakeFirst(l);
    TakeLeftMerges(done, l, r, less);
    assert MergedSoFar(before, left, right, less, done + [l[0]], l[1..], r);
  }

  lemma SameWhole<T>(before: Node<T>, done: seq<Node<T>>, l: seq<Node<T>>, r: seq<Node<T>>)
    requires l != []
    ensures Whole(before, done + [l[0]], l[1..], r) == Whole(before, done, l, r)
  {
  }

  /** The pieces of a chain of three runs, the last of which starts with one node. */
  lemma Pieces<T>(p: seq<Node<T>>, l: seq<Node<T>>, r: seq<Node<T>>, last: Node?<T>)
    requires p != [] && l != [] && r != [] && Chain(p + l + r, last) && Distinct(p + l + r)
    ensures Chain(p, l[0]) && Chain(l, r[0]) && r[0].next == FirstOr(r[1..], last) && Chain(r[1..], last)
    ensures Distinct(p) && Distinct(l) && r[0] !in p && r[0] !in l && r[0] !in r[1..]
    ensures Disjoint(p, l) && Disjoint(p, r[1..]) && Disjoint(l, r[1..])
  {
    assert p + l + r == p + (l + r) && r == [r[0]] + r[1..];
    ChainSplit(p, l + r, last);
    ChainSplit(l, r, last);
    ChainSplit([r[0]], r[1..], last);
    assert LinkedAt([r[0]], 0, FirstOr(r[1..], last));
    DistinctSplit(p, l + r);
    DistinctSplit(l, r);
    DistinctSplit([r[0]], r[1..]);
    assert forall i :: 0 <= i < |l| ==> (l + r)[i] == l[i];
    assert forall i :: 0 <= i < |r| ==> (l + r)[|l| + i] == r[i];
    assert forall i :: 0 <= i < |r| - 1 ==> r[1..][i] == r[i + 1];
  }

  lemma Moved<T>(p: seq<Node<T>>, l: seq<Node<T>>, r: seq<Node<T>>, last: Node?<T>)
    requires p != [] && l != [] && r != []
    requires Chain(p, r[0]) && r[0].next == l[0] && Chain(l, FirstOr(r[1..], last)) && Chain(r[1..], last)
    ensures Chain(p + [r[0]] + l + r[1..], last)
  {
    assert LinkedAt([r[0]], 0, l[0]);
    ChainSplit(l, r[1..], last);
    ChainSplit([r[0]], l + r[1..], last);
    ChainSplit(p, [r[0]] + (l + r[1..]), last);
    assert p + [r[0]] + l + r[1..] == p + ([r[0]] + (l + r[1..]));
  }
}
