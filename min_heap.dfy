/** The slice-backed binary min-heap of day 1. The tree lives in a flat
    sequence: the parent of position `j > 0` is `(j - 1) / 2` and the
    children of `i` are `2i + 1` and `2i + 2`.

    The source's names are kept, and they are inverted with respect to the
    usual convention: `SiftDown` moves an item toward the root (down in the
    ascending order of the keys) and `SiftUp` moves it toward the leaves.
    Both use a "hole": the moving item is held aside, the elements it passes
    are shifted into the hole, and the item is written once at the end. */
module MinHeap {
  import opened Results

  // ---------------------------------------------------------------------
  // Tree shape

  function Parent(j: nat): (p: nat)
    requires j > 0
    ensures p < j
  {
    (j - 1) / 2
  }

  /** `i` lies on the path from `j` to the root (or is `j` itself). */
  predicate AncestorOrSelf(i: nat, j: nat)
    decreases j
  {
    j == i || (j > i && AncestorOrSelf(i, Parent(j)))
  }

  lemma {:induction false} RootIsAncestor(j: nat)
    ensures AncestorOrSelf(0, j)
    decreases j
  {
    if j > 0 {
      RootIsAncestor(Parent(j));
    }
  }

  /** An ancestor of a child's parent is an ancestor of the child's descendants. */
  lemma {:induction false} ChildAncestor(idx: nat, kid: nat, d: nat)
    requires kid > 0 && Parent(kid) == idx && AncestorOrSelf(kid, d)
    ensures AncestorOrSelf(idx, d)
    decreases d
  {
    if d != kid {
      ChildAncestor(idx, kid, Parent(d));
    }
  }

  // ---------------------------------------------------------------------
  // Heap order

  /** Every parent is no greater than its children. */
  predicate IsHeap(a: seq<int>) {
    forall c :: 0 < c < |a| ==> a[Parent(c)] <= a[c]
  }

  /** Heap order holds, except perhaps between `j` and its parent. */
  predicate HeapExcept(a: seq<int>, j: nat) {
    forall c :: 0 < c < |a| && c != j ==> a[Parent(c)] <= a[c]
  }

  /** The parent of `j` is no greater than the children of `j`. */
  predicate Bridged(a: seq<int>, j: nat) {
    0 < j < |a| ==> forall c :: 0 < c < |a| && Parent(c) == j ==> a[Parent(j)] <= a[c]
  }

  /** The state in which moving the item at `j` toward the root restores heap order. */
  predicate RiseReady(a: seq<int>, j: nat) {
    j < |a| && HeapExcept(a, j) && Bridged(a, j)
  }

  /** The state in which pushing the hole at `idx` to a leaf keeps heap order
      everywhere but at the hole: every pair that does not involve `idx` is
      ordered, and the parent of `idx` is no greater than its children. */
  predicate SinkReady(a: seq<int>, idx: nat) {
    && idx < |a|
    && (forall c :: 0 < c < |a| && c != idx && Parent(c) != idx ==> a[Parent(c)] <= a[c])
    && Bridged(a, idx)
  }

  /** In a heap the root is no greater than any element. */
  lemma {:induction false} RootIsMin(a: seq<int>, k: nat)
    requires IsHeap(a) && k < |a|
    ensures a[0] <= a[k]
    decreases k
  {
    if k > 0 {
      RootIsMin(a, Parent(k));
    }
  }

  lemma SwapMultiset(s: seq<int>, x: nat, y: nat)
    requires x < |s| && y < |s|
    ensures multiset(s[x := s[y]][y := s[x]]) == multiset(s)
  {
  }

  // ---------------------------------------------------------------------
  // siftDown: move the item toward the root

  /** The sequence siftDown(i, j) leaves behind when it carries `item` up
      from the hole at `j`: parents strictly greater than `item` are shifted
      down into the hole until the hole reaches `i` or a parent that is no
      greater than `item`, where `item` is written. */
  function SiftedDown(a: seq<int>, i: nat, j: nat, item: int): (r: seq<int>)
    requires j < |a|
    ensures |r| == |a|
    decreases j
  {
    if i < j && item < a[Parent(j)] then SiftedDown(a[j := a[Parent(j)]], i, Parent(j), item)
    else a[j := item]
  }

  /** siftDown only permutes: the result holds what the hole array held. */
  lemma {:induction false} SiftedDownMultiset(a: seq<int>, i: nat, j: nat, item: int)
    requires j < |a|
    ensures multiset(SiftedDown(a, i, j, item)) == multiset(a[j := item])
    decreases j
  {
    if i < j && item < a[Parent(j)] {
      var p := Parent(j);
      SiftedDownMultiset(a[j := a[p]], i, p, item);
      var s := a[j := item];
      SwapMultiset(s, j, p);
      assert s[j := s[p]][p := s[j]] == a[j := a[p]][p := item];
    }
  }

  /** siftDown(i, j) writes only positions on the path from `j` up to `i`. */
  lemma {:induction false} SiftedDownFrame(a: seq<int>, i: nat, j: nat, item: int)
    requires j < |a| && AncestorOrSelf(i, j)
    ensures forall k :: 0 <= k < |a| && !(AncestorOrSelf(i, k) && AncestorOrSelf(k, j)) ==>
      SiftedDown(a, i, j, item)[k] == a[k]
    decreases j
  {
    if i < j && item < a[Parent(j)] {
      var p := Parent(j);
      SiftedDownFrame(a[j := a[p]], i, p, item);
      forall k | 0 <= k < |a| && AncestorOrSelf(i, k) && AncestorOrSelf(k, p)
        ensures AncestorOrSelf(k, j)
      {
      }
    }
  }

  /** An item is never carried past a parent equal to it: it stops as soon as
      its parent is no greater than it, so equal keys are not exchanged. */
  lemma SiftedDownStopsAtEqual(a: seq<int>, i: nat, j: nat, item: int)
    requires 0 < j < |a| && a[Parent(j)] <= item
    ensures SiftedDown(a, i, j, item) == a[j := item]
  {
  }

  /** Carrying the item from `j` toward the root of a heap whose only flaw is
      at `j` gives a heap. */
  lemma {:induction false} SiftedDownRestoresHeap(a: seq<int>, j: nat, item: int)
    requires j < |a| && RiseReady(a[j := item], j)
    ensures IsHeap(SiftedDown(a, 0, j, item))
    decreases j
  {
    var s := a[j := item];
    if 0 < j && item < a[Parent(j)] {
      var p := Parent(j);
      var t := a[j := a[p]][p := item];
      forall c | 0 < c < |t| && c != p
        ensures t[Parent(c)] <= t[c]
      {
        if c == j {
        } else if Parent(c) == p {
          assert s[p] <= s[c];
        } else if Parent(c) == j {
          assert s[p] <= s[c];
        } else {
          assert s[Parent(c)] <= s[c];
        }
      }
      if 0 < p {
        forall c | 0 < c < |t| && Parent(c) == p
          ensures t[Parent(p)] <= t[c]
        {
          assert s[Parent(p)] <= s[p];
          if c != j {
            assert s[p] <= s[c];
          }
        }
      }
      assert RiseReady(t, p);
      SiftedDownRestoresHeap(a[j := a[p]], p, item);
    } else {
      forall c | 0 < c < |s|
        ensures s[Parent(c)] <= s[c]
      {
        if c == j {
          assert 0 < j && a[Parent(j)] <= item;
        }
      }
    }
  }

  // ---------------------------------------------------------------------
  // siftUp: move the item toward the leaves, then back toward the root

  /** The smaller child of `idx`; the right one when the two are equal. */
  function SmallerChild(a: seq<int>, idx: nat): (kid: nat)
    requires 2 * idx + 1 < |a|
    ensures kid == 2 * idx + 1 || kid == 2 * idx + 2
    ensures kid < |a| && Parent(kid) == idx
    ensures a[kid] <= a[2 * idx + 1]
    ensures 2 * idx + 2 < |a| ==> a[kid] <= a[2 * idx + 2]
    ensures kid == 2 * idx + 1 ==> 2 * idx + 2 < |a| ==> a[2 * idx + 1] < a[2 * idx + 2]
  {
    var left := 2 * idx + 1;
    if left + 1 < |a| && a[left] >= a[left + 1] then left + 1 else left
  }

  /** The first phase of siftUp: the hole at `idx` descends along the smaller
      children, which move up into it, until it reaches a leaf, where `item`
      is written. Gives the sequence and the leaf. */
  function Descended(a: seq<int>, idx: nat, item: int): (r: (seq<int>, nat))
    requires idx < |a|
    ensures |r.0| == |a| && r.1 < |a| && r.0[r.1] == item
    ensures AncestorOrSelf(idx, r.1) && 2 * r.1 + 1 >= |a|
    decreases |a| - idx
  {
    if 2 * idx + 1 < |a| then
      var kid := SmallerChild(a, idx);
      var r := Descended(a[idx := a[kid]], kid, item);
      ChildAncestor(idx, kid, r.1);
      r
    else (a[idx := item], idx)
  }

  lemma {:induction false} DescendedMultiset(a: seq<int>, idx: nat, item: int)
    requires idx < |a|
    ensures multiset(Descended(a, idx, item).0) == multiset(a[idx := item])
    decreases |a| - idx
  {
    if 2 * idx + 1 < |a| {
      var kid := SmallerChild(a, idx);
      DescendedMultiset(a[idx := a[kid]], kid, item);
      var s := a[idx := item];
      SwapMultiset(s, idx, kid);
      assert s[idx := s[kid]][kid := s[idx]] == a[idx := a[kid]][kid := item];
    }
  }

  /** The descent writes only `idx` and its descendants. */
  lemma {:induction false} DescendedFrame(a: seq<int>, idx: nat, item: int)
    requires idx < |a|
    ensures forall k :: 0 <= k < |a| && !AncestorOrSelf(idx, k) ==> Descended(a, idx, item).0[k] == a[k]
    decreases |a| - idx
  {
    if 2 * idx + 1 < |a| {
      var kid := SmallerChild(a, idx);
      DescendedFrame(a[idx := a[kid]], kid, item);
      forall k | 0 <= k < |a| && AncestorOrSelf(kid, k)
        ensures AncestorOrSelf(idx, k)
      {
        ChildAncestor(idx, kid, k);
      }
    }
  }

  /** The descent keeps heap order everywhere but between the leaf it
      reaches and that leaf's parent. */
  lemma {:induction false} DescendedReady(a: seq<int>, idx: nat, item: int)
    requires SinkReady(a, idx)
    ensures RiseReady(Descended(a, idx, item).0, Descended(a, idx, item).1)
    decreases |a| - idx
  {
    if 2 * idx + 1 < |a| {
      var kid := SmallerChild(a, idx);
      var b := a[idx := a[kid]];
      forall c | 0 < c < |b| && c != kid && Parent(c) != kid
        ensures b[Parent(c)] <= b[c]
      {
        if c == idx {
          assert a[Parent(idx)] <= a[kid];
        } else if Parent(c) == idx {
          assert a[kid] <= a[c];
        } else {
          assert a[Parent(c)] <= a[c];
        }
      }
      forall c | 0 < c < |b| && Parent(c) == kid
        ensures b[Parent(kid)] <= b[c]
      {
        assert a[kid] <= a[c];
      }
      assert SinkReady(b, kid);
      DescendedReady(b, kid, item);
    } else {
      var b := a[idx := item];
      forall c | 0 < c < |b| && c != idx
        ensures b[Parent(c)] <= b[c]
      {
        assert Parent(c) != idx;
      }
    }
  }

  /** The sequence siftUp(index) leaves behind: descend to a leaf, then carry
      the item back toward `index`. */
  function SiftedUp(a: seq<int>, index: nat): (r: seq<int>)
    requires index < |a|
    ensures |r| == |a|
  {
    var d := Descended(a, index, a[index]);
    SiftedDown(d.0, index, d.1, a[index])
  }

  /** siftUp only permutes. */
  lemma SiftedUpMultiset(a: seq<int>, index: nat)
    requires index < |a|
    ensures multiset(SiftedUp(a, index)) == multiset(a)
  {
    var d := Descended(a, index, a[index]);
    DescendedMultiset(a, index, a[index]);
    SiftedDownMultiset(d.0, index, d.1, a[index]);
    assert d.0[d.1 := a[index]] == d.0;
    assert a[index := a[index]] == a;
  }

  /** siftUp writes only `index` and its descendants. */
  lemma SiftedUpFrame(a: seq<int>, index: nat)
    requires index < |a|
    ensures forall k :: 0 <= k < |a| && !AncestorOrSelf(index, k) ==> SiftedUp(a, index)[k] == a[k]
  {
    var d := Descended(a, index, a[index]);
    DescendedFrame(a, index, a[index]);
    SiftedDownFrame(d.0, index, d.1, a[index]);
  }

  /** siftUp(0) on a heap whose root alone may be out of place gives a heap. */
  lemma SiftedUpRestoresHeap(a: seq<int>)
    requires SinkReady(a, 0)
    ensures IsHeap(SiftedUp(a, 0))
  {
    var d := Descended(a, 0, a[0]);
    DescendedReady(a, 0, a[0]);
    assert d.0[d.1 := a[0]] == d.0;
    SiftedDownRestoresHeap(d.0, d.1, a[0]);
  }

  // ---------------------------------------------------------------------
  // push and pop

  /** The sequence push(x) leaves behind. */
  function Pushed(a: seq<int>, x: int): (r: seq<int>) {
    SiftedDown(a + [x], 0, |a|, x)
  }

  /** push adds exactly `x` and keeps heap order. */
  lemma PushedSpec(a: seq<int>, x: int)
    ensures |Pushed(a, x)| == |a| + 1
    ensures multiset(Pushed(a, x)) == multiset(a) + multiset{x}
    ensures IsHeap(a) ==> IsHeap(Pushed(a, x))
  {
    var b := a + [x];
    SiftedDownMultiset(b, 0, |a|, x);
    assert b[|a| := x] == b;
    if IsHeap(a) {
      assert RiseReady(b, |a|);
      SiftedDownRestoresHeap(b, |a|, x);
    }
  }

  /** What pop returns and the sequence it leaves behind. */
  function Popped(a: seq<int>): (r: (Option<int>, seq<int>))
    ensures |a| == 0 ==> r == (None, a)
    ensures |a| > 0 ==> r.0 == Some(a[0]) && |r.1| == |a| - 1
  {
    if |a| == 0 then (None, a)
    else
      var last := a[|a| - 1];
      var b := a[..|a| - 1];
      if |b| == 0 then (Some(last), b)
      else (Some(a[0]), SiftedUp(b[0 := last], 0))
  }

  /** pop removes exactly the old root, which under heap order is no greater
      than anything left, and it keeps heap order. */
  lemma PoppedSpec(a: seq<int>)
    requires |a| > 0
    ensures multiset(a) == multiset(Popped(a).1) + multiset{a[0]}
    ensures IsHeap(a) ==> IsHeap(Popped(a).1)
    ensures IsHeap(a) ==> forall k :: 0 <= k < |Popped(a).1| ==> a[0] <= Popped(a).1[k]
  {
    var last := a[|a| - 1];
    var b := a[..|a| - 1];
    assert a == b + [last];
    if |b| > 0 {
      var c := b[0 := last];
      SiftedUpMultiset(c, 0);
      assert multiset(c) == multiset(b) - multiset{a[0]} + multiset{last};
      if IsHeap(a) {
        SiftedUpRestoresHeap(c);
        var r := Popped(a).1;
        SiftedUpMultiset(c, 0);
        forall k | 0 <= k < |r|
          ensures a[0] <= r[k]
        {
          assert r[k] in multiset(r);
          assert r[k] in multiset(a);
          var m :| 0 <= m < |a| && a[m] == r[k];
          RootIsMin(a, m);
        }
      }
    }
  }

  predicate Sorted(s: seq<int>) {
    forall i, j :: 0 <= i < j < |s| ==> s[i] <= s[j]
  }

  /** Prepending a value no greater than anything in a sorted sequence keeps it sorted. */
  lemma ConsSorted(x: int, d: seq<int>)
    requires Sorted(d) && forall i :: 0 <= i < |d| ==> x <= d[i]
    ensures Sorted([x] + d)
  {
    var e := [x] + d;
    forall i, j | 0 <= i < j < |e|
      ensures e[i] <= e[j]
    {
      assert e[j] == d[j - 1];
      if i > 0 {
        assert e[i] == d[i - 1];
      }
    }
  }

  /** The values a loop that pops until the heap is empty would return. */
  function Drained(a: seq<int>): (r: seq<int>)
    decreases |a|
  {
    if |a| == 0 then [] else [a[0]] + Drained(Popped(a).1)
  }

  /** Popping a heap until it is empty yields its elements in non-decreasing order. */
  lemma {:induction false} DrainedSorted(a: seq<int>)
    requires IsHeap(a)
    ensures Sorted(Drained(a)) && multiset(Drained(a)) == multiset(a)
    decreases |a|
  {
    if |a| > 0 {
      var rest := Popped(a).1;
      assert IsHeap(rest) && multiset(a) == multiset(rest) + multiset{a[0]}
        && forall k :: 0 <= k < |rest| ==> a[0] <= rest[k] by {
        PoppedSpec(a);
      }
      DrainedSorted(rest);
      var d := Drained(rest);
      assert forall i :: 0 <= i < |d| ==> a[0] <= d[i] by {
        forall i | 0 <= i < |d|
          ensures a[0] <= d[i]
        {
          assert d[i] in multiset(rest);
          var m :| 0 <= m < |rest| && rest[m] == d[i];
        }
      }
      ConsSorted(a[0], d);
      var e := Drained(a);
      assert e == [a[0]] + d;
      assert multiset(e) == multiset(a);
    }
  }

  // ---------------------------------------------------------------------
  // The heap object

  /** heap[int]: `values` is the backing slice. */
  class Heap {
    var values: seq<int>

    constructor ()
      ensures values == [] && IsHeap(values)
    {
      values := [];
    }

    /** push appends `x` and moves it toward the root. */
    method Push(x: int)
      modifies this
      ensures |values| == |old(values)| + 1
      ensures multiset(values) == multiset(old(values)) + multiset{x}
      ensures IsHeap(old(values)) ==> IsHeap(values)
    {
      values := values + [x];
      SiftDown(0, |values| - 1);
      assert values == Pushed(old(values), x);
      PushedSpec(old(values), x);
    }

    /** pop removes the minimum; None when the heap is empty. */
    method Pop() returns (r: Option<int>)
      modifies this
      ensures old(values) == [] ==> r == None && values == old(values)
      ensures old(values) != [] ==> && r == Some(old(values)[0])
                                    && |values| == |old(values)| - 1
                                    && multiset(old(values)) == multiset(values) + multiset{old(values)[0]}
      ensures IsHeap(old(values)) ==> IsHeap(values)
      ensures r.Some? && IsHeap(old(values)) ==> forall k :: 0 <= k < |values| ==> r.value <= values[k]
    {
      if |values| == 0 {
        return None;
      }
      var last := values[|values| - 1];
      values := values[..|values| - 1];
      if |values| == 0 {
        PoppedSpec(old(values));
        return Some(last);
      }
      var first := values[0];
      values := values[0 := last];
      SiftUp(0);
      r := Some(first);
      assert (r, values) == Popped(old(values));
      PoppedSpec(old(values));
    }

    /** siftDown(i, j): carry the item at `j` toward the root, stopping at `i`. */
    method SiftDown(i: nat, j: nat)
      requires j < |values|
      modifies this
      ensures values == SiftedDown(old(values), i, j, old(values)[j])
    {
      var item := values[j];
      var hole := j;
      while i < hole
        invariant hole < |values|
        invariant SiftedDown(values, i, hole, item) == SiftedDown(old(values), i, j, item)
        decreases hole
      {
        var parentIndex := Parent(hole);
        var parent := values[parentIndex];
        if item < parent {
          values := values[hole := parent];
          hole := parentIndex;
          continue;
        }
        break;
      }
      values := values[hole := item];
    }

    /** siftUp(index): push the item at `index` down to a leaf along the
        smaller children, then carry it back up with siftDown. */
    method SiftUp(index: nat)
      requires index < |values|
      modifies this
      ensures values == SiftedUp(old(values), index)
    {
      var item := values[index];
      var hole := index;
      var kid := 2 * hole + 1;
      while kid < |values|
        invariant hole < |values| && kid == 2 * hole + 1
        invariant Descended(values, hole, item) == Descended(old(values), index, item)
        decreases |values| - hole
      {
        var right := kid + 1;
        if right < |values| {
          if values[kid] >= values[right] {
            kid := right;
          }
        }
        values := values[hole := values[kid]];
        hole := kid;
        kid := 2 * hole + 1;
      }
      values := values[hole := item];
      SiftDown(index, hole);
    }
  }
}
