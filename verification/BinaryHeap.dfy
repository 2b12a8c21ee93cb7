/**
 * The binary heap of Go's container/heap, as both fee orderings use it: the heap is a
 * slice of heads compared by a `less` function, moved only by swaps.
 */
module BinaryHeap {

  /** What the proofs need of `less`: "not less" is a total preorder. */
  ghost predicate IsOrder<T(!new)>(less: (T, T) -> bool) {
    && (forall a, b :: less(a, b) ==> !less(b, a))
    && (forall a, b, c :: !less(a, b) && !less(b, c) ==> !less(a, c))
  }

  function Parent(k: nat): nat
    requires k > 0
  {
    (k - 1) / 2
  }

  /** Within the first n entries no child whose parent is at `lo` or later beats its parent. */
  ghost predicate HeapFrom<T(!new)>(less: (T, T) -> bool, h: seq<T>, lo: nat, n: nat)
    requires n <= |h|
  {
    forall k :: 1 <= k < n && Parent(k) >= lo ==> !less(h[k], h[Parent(k)])
  }

  ghost predicate IsHeap<T(!new)>(less: (T, T) -> bool, h: seq<T>) {
    HeapFrom(less, h, 0, |h|)
  }

  /** The root of a heap is beaten by no entry. */
  lemma {:induction false} RootIsBest<T(!new)>(less: (T, T) -> bool, h: seq<T>, k: nat)
    requires IsOrder(less) && IsHeap(less, h) && k < |h|
    ensures !less(h[k], h[0])
  {
    if k > 0 {
      RootIsBest(less, h, Parent(k));
      assert !less(h[k], h[Parent(k)]);
    }
  }

  function Swapped<T>(h: seq<T>, i: nat, j: nat): (r: seq<T>)
    requires i < |h| && j < |h|
    ensures multiset(r) == multiset(h)
  {
    h[i := h[j]][j := h[i]]
  }

  /** The heap order everywhere except between `hole` and its children, who all yield to hole's parent. */
  ghost predicate HeapExceptAt<T(!new)>(less: (T, T) -> bool, h: seq<T>, lo: nat, n: nat, hole: nat)
    requires n <= |h|
  {
    && (forall k :: 1 <= k < n && lo <= Parent(k) != hole ==> !less(h[k], h[Parent(k)]))
    && (hole > lo && hole > 0 && Parent(hole) >= lo ==>
          forall k :: 1 <= k < n && Parent(k) == hole ==> !less(h[k], h[Parent(hole)]))
  }

  /** Sinking the hole's entry below its better child moves the hole to that child. */
  lemma SinkStep<T(!new)>(less: (T, T) -> bool, h: seq<T>, lo: nat, n: nat, i: nat, j: nat)
    requires IsOrder(less) && n <= |h| && lo <= i < j < n && Parent(j) == i
    requires HeapExceptAt(less, h, lo, n, i)
    requires less(h[j], h[i])
    requires forall k :: 1 <= k < n && Parent(k) == i ==> !less(h[k], h[j])
    ensures HeapExceptAt(less, Swapped(h, i, j), lo, n, j)
  {
    var g := Swapped(h, i, j);
    forall k | 1 <= k < n && lo <= Parent(k) != j
      ensures !less(g[k], g[Parent(k)])
    {
      if Parent(k) == i {
        if k != j { assert g[k] == h[k] && g[i] == h[j]; }
      } else if k == i {
        assert !less(h[j], h[Parent(i)]);
      } else {
        assert g[k] == h[k];
      }
    }
    forall k | 1 <= k < n && Parent(k) == j
      ensures !less(g[k], g[i])
    {
      assert !less(h[k], h[Parent(k)]);
    }
  }

  /** The child of i that down compares with i: the right one only when it beats the left one. */
  function BetterChild<T(!new)>(less: (T, T) -> bool, h: seq<T>, n: nat, i: nat): (j: nat)
    requires IsOrder(less) && n <= |h| && 2 * i + 1 < n
    ensures j < n && j > 0 && Parent(j) == i
    ensures forall k :: 1 <= k < n && Parent(k) == i ==> !less(h[k], h[j])
  {
    assert forall k :: 1 <= k < n && Parent(k) == i ==> k == 2 * i + 1 || k == 2 * i + 2;
    if 2 * i + 2 < n && less(h[2 * i + 2], h[2 * i + 1]) then 2 * i + 2 else 2 * i + 1
  }

  /** A hole whose children do not beat it is no hole. */
  lemma HoleCloses<T(!new)>(less: (T, T) -> bool, h: seq<T>, lo: nat, n: nat, i: nat)
    requires IsOrder(less) && n <= |h| && i < n
    requires HeapExceptAt(less, h, lo, n, i)
    requires 2 * i + 1 >= n || !less(h[BetterChild(less, h, n, i)], h[i])
    ensures HeapFrom(less, h, lo, n)
  {
    forall k | 1 <= k < n && Parent(k) == i
      ensures !less(h[k], h[i])
    {
      assert !less(h[k], h[BetterChild(less, h, n, i)]);
    }
  }

  /** down(h, i0, n): sink entry i0 within the first n entries; reports whether it moved. */
  method Down<T(!new)>(less: (T, T) -> bool, h: seq<T>, i0: nat, n: nat) returns (r: seq<T>, moved: bool)
    requires IsOrder(less) && i0 < n <= |h|
    requires HeapFrom(less, h, i0 + 1, n)
    ensures |r| == |h| && multiset(r) == multiset(h)
    ensures HeapFrom(less, r, i0, n)
    ensures r[..i0] == h[..i0] && r[n..] == h[n..]
    ensures !moved ==> r == h
  {
    r := h;
    var i := i0;
    while true
      invariant i0 <= i < n && |r| == |h|
      invariant multiset(r) == multiset(h)
      invariant HeapExceptAt(less, r, i0, n, i)
      invariant r[..i0] == h[..i0] && r[n..] == h[n..]
      invariant i == i0 ==> r == h
      decreases n - i
    {
      if 2 * i + 1 >= n {
        break;
      }
      var j := BetterChild(less, r, n, i);
      if !less(r[j], r[i]) {
        break;
      }
      SinkStep(less, r, i0, n, i, j);
      r := Swapped(r, i, j);
      i := j;
    }
    HoleCloses(less, r, i0, n, i);
    moved := i > i0;
  }

  /** heap.Init: sink every inner entry, last first. */
  method Init<T(!new)>(less: (T, T) -> bool, h: seq<T>) returns (r: seq<T>)
    requires IsOrder(less)
    ensures IsHeap(less, r) && |r| == |h| && multiset(r) == multiset(h)
  {
    r := h;
    var i := |h| / 2;
    while i > 0
      invariant 0 <= i <= |h| / 2 && |r| == |h| && multiset(r) == multiset(h)
      invariant HeapFrom(less, r, i, |h|)
    {
      i := i - 1;
      var moved;
      r, moved := Down(less, r, i, |h|);
    }
  }

  /** heap.Fix(h, 0) after the root was overwritten; up(h, 0) has nowhere to go. */
  method FixRoot<T(!new)>(less: (T, T) -> bool, h: seq<T>) returns (r: seq<T>)
    requires IsOrder(less) && |h| > 0 && HeapFrom(less, h, 1, |h|)
    ensures IsHeap(less, r) && |r| == |h| && multiset(r) == multiset(h)
  {
    var moved;
    r, moved := Down(less, h, 0, |h|);
  }

  /** heap.Pop: swap the root to the end, sink the new root, cut the end off. */
  method PopRoot<T(!new)>(less: (T, T) -> bool, h: seq<T>) returns (r: seq<T>, top: T)
    requires IsOrder(less) && |h| > 0 && IsHeap(less, h)
    ensures IsHeap(less, r) && top == h[0]
    ensures multiset(r) + multiset{h[0]} == multiset(h)
  {
    hide IsOrder, HeapFrom, Parent, Swapped;
    var n := |h| - 1;
    var s := Swapped(h, 0, n);
    RootSwappedOut(less, h);
    if n > 0 {
      var moved;
      s, moved := Down(less, s, 0, n);
    } else {
      SingletonHeap(less, s);
    }
    CutEnd(less, h, s);
    r, top := s[..n], s[n];
  }

  lemma RootSwappedOut<T(!new)>(less: (T, T) -> bool, h: seq<T>)
    requires |h| > 0 && IsHeap(less, h)
    ensures HeapFrom(less, Swapped(h, 0, |h| - 1), 1, |h| - 1)
    ensures |Swapped(h, 0, |h| - 1)| == |h| && Swapped(h, 0, |h| - 1)[|h| - 1..] == [h[0]]
  {
  }

  lemma SingletonHeap<T(!new)>(less: (T, T) -> bool, h: seq<T>)
    ensures HeapFrom(less, h, 0, 0)
  {
  }

  lemma CutEnd<T(!new)>(less: (T, T) -> bool, h: seq<T>, s: seq<T>)
    requires |s| == |h| > 0 && multiset(s) == multiset(h) && s[|s| - 1..] == [h[0]]
    requires HeapFrom(less, s, 0, |s| - 1)
    ensures s[|s| - 1] == h[0] && IsHeap(less, s[..|s| - 1])
    ensures multiset(s[..|s| - 1]) + multiset{h[0]} == multiset(h)
  {
    assert s == s[..|s| - 1] + s[|s| - 1..];
    assert s[|s| - 1..][0] == s[|s| - 1];
  }
}
