/**
  The binary min-heap behind both priority queues, kept in a list as the heapq functions keep it.
  Entries compare by priority and then by entry id; the payload takes no part in the comparison.
 */
module Heaps {
  datatype Item<+T> = Item(priority: real, entryId: nat, payload: T)

  predicate Less<T>(a: Item<T>, b: Item<T>) {
    a.priority < b.priority || (a.priority == b.priority && a.entryId < b.entryId)
  }

  predicate AtMost<T>(a: Item<T>, b: Item<T>) {
    !Less(b, a)
  }

  function Parent(k: nat): nat
    requires k > 0
  {
    (k - 1) / 2
  }

  ghost predicate IsHeap<T>(h: seq<Item<T>>) {
    forall k {:trigger Parent(k)} :: 0 < k < |h| ==> AtMost(h[Parent(k)], h[k])
  }

  ghost predicate IsLeast<T>(x: Item<T>, h: seq<Item<T>>) {
    forall y :: y in h ==> AtMost(x, y)
  }

  lemma {:induction false} RootBelow<T>(h: seq<Item<T>>, k: nat)
    requires IsHeap(h) && k < |h|
    ensures AtMost(h[0], h[k])
    decreases k
  {
    if k > 0 {
      RootBelow(h, Parent(k));
    }
  }

  lemma RootIsLeast<T>(h: seq<Item<T>>)
    requires IsHeap(h) && h != []
    ensures IsLeast(h[0], h)
  {
    forall y | y in h ensures AtMost(h[0], y) {
      var k :| 0 <= k < |h| && h[k] == y;
      RootBelow(h, k);
    }
  }

  function Swap<T>(h: seq<T>, i: nat, j: nat): seq<T>
    requires i < |h| && j < |h|
  {
    h[i := h[j]][j := h[i]]
  }

  lemma SwapPermutes<T>(h: seq<T>, i: nat, j: nat)
    requires i < |h| && j < |h|
    ensures multiset(Swap(h, i, j)) == multiset(h)
  {
  }

  /** Every entry is at least its parent but for the one at `pos`, and `pos`'s children are not smaller than its parent. */
  ghost predicate OrderedAbove<T>(h: seq<Item<T>>, pos: nat) {
    && (forall k {:trigger Parent(k)} :: 0 < k < |h| && k != pos ==> AtMost(h[Parent(k)], h[k]))
    && (0 < pos < |h| ==> forall k {:trigger Parent(k)} :: 0 < k < |h| && Parent(k) == pos ==> AtMost(h[Parent(pos)], h[k]))
  }

  lemma SwapUp<T>(h: seq<Item<T>>, pos: nat)
    requires OrderedAbove(h, pos) && 0 < pos < |h| && Less(h[pos], h[Parent(pos)])
    ensures OrderedAbove(Swap(h, pos, Parent(pos)), Parent(pos))
  {
    var up := Parent(pos);
    var r := Swap(h, pos, up);
    forall k {:trigger Parent(k)} | 0 < k < |r| && k != up ensures AtMost(r[Parent(k)], r[k]) {
      if k == pos {
      } else if Parent(k) == up {
        assert AtMost(h[up], h[k]);
      }
    }
  }

  /** Moves the entry at `start` towards the root until its parent is not larger. */
  method SiftTowardsRoot<T>(h: seq<Item<T>>, start: nat) returns (r: seq<Item<T>>)
    requires start < |h| && OrderedAbove(h, start)
    ensures IsHeap(r) && multiset(r) == multiset(h)
  {
    r := h;
    var pos: nat := start;
    while pos > 0 && Less(r[pos], r[Parent(pos)])
      invariant pos < |r| == |h| && multiset(r) == multiset(h)
      invariant OrderedAbove(r, pos)
    {
      SwapUp(r, pos);
      SwapPermutes(r, pos, Parent(pos));
      r, pos := Swap(r, pos, Parent(pos)), Parent(pos);
    }
  }

  /** Ordered everywhere but around `pos`, whose children are not smaller than its parent. */
  ghost predicate OrderedAround<T>(h: seq<Item<T>>, pos: nat) {
    && (forall k {:trigger Parent(k)} :: 0 < k < |h| && k != pos && Parent(k) != pos ==> AtMost(h[Parent(k)], h[k]))
    && (0 < pos < |h| ==> forall k {:trigger Parent(k)} :: 0 < k < |h| && Parent(k) == pos ==> AtMost(h[Parent(pos)], h[k]))
  }

  function SmallerChild<T>(h: seq<Item<T>>, pos: nat): (child: nat)
    requires 2 * pos + 1 < |h|
    ensures 0 < child < |h| && Parent(child) == pos
    ensures forall k {:trigger Parent(k)} :: 0 < k < |h| && Parent(k) == pos ==> AtMost(h[child], h[k])
  {
    var left := 2 * pos + 1;
    if left + 1 < |h| && !Less(h[left], h[left + 1]) then left + 1 else left
  }

  lemma SwapDown<T>(h: seq<Item<T>>, pos: nat)
    requires OrderedAround(h, pos) && 2 * pos + 1 < |h|
    ensures var child := SmallerChild(h, pos); OrderedAround(Swap(h, pos, child), child)
  {
    var child := SmallerChild(h, pos);
    var r := Swap(h, pos, child);
    forall k {:trigger Parent(k)} | 0 < k < |r| && k != child && Parent(k) != child ensures AtMost(r[Parent(k)], r[k]) {
      if k == pos {
        assert r[pos] == h[child] && Parent(child) == pos;
      } else if Parent(k) == pos {
        assert r[k] == h[k] && r[pos] == h[child];
      }
    }
  }

  /** The root of an otherwise ordered heap: bring smaller children up to a leaf, then sift the entry back. */
  method SiftFromRoot<T>(h: seq<Item<T>>) returns (r: seq<Item<T>>)
    requires h != [] && OrderedAround(h, 0)
    ensures IsHeap(r) && multiset(r) == multiset(h)
  {
    r := h;
    var pos: nat := 0;
    while 2 * pos + 1 < |r|
      invariant pos < |r| == |h| && multiset(r) == multiset(h)
      invariant OrderedAround(r, pos)
      decreases |r| - pos
    {
      var child := SmallerChild(r, pos);
      SwapDown(r, pos);
      SwapPermutes(r, pos, child);
      r, pos := Swap(r, pos, child), child;
    }
    r := SiftTowardsRoot(r, pos);
  }

  method Push<T>(h: seq<Item<T>>, x: Item<T>) returns (r: seq<Item<T>>)
    requires IsHeap(h)
    ensures IsHeap(r) && multiset(r) == multiset(h) + multiset{x}
  {
    r := SiftTowardsRoot(h + [x], |h|);
  }

  method Pop<T>(h: seq<Item<T>>) returns (x: Item<T>, r: seq<Item<T>>)
    requires IsHeap(h) && h != []
    ensures IsHeap(r) && multiset(h) == multiset(r) + multiset{x}
    ensures IsLeast(x, h) && |r| == |h| - 1
  {
    RootIsLeast(h);
    var last := h[|h| - 1];
    r := h[..|h| - 1];
    assert h == r + [last];
    if r == [] {
      x := last;
    } else {
      x := r[0];
      r := SiftFromRoot(r[0 := last]);
    }
    assert |multiset(h)| == |multiset(r)| + 1;
  }
}
