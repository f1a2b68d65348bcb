/** Iterative in-place heap sort (lab4/sorting/heap_sort.py): build a max-heap by percolating
    down every internal node, then repeatedly swap the root to the end of the shrinking heap
    and percolate the new root down. The list of numbers is an array of integers. */
module HeapSort {

  import opened Common

  /** The heap position whose children are 2 p + 1 and 2 p + 2. */
  function Parent(c: nat): nat
    requires 0 < c
  {
    (c - 1) / 2
  }

  /** Within s[..size], every parent at index lo or later is at least each of its children. */
  predicate HeapFrom(s: seq<int>, lo: nat, size: nat)
    requires size <= |s|
  {
    forall c :: 0 < c < size && lo <= Parent(c) ==> s[Parent(c)] >= s[c]
  }

  /** The max-heap property in the form `arr[i] >= arr[2i+1]` and `arr[i] >= arr[2i+2]` for
      every child in range, from each parent's side. */
  lemma HeapChildren(s: seq<int>, size: nat)
    requires size <= |s| && HeapFrom(s, 0, size)
    ensures forall i :: 0 <= i && 2 * i + 1 < size ==> s[i] >= s[2 * i + 1]
    ensures forall i :: 0 <= i && 2 * i + 2 < size ==> s[i] >= s[2 * i + 2]
  {
    forall i | 0 <= i && 2 * i + 1 < size
      ensures s[i] >= s[2 * i + 1]
    {
      assert Parent(2 * i + 1) == i;
    }
    forall i | 0 <= i && 2 * i + 2 < size
      ensures s[i] >= s[2 * i + 2]
    {
      assert Parent(2 * i + 2) == i;
    }
  }

  /** The root of a max-heap is its largest element. */
  lemma HeapMax(s: seq<int>, size: nat)
    requires size <= |s| && HeapFrom(s, 0, size)
    ensures forall x :: 0 <= x < size ==> s[x] <= s[0]
  {
    forall x | 0 <= x < size
      ensures s[x] <= s[0]
    {
      HeapMaxAt(s, size, x);
    }
  }

  lemma {:induction false} HeapMaxAt(s: seq<int>, size: nat, x: nat)
    requires size <= |s| && HeapFrom(s, 0, size) && x < size
    ensures s[x] <= s[0]
    decreases x
  {
    if x > 0 {
      HeapMaxAt(s, size, Parent(x));
    }
  }

  // ---------------------------------------------------------------------------------------
  // _percolate_down

  /** The state of the `while True` loop of `_percolate_down(arr, node, size)` at index k:
      below `node`, every parent other than k is at least its children, and k's own parent
      (when k has moved down from `node`) is at least k's children. */
  predicate Sift(s: seq<int>, node: nat, k: nat, size: nat)
    requires size <= |s|
  {
    && node <= k
    && (node < k ==> k < size && node <= Parent(k))
    && (forall c :: 0 < c < size && node <= Parent(c) && Parent(c) != k ==> s[Parent(c)] >= s[c])
    && (node < k ==> forall c :: 0 < c < size && Parent(c) == k ==> s[Parent(k)] >= s[c])
  }

  /** What the loop keeps of the array it started with: the same values below size and in the
      whole array, and nothing at or after size moved. */
  predicate Kept(start: seq<int>, s: seq<int>, size: nat) {
    && |s| == |start| && size <= |s|
    && multiset(s[..size]) == multiset(start[..size])
    && multiset(s) == multiset(start)
    && (forall j :: size <= j < |s| ==> s[j] == start[j])
  }

  lemma SiftStart(s: seq<int>, node: nat, size: nat)
    requires size <= |s| && HeapFrom(s, node + 1, size)
    ensures Sift(s, node, node, size)
  {
  }

  /** The children of p are 2p+1 and 2p+2. */
  lemma ChildOf(c: nat)
    requires 0 < c
    ensures c == 2 * Parent(c) + 1 || c == 2 * Parent(c) + 2
  {
  }

  /** Stop condition 1: k has no child below size, so the heap below `node` is whole. */
  lemma SiftLeaf(s: seq<int>, node: nat, k: nat, size: nat)
    requires size <= |s| && Sift(s, node, k, size) && 2 * k + 1 >= size
    ensures HeapFrom(s, node, size)
  {
    forall c | 0 < c < size && node <= Parent(c)
      ensures s[Parent(c)] >= s[c]
    {
      ChildOf(c);
    }
  }

  /** Stop condition 2: k is at least its larger child, so the heap below `node` is whole. */
  lemma SiftDone(s: seq<int>, node: nat, k: nat, size: nat, m: nat)
    requires size <= |s| && Sift(s, node, k, size)
    requires 2 * k + 1 < size && (m == 2 * k + 1 || m == 2 * k + 2) && m < size
    requires 2 * k + 2 < size ==> s[m] >= s[2 * k + 1] && s[m] >= s[2 * k + 2]
    requires s[m] <= s[k]
    ensures HeapFrom(s, node, size)
  {
    forall c | 0 < c < size && node <= Parent(c)
      ensures s[Parent(c)] >= s[c]
    {
      ChildOf(c);
    }
  }

  /** Swapping k with its larger child m, when that child is larger than k, moves the one
      possible violation down to m. */
  lemma SiftSwap(s: seq<int>, node: nat, k: nat, size: nat, m: nat, s': seq<int>)
    requires size <= |s| && Sift(s, node, k, size)
    requires 2 * k + 1 < size && (m == 2 * k + 1 || m == 2 * k + 2) && m < size
    requires 2 * k + 2 < size ==> s[m] >= s[2 * k + 1] && s[m] >= s[2 * k + 2]
    requires s[m] > s[k]
    requires s' == s[k := s[m]][m := s[k]]
    ensures Sift(s', node, m, size)
  {
    assert Parent(m) == k;
    forall c | 0 < c < size && node <= Parent(c) && Parent(c) != m
      ensures s'[Parent(c)] >= s'[c]
    {
      ChildOf(c);
      if Parent(c) == k {
      } else if c == k {
        assert s'[Parent(k)] == s[Parent(k)];
      } else if c != m {
        assert s'[c] == s[c];
        assert s'[Parent(c)] == s[Parent(c)];
      }
    }
    forall c | 0 < c < size && Parent(c) == m
      ensures s'[Parent(m)] >= s'[c]
    {
      ChildOf(c);
      assert s'[c] == s[c];
    }
  }

  /** Exchanging two elements keeps the values. */
  lemma SwapPerm(s: seq<int>, i: nat, j: nat)
    requires i < |s| && j < |s| && i != j
    ensures multiset(s[i := s[j]][j := s[i]]) == multiset(s)
  {
    var t := s[i := s[j]];
    assert t[j] == s[j];
    assert multiset(t[j := s[i]]) == multiset(t) - multiset{s[j]} + multiset{s[i]};
    assert multiset(t) == multiset(s) - multiset{s[i]} + multiset{s[j]};
  }

  /** A swap of two positions below size keeps the values. */
  lemma KeptSwap(start: seq<int>, s: seq<int>, s': seq<int>, i: nat, j: nat, size: nat)
    requires Kept(start, s, size) && i < size && j < size && i != j
    requires s' == s[i := s[j]][j := s[i]]
    ensures Kept(start, s', size)
  {
    SwapPerm(s, i, j);
    var p := s[..size];
    SwapPerm(p, i, j);
    assert s'[..size] == p[i := p[j]][j := p[i]];
  }

  /** `_percolate_down(arr, node_index, arr_size)`: when every parent below `node` within
      [0, size) is already at least its children, moving `node`'s value down past its larger
      child while that child is larger makes node a heap parent too. Only positions below size
      change, and the values are the same. */
  method PercolateDown(a: array<int>, node: nat, size: nat)
    requires size <= a.Length && HeapFrom(a[..], node + 1, size)
    modifies a
    ensures HeapFrom(a[..], node, size)
    ensures Kept(old(a[..]), a[..], size)
  {
    ghost var start := a[..];
    var k := node;
    SiftStart(start, node, size);
    while true
      invariant Sift(a[..], node, k, size)
      invariant Kept(start, a[..], size)
      decreases size - k
    {
      var child0 := 2 * k + 1;
      var child1 := 2 * k + 2;
      if child0 >= size {
        SiftLeaf(a[..], node, k, size);
        break;
      }
      var maxChild;
      if child1 < size && a[child1] > a[child0] {
        maxChild := child1;
      } else {
        maxChild := child0;
      }
      if a[maxChild] > a[k] {
        ghost var before := a[..];
        a[k], a[maxChild] := a[maxChild], a[k];
        SiftSwap(before, node, k, size, maxChild, a[..]);
        KeptSwap(start, before, a[..], k, maxChild, size);
        k := maxChild;
      } else {
        SiftDone(a[..], node, k, size, maxChild);
        break;
      }
    }
  }

  // ---------------------------------------------------------------------------------------
  // _heapify

  /** No node at or after n / 2 has a child below n. */
  lemma LeavesHeap(s: seq<int>, n: nat)
    requires n <= |s|
    ensures HeapFrom(s, n / 2, n)
  {
  }

  /** `_heapify(arr)`: percolating down every internal node, last first, makes the whole array
      a max-heap with the same values. */
  method Heapify(a: array<int>)
    modifies a
    ensures HeapFrom(a[..], 0, a.Length)
    ensures multiset(a[..]) == multiset(old(a[..]))
  {
    var n := a.Length;
    var node := n / 2 - 1;
    LeavesHeap(a[..], n);
    while node >= 0
      invariant -1 <= node < n
      invariant HeapFrom(a[..], node + 1, n)
      invariant multiset(a[..]) == multiset(old(a[..]))
    {
      PercolateDown(a, node, n);
      node := node - 1;
    }
  }

  // ---------------------------------------------------------------------------------------
  // heap_sort

  /** From lo on, s is in non-decreasing order. */
  predicate SortedFrom(s: seq<int>, lo: nat) {
    forall x, y :: lo <= x < y < |s| ==> s[x] <= s[y]
  }

  /** No element of s[..hi] exceeds v. */
  predicate AtMost(s: seq<int>, hi: nat, v: int)
    requires hi <= |s|
  {
    forall x :: 0 <= x < hi ==> s[x] <= v
  }

  /** Before the iteration for i: s[..i+1] is a max-heap, s[i+1..] is sorted and holds the
      largest elements, none of the heap's exceeding its first. */
  predicate SortPhase(s: seq<int>, i: int)
    requires -1 <= i < |s|
  {
    HeapFrom(s, 0, i + 1) && SortedFrom(s, i + 1) && (i + 1 < |s| ==> AtMost(s, i + 1, s[i + 1]))
  }

  /** After the swap of the iteration for i: s[..i] is a heap but for its root, s[i..] is
      sorted, and nothing in s[..i] exceeds s[i]. */
  predicate Swapped(s: seq<int>, i: nat)
    requires i < |s|
  {
    HeapFrom(s, 1, i) && SortedFrom(s, i) && AtMost(s, i, s[i])
  }

  lemma PhaseStart(s: seq<int>)
    requires HeapFrom(s, 0, |s|)
    ensures SortPhase(s, |s| - 1)
  {
  }

  /** `arr[0], arr[i] = arr[i], arr[0]` moves the heap's largest element to the front of the
      sorted part. */
  lemma SwapRoot(s: seq<int>, i: nat, s': seq<int>)
    requires 0 < i < |s| && SortPhase(s, i)
    requires s' == s[0 := s[i]][i := s[0]]
    ensures Swapped(s', i)
  {
    HeapMax(s, i + 1);
    forall c | 0 < c < i && 1 <= Parent(c)
      ensures s'[Parent(c)] >= s'[c]
    {
      assert s'[c] == s[c] && s'[Parent(c)] == s[Parent(c)];
    }
    forall x, y | i <= x < y < |s'|
      ensures s'[x] <= s'[y]
    {
      if x == i {
        assert s[0] <= s[i + 1];
        assert s'[y] == s[y];
      } else {
        assert s'[x] == s[x] && s'[y] == s[y];
      }
    }
    forall x | 0 <= x < i
      ensures s'[x] <= s'[i]
    {
      if x != 0 {
        assert s'[x] == s[x];
      }
    }
  }

  /** Values of t all come from s, so a bound on s bounds t. */
  lemma AtMostPerm(s: seq<int>, t: seq<int>, v: int)
    requires multiset(s) == multiset(t) && AtMost(s, |s|, v)
    ensures AtMost(t, |t|, v)
  {
    forall x | 0 <= x < |t|
      ensures t[x] <= v
    {
      assert t[x] in multiset(s);
    }
  }

  /** `_percolate_down(arr, 0, i)` after the swap gives the state before the iteration for
      i - 1. */
  lemma Repaired(s: seq<int>, i: nat, s': seq<int>)
    requires 0 < i < |s| && Swapped(s, i) && Kept(s, s', i) && HeapFrom(s', 0, i)
    ensures SortPhase(s', i - 1)
  {
    assert AtMost(s[..i], i, s[i]) by {
      forall x | 0 <= x < i
        ensures s[..i][x] <= s[i]
      {
        assert s[..i][x] == s[x];
      }
    }
    AtMostPerm(s[..i], s'[..i], s[i]);
    forall x | 0 <= x < i
      ensures s'[x] <= s'[i]
    {
      assert s'[x] == s'[..i][x];
    }
    forall x, y | i <= x < y < |s'|
      ensures s'[x] <= s'[y]
    {
      assert s'[x] == s[x] && s'[y] == s[y];
    }
  }

  lemma PhaseDone(s: seq<int>, i: int)
    requires -1 <= i <= 0 && i < |s| && SortPhase(s, i)
    ensures Sorted(s)
  {
    if |s| > 0 {
      forall x, y | 0 <= x < y < |s|
        ensures s[x] <= s[y]
      {
        if x == 0 {
          assert s[0] <= s[1];
        }
      }
    }
  }

  /** An array of at most one element has no other arrangement of its values. */
  lemma ShortPerm(s: seq<int>, t: seq<int>)
    requires |s| <= 1 && multiset(s) == multiset(t)
    ensures s == t
  {
    assert |t| == |multiset(t)| == |multiset(s)| == |s|;
    if |s| == 1 {
      assert t[0] in multiset(s);
    }
  }

  /** `heap_sort(arr)`: afterwards the array is in non-decreasing order and holds the values it
      held before; arrays of zero or one element are unchanged. */
  method HeapSort(a: array<int>)
    modifies a
    ensures Sorted(a[..])
    ensures multiset(a[..]) == multiset(old(a[..]))
    ensures a.Length <= 1 ==> a[..] == old(a[..])
  {
    var n := a.Length;
    Heapify(a);
    PhaseStart(a[..]);
    var i := n - 1;
    while i > 0
      invariant -1 <= i < n
      invariant SortPhase(a[..], i)
      invariant multiset(a[..]) == multiset(old(a[..]))
    {
      ghost var before := a[..];
      a[0], a[i] := a[i], a[0];
      SwapRoot(before, i, a[..]);
      ghost var swapped := a[..];
      PercolateDown(a, 0, i);
      Repaired(swapped, i, a[..]);
      i := i - 1;
    }
    PhaseDone(a[..], i);
    if n <= 1 {
      ShortPerm(old(a[..]), a[..]);
    }
  }
}
