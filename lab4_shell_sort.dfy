/** Shell sort over a caller-given increment sequence (lab4/sorting/shell_sort.py): one
    interleaved insertion sort per gap, largest gap first. The list of numbers is an array of
    integers sorted in place. */
module ShellSort {

  import opened Common

  /** Every element of s[..hi] from position gap on is at least the element gap places before
      it: the gap interleaved sub-lists of s[..hi] are each in non-decreasing order. */
  predicate GapSorted(s: seq<int>, gap: nat, hi: nat)
    requires hi <= |s|
  {
    forall j :: gap <= j < hi ==> s[j - gap] <= s[j]
  }

  /** Sorted with gap 1 is sorted. */
  lemma {:induction false} GapOneSorted(s: seq<int>)
    requires GapSorted(s, 1, |s|)
    ensures Sorted(s)
  {
    if |s| > 1 {
      var t := s[..|s| - 1];
      assert GapSorted(t, 1, |t|) by {
        forall j | 1 <= j < |t|
          ensures t[j - 1] <= t[j]
        {
          assert t[j - 1] == s[j - 1] && t[j] == s[j];
        }
      }
      GapOneSorted(t);
      forall i, j | 0 <= i < j < |s|
        ensures s[i] <= s[j]
      {
        assert s[i] == t[i];
        if j < |s| - 1 {
          assert s[j] == t[j];
        } else {
          assert s[j - 1] <= s[j];
          if i < j - 1 {
            assert t[i] <= t[j - 1];
          }
        }
      }
    }
  }

  /** Moving the value at q up into the hole at p and leaving the hole at q keeps the values
      the array would hold with x put into the hole. */
  lemma ShiftHole(s: seq<int>, p: nat, q: nat, x: int)
    requires p < |s| && q < |s| && p != q
    ensures multiset(s[p := s[q]][q := x]) == multiset(s[p := x])
  {
    var t := s[p := s[q]];
    assert t[q] == s[q];
    assert multiset(t[q := x]) == multiset(t) - multiset{s[q]} + multiset{x};
    assert multiset(t) == multiset(s) - multiset{s[p]} + multiset{s[q]};
    assert multiset(s[p := x]) == multiset(s) - multiset{s[p]} + multiset{x};
  }

  /** The state of the inner `while` loop for iteration i: the value `current` has been taken
      out of the array, leaving a hole at `position`; putting `current` into the hole gives back
      the values the iteration started with, and nothing after i has moved. */
  predicate Hole(b: seq<int>, start: seq<int>, gap: nat, i: nat, position: nat, current: int) {
    && |b| == |start| && position <= i < |b|
    && HoleOrder(b, gap, i, position, current)
    && b[i + 1..] == start[i + 1..]
    && multiset(b[position := current]) == multiset(start)
  }

  /** Around the hole the prefix up to i is gap-sorted, and every value shifted past `current`
      is larger than it. */
  predicate HoleOrder(b: seq<int>, gap: nat, i: nat, position: nat, current: int)
    requires position <= i < |b|
  {
    && (gap == 0 ==> position == i && b[position] == current)
    && (forall j :: gap <= j <= i && j != position && j - gap != position ==> b[j - gap] <= b[j])
    && (position >= gap && position + gap <= i ==> b[position - gap] <= b[position + gap])
    && (0 < gap && position + gap <= i ==> current < b[position + gap])
  }

  /** Taking out `arr[i]` from a prefix gap-sorted up to i leaves the hole at i. */
  lemma HoleStart(s: seq<int>, gap: nat, i: nat)
    requires gap <= i < |s| && GapSorted(s, gap, i)
    ensures Hole(s, s, gap, i, i, s[i])
  {
    assert s[i := s[i]] == s;
  }

  /** `arr[position] = arr[position - gap]; position = position - gap` moves the hole down one
      gap when the element there is larger than `current`. */
  lemma HoleShift(b: seq<int>, start: seq<int>, gap: nat, i: nat, position: nat, current: int, b': seq<int>)
    requires Hole(b, start, gap, i, position, current)
    requires position >= gap && b[position - gap] > current
    requires b' == b[position := b[position - gap]]
    ensures 0 < gap
    ensures Hole(b', start, gap, i, position - gap, current)
  {
    ShiftHole(b, position, position - gap, current);
    assert b'[i + 1..] == b[i + 1..];
    HoleOrderShift(b, gap, i, position, current);
  }

  lemma HoleOrderShift(b: seq<int>, gap: nat, i: nat, position: nat, current: int)
    requires position <= i < |b| && HoleOrder(b, gap, i, position, current)
    requires position >= gap && b[position - gap] > current
    ensures 0 < gap
    ensures HoleOrder(b[position := b[position - gap]], gap, i, position - gap, current)
  {
    var b' := b[position := b[position - gap]];
    var p' := position - gap;
    forall j | gap <= j <= i && j != p' && j - gap != p'
      ensures b'[j - gap] <= b'[j]
    {
      if j == position + gap {
        assert b'[j - gap] == b[position - gap];
      } else {
        assert b'[j] == b[j] && b'[j - gap] == b[j - gap];
      }
    }
  }

  /** `arr[position] = current` once the loop stops fills the hole: the prefix up to i is
      gap-sorted and holds the values it started with. */
  lemma HoleFill(b: seq<int>, start: seq<int>, gap: nat, i: nat, position: nat, current: int, b': seq<int>)
    requires Hole(b, start, gap, i, position, current)
    requires !(position >= gap && b[position - gap] > current)
    requires b' == b[position := current]
    ensures GapSorted(b', gap, i + 1)
    ensures multiset(b') == multiset(start)
    ensures forall j :: i < j < |b'| ==> b'[j] == start[j]
  {
    assert b'[i + 1..] == b[i + 1..];
    assert forall j :: i < j < |b'| ==> b'[j] == b'[i + 1..][j - i - 1];
    forall j | gap <= j < i + 1
      ensures b'[j - gap] <= b'[j]
    {
      if j == position || j - gap == position {
      } else {
        assert b'[j] == b[j] && b'[j - gap] == b[j - gap];
      }
    }
  }

  /** One iteration i of the `for` loop of `_insertion_sort_interleaved`: `arr[i]` is taken out
      and the larger elements gap, 2 gap, ... places before it shift up one gap until its slot
      is found. The prefix up to i stays gap-sorted, the values are the same, and nothing after
      position i is touched. */
  method InsertInterleaved(a: array<int>, gap: nat, i: nat)
    requires gap <= i < a.Length && GapSorted(a[..], gap, i)
    modifies a
    ensures GapSorted(a[..], gap, i + 1)
    ensures multiset(a[..]) == multiset(old(a[..]))
    ensures forall j :: i < j < a.Length ==> a[j] == old(a[j])
  {
    ghost var start := a[..];
    var current := a[i];
    var position: nat := i;
    HoleStart(start, gap, i);
    // The invariants are Hole(a[..], start, gap, i, position, current), conjunct by conjunct.
    while position >= gap && a[position - gap] > current
      invariant |a[..]| == |start| && position <= i < a.Length
      invariant HoleOrder(a[..], gap, i, position, current)
      invariant a[..][i + 1..] == start[i + 1..]
      invariant multiset(a[..][position := current]) == multiset(start)
      decreases position
    {
      ghost var before := a[..];
      a[position] := a[position - gap];
      HoleShift(before, start, gap, i, position, current, a[..]);
      position := position - gap;
    }
    ghost var before := a[..];
    a[position] := current;
    HoleFill(before, start, gap, i, position, current, a[..]);
  }

  /** `_insertion_sort_interleaved(arr, gap)`: afterwards every interleaved sub-list is in
      order, the array holds the same values, and a gap at least the length changes nothing. */
  method InsertionSortInterleaved(a: array<int>, gap: nat)
    modifies a
    ensures GapSorted(a[..], gap, a.Length)
    ensures multiset(a[..]) == multiset(old(a[..]))
    ensures gap >= a.Length ==> a[..] == old(a[..])
  {
    var i := gap;
    while i < a.Length
      invariant gap <= i && (gap < a.Length ==> i <= a.Length)
      invariant GapSorted(a[..], gap, if i <= a.Length then i else a.Length)
      invariant multiset(a[..]) == multiset(old(a[..]))
      invariant gap >= a.Length ==> a[..] == old(a[..])
    {
      InsertInterleaved(a, gap, i);
      i := i + 1;
    }
  }

  /** `shell_sort(arr, increments)`: the gaps are taken from the last increment to the first.
      The array ends as a permutation of its old values that is gap-sorted for the first
      increment, so sorted when that increment is 1; no increments change nothing. */
  method ShellSort(a: array<int>, increments: seq<nat>)
    modifies a
    ensures multiset(a[..]) == multiset(old(a[..]))
    ensures increments == [] ==> a[..] == old(a[..])
    ensures increments != [] ==> GapSorted(a[..], increments[0], a.Length)
    ensures increments != [] && increments[0] == 1 ==> Sorted(a[..])
  {
    var k := |increments|;
    while k > 0
      invariant 0 <= k <= |increments|
      invariant multiset(a[..]) == multiset(old(a[..]))
      invariant k == |increments| ==> a[..] == old(a[..])
      invariant k < |increments| ==> GapSorted(a[..], increments[k], a.Length)
    {
      k := k - 1;
      InsertionSortInterleaved(a, increments[k]);
    }
    if increments != [] && increments[0] == 1 {
      GapOneSorted(a[..]);
    }
  }
}
