/** The min-priority queue that drives Huffman tree construction (lab3/priority_queue.py).
    The heapq list is modelled by its contents, a multiset of nodes; `Pop` hands out a
    minimum under `Node.__lt__`, which is what heapq guarantees whatever its array layout. */
module HuffmanQueue {
  import opened Common
  import opened HuffmanNode

  /** m is in s and no node of s is `__lt__` m. */
  predicate IsMinimum(m: Node, s: multiset<Node>) {
    m in s && forall x :: x in s ==> !Less(x, m)
  }

  /** Every non-empty queue has a minimum, because `__lt__` is a strict order. */
  lemma {:induction false} MinimumExists(s: multiset<Node>)
    requires s != multiset{}
    ensures exists m :: IsMinimum(m, s)
    decreases |s|
  {
    var x :| x in s;
    var rest := s - multiset{x};
    if rest == multiset{} {
      LessAsymmetric(x, x);
      assert s == rest + multiset{x};
      assert IsMinimum(x, s);
    } else {
      MinimumExists(rest);
      var m :| IsMinimum(m, rest);
      if Less(x, m) {
        NewMinimum(x, m, s);
      } else {
        KeptMinimum(x, m, s);
      }
    }
  }

  /** A node below the minimum of the others is the minimum of all. */
  lemma NewMinimum(x: Node, m: Node, s: multiset<Node>)
    requires x in s && IsMinimum(m, s - multiset{x}) && Less(x, m)
    ensures IsMinimum(x, s)
  {
    forall y | y in s
      ensures !Less(y, x)
    {
      if y == x {
        LessAsymmetric(x, x);
      } else {
        assert y in s - multiset{x};
        if Less(y, x) {
          LessTransitive(y, x, m);
        }
      }
    }
  }

  /** A node not below the minimum of the others leaves that minimum the minimum of all. */
  lemma KeptMinimum(x: Node, m: Node, s: multiset<Node>)
    requires x in s && IsMinimum(m, s - multiset{x}) && !Less(x, m)
    ensures IsMinimum(m, s)
  {
    forall y | y in s
      ensures !Less(y, m)
    {
      if y != x {
        assert y in s - multiset{x};
      }
    }
  }

  /** Any two minima of a queue have the same weight and symbol; they may still differ in their
      children, so this alone does not fix which node `pop` returns. */
  lemma MinimumUnique(m1: Node, m2: Node, s: multiset<Node>)
    requires IsMinimum(m1, s) && IsMinimum(m2, s)
    ensures SameKey(m1, m2)
  {
    LessTotal(m1, m2);
  }

  /** No two different nodes of s carry the same symbol. */
  predicate SymbolsDistinct(s: multiset<Node>) {
    forall x, y :: x in s && y in s && x.symbol == y.symbol ==> x == y
  }

  /** When the queue's symbols are distinct its minimum is a single node, so the node `pop`
      returns is fixed by the queue's contents, whatever the layout of the heapq list. */
  lemma MinimumIsUnique(m1: Node, m2: Node, s: multiset<Node>)
    requires IsMinimum(m1, s) && IsMinimum(m2, s) && SymbolsDistinct(s)
    ensures m1 == m2
  {
    MinimumUnique(m1, m2, s);
  }

  /** A minimum of a non-empty queue, chosen once for each content. */
  ghost function PickMinimum(s: multiset<Node>): (m: Node)
    requires s != multiset{}
    ensures IsMinimum(m, s)
  {
    MinimumExists(s);
    var m :| IsMinimum(m, s); m
  }

  class PriorityQueue {
    /** The nodes held by the underlying heapq list. */
    var heap: multiset<Node>

    constructor()
      ensures heap == multiset{}
    {
      heap := multiset{};
    }

    /** `push`: adds exactly `node`. */
    method Push(node: Node)
      modifies this
      ensures heap == old(heap) + multiset{node}
      ensures Size() == old(Size()) + 1
    {
      heap := heap + multiset{node};
    }

    /** `pop`: None on an empty queue, otherwise removes and returns one minimum. */
    method Pop() returns (r: Option<Node>)
      modifies this
      ensures old(heap) == multiset{} ==> r == None && heap == old(heap)
      ensures old(heap) != multiset{} ==>
        r.Some? && IsMinimum(r.value, old(heap)) && heap == old(heap) - multiset{r.value}
      ensures old(heap) != multiset{} ==> Size() == old(Size()) - 1
    {
      if !IsEmpty() {
        MinimumExists(heap);
        var m :| IsMinimum(m, heap);
        heap := heap - multiset{m};
        return Some(m);
      }
      return None;
    }

    /** `is_empty`. */
    function IsEmpty(): (b: bool)
      reads this
      ensures b <==> Size() == 0
    {
      heap == multiset{}
    }

    /** `size`. */
    function Size(): (n: nat)
      reads this
      ensures n == 0 <==> heap == multiset{}
    {
      |heap|
    }
  }

  /** Every node of the sequence is `__lt__` every later one. */
  predicate StrictlyAscending(s: seq<Node>) {
    forall i, j :: 0 <= i < j < |s| ==> Less(s[i], s[j])
  }

  lemma {:induction false} AscendingFromNeighbours(s: seq<Node>)
    requires forall i :: 0 <= i < |s| - 1 ==> Less(s[i], s[i + 1])
    ensures StrictlyAscending(s)
    decreases |s|
  {
    if |s| > 1 {
      AscendingFromNeighbours(s[1..]);
      forall j | 1 < j < |s|
        ensures Less(s[0], s[j])
      {
        assert Less(s[1..][0], s[1..][j - 1]);
        LessTransitive(s[0], s[1], s[j]);
      }
    }
  }

  /** In a strictly ascending sequence the head of each suffix is the one and only minimum
      of that suffix's contents, and removing it leaves the next suffix. */
  lemma SortedMinimum(s: seq<Node>, k: nat, m: Node)
    requires StrictlyAscending(s) && k < |s|
    ensures IsMinimum(s[k], multiset(s[k..]))
    ensures IsMinimum(m, multiset(s[k..])) ==> m == s[k]
    ensures multiset(s[k..]) - multiset{s[k]} == multiset(s[k + 1..])
  {
    var ms := multiset(s[k..]);
    assert s[k..] == [s[k]] + s[k + 1..];
    forall x | x in ms
      ensures !Less(x, s[k])
    {
      var j :| k <= j < |s| && s[j] == x by {
        assert x in s[k..];
      }
      LessAsymmetric(s[k], x);
    }
    if IsMinimum(m, ms) {
      var j :| k <= j < |s| && s[j] == m by {
        assert m in s[k..];
      }
    }
  }

  /** Popping until the queue is empty hands the nodes out in ascending order. */
  method DrainInOrder(pq: PriorityQueue, ghost s: seq<Node>) returns (popped: seq<Node>)
    requires StrictlyAscending(s) && pq.heap == multiset(s)
    modifies pq
    ensures popped == s && pq.heap == multiset{}
  {
    popped := [];
    assert s[0..] == s;
    while !pq.IsEmpty()
      invariant |popped| <= |s|
      invariant forall i :: 0 <= i < |popped| ==> popped[i] == s[i]
      invariant pq.heap == multiset(s[|popped|..])
      decreases |pq.heap|
    {
      ghost var k := |popped|;
      var r := pq.Pop();
      SortedMinimum(s, k, r.value);
      popped := popped + [r.value];
    }
    assert s[|popped|..] == [] ==> |popped| == |s|;
  }

  /** The queue's test script pushes Z20, A10, V15, J15, MULTI15, Zebra15, Apple15 and B10;
      these nodes are strictly ascending in the order A, B, J, V, Apple, MULTI, Zebra, Z, so by
      `DrainInOrder` popping them until the queue is empty yields exactly that order. */
  lemma TestScriptOrder()
    ensures StrictlyAscending([NewNode("A", 10), NewNode("B", 10), NewNode("J", 15), NewNode("V", 15),
                               NewNode("Apple", 15), NewNode("MULTI", 15), NewNode("Zebra", 15), NewNode("Z", 20)])
  {
    var s := [NewNode("A", 10), NewNode("B", 10), NewNode("J", 15), NewNode("V", 15),
              NewNode("Apple", 15), NewNode("MULTI", 15), NewNode("Zebra", 15), NewNode("Z", 20)];
    assert Less(s[0], s[1]) && Less(s[1], s[2]) && Less(s[2], s[3]) && Less(s[3], s[4]);
    assert Less(s[4], s[5]) && Less(s[5], s[6]) && Less(s[6], s[7]);
    AscendingFromNeighbours(s);
  }
}
