/** Huffman coding over the binary tree (lab3/huffman_tree.py): greedy bottom-up construction
    from a frequency table, the code map derived by recursion, encoding and decoding. */
module Huffman {
  import opened Common
  import opened HuffmanNode
  import opened HuffmanQueue
  import opened BinaryTrees

  // ---------------------------------------------------------------------------------------
  // "".join(sorted(s)): the characters of a string in code-point order

  predicate SortedStr(s: string) {
    forall i, j :: 0 <= i < j < |s| ==> s[i] <= s[j]
  }

  function InsertChar(c: char, s: string): (r: string)
    requires SortedStr(s)
    ensures SortedStr(r)
    ensures multiset(r) == multiset(s) + multiset{c}
    ensures |r| == |s| + 1
  {
    if s == [] then [c]
    else if c <= s[0] then [c] + s
    else
      var rest := InsertChar(c, s[1..]);
      assert SortedStr([s[0]] + rest) by {
        AllAtLeast(s[0], rest, s[1..] + [c]);
      }
      assert multiset([s[0]] + rest) == multiset(s) + multiset{c} by {
        assert s == [s[0]] + s[1..];
      }
      [s[0]] + rest
  }

  /** A string with the characters of one whose characters are all at least x has only
      characters at least x. */
  lemma AllAtLeast(x: char, a: string, b: string)
    requires multiset(a) == multiset(b)
    requires forall i :: 0 <= i < |b| ==> x <= b[i]
    ensures forall i :: 0 <= i < |a| ==> x <= a[i]
  {
    forall i | 0 <= i < |a|
      ensures x <= a[i]
    {
      assert a[i] in multiset(b);
    }
  }

  /** `"".join(sorted(s))`: an ordered rearrangement of the characters of s. */
  function SortChars(s: string): (r: string)
    ensures SortedStr(r)
    ensures multiset(r) == multiset(s)
    ensures |r| == |s|
  {
    if s == [] then []
    else
      assert s == [s[0]] + s[1..];
      InsertChar(s[0], SortChars(s[1..]))
  }

  /** A sorted string is determined by its characters, so SortChars(s) is the one sorted
      rearrangement of s. */
  lemma {:induction false} SortedUnique(a: string, b: string)
    requires SortedStr(a) && SortedStr(b) && multiset(a) == multiset(b)
    ensures a == b
    decreases |a|
  {
    if a != [] {
      SortedHeads(a, b);
      SortedHeads(b, a);
      var x := a[0];
      DropHead(a);
      DropHead(b);
      SortedUnique(a[1..], b[1..]);
      assert a == [x] + a[1..] && b == [x] + b[1..];
    }
  }

  /** The tail of a sorted string is sorted and holds its characters but the first. */
  lemma DropHead(a: string)
    requires SortedStr(a) && a != []
    ensures SortedStr(a[1..])
    ensures multiset(a[1..]) == multiset(a) - multiset{a[0]}
  {
    assert a == [a[0]] + a[1..];
  }

  /** The first character of a sorted string is its least character. */
  lemma SortedHeads(a: string, b: string)
    requires SortedStr(b) && multiset(a) == multiset(b) && a != []
    ensures b != [] && b[0] <= a[0]
  {
    assert a[0] in multiset(b) by {
      assert a[0] in multiset(a);
    }
    var i :| 0 <= i < |b| && b[i] == a[0];
    if i > 0 {
      assert b[0] <= b[i];
    }
  }

  // ---------------------------------------------------------------------------------------
  // The shape of the trees the merge loop builds

  /** Every node is a leaf or has two children; an internal node weighs what its children weigh
      together and carries the sorted concatenation of their symbols. */
  predicate Built(t: Tree) {
    match t
    case Nil => false
    case Node(sym, w, l, r) =>
      (l == Nil && r == Nil) ||
      (Built(l) && Built(r) && w == l.weight + r.weight && sym == SortChars(l.symbol + r.symbol))
  }

  /** The leaves of t from left to right. */
  function LeafSeq(t: Tree): (s: seq<Node>)
    ensures forall x :: x in s ==> IsLeaf(x)
  {
    match t
    case Nil => []
    case Node(_, _, l, r) => if l == Nil && r == Nil then [t] else LeafSeq(l) + LeafSeq(r)
  }

  /** The leaf symbols of t. */
  function LeafSymbols(t: Tree): set<string> {
    set x | x in LeafSeq(t) :: x.symbol
  }

  /** The leaves `_build_tree` starts from: one `Node(symbol, weight)` per table entry. */
  function TableLeaves(table: map<string, int>): set<Node> {
    set k | k in table :: NewNode(k, table[k])
  }

  /** The sum of the leaf weights. */
  function LeafWeight(s: seq<Node>): int {
    if s == [] then 0 else s[0].weight + LeafWeight(s[1..])
  }

  /** A merged tree weighs what its leaves weigh together, and a full binary tree with n leaves
      has 2n - 1 nodes, so n leaves take n - 1 merges. */
  lemma {:induction false} BuiltShape(t: Tree)
    requires Built(t)
    ensures t.weight == LeafWeight(LeafSeq(t))
    ensures CountNodes(t) == 2 * |LeafSeq(t)| - 1
  {
    if !(t.left == Nil && t.right == Nil) {
      BuiltShape(t.left);
      BuiltShape(t.right);
      LeafWeightAppend(LeafSeq(t.left), LeafSeq(t.right));
    }
  }

  lemma {:induction false} LeafWeightAppend(a: seq<Node>, b: seq<Node>)
    ensures LeafWeight(a + b) == LeafWeight(a) + LeafWeight(b)
  {
    if a == [] {
      assert a + b == b;
    } else {
      assert (a + b)[0] == a[0];
      assert (a + b)[1..] == a[1..] + b;
      LeafWeightAppend(a[1..], b);
    }
  }

  // ---------------------------------------------------------------------------------------
  // The forest held by the priority queue while the tree is built

  /** The leaves of every tree of the forest, tree after tree. */
  function Flat(f: seq<Node>): seq<Node> {
    if f == [] then [] else LeafSeq(f[0]) + Flat(f[1..])
  }

  function RootWeights(f: seq<Node>): int {
    if f == [] then 0 else f[0].weight + RootWeights(f[1..])
  }

  function NodeCounts(f: seq<Node>): int {
    if f == [] then 0 else CountNodes(f[0]) + NodeCounts(f[1..])
  }

  /** The root symbols of the forest, one after another. */
  function Chars(f: seq<Node>): string {
    if f == [] then [] else f[0].symbol + Chars(f[1..])
  }

  /** Every root symbol is non-empty and no character occurs twice among the root symbols, as
      in a forest built from single-letter keys: the trees' letters are disjoint. */
  ghost predicate Disjoint(f: seq<Node>) {
    (forall x :: x in f ==> x.symbol != []) && forall c :: multiset(Chars(f))[c] <= 1
  }

  /** f without the first occurrence of x. */
  function Remove(f: seq<Node>, x: Node): (g: seq<Node>)
    requires x in f
    ensures |g| == |f| - 1
    ensures multiset(g) == multiset(f) - multiset{x}
  {
    assert f == [f[0]] + f[1..];
    if f[0] == x then f[1..] else [f[0]] + Remove(f[1..], x)
  }

  /** Every tree of the forest is a merged tree. */
  predicate AllBuilt(f: seq<Node>) {
    f == [] || (Built(f[0]) && AllBuilt(f[1..]))
  }

  /** Taking a tree out of the forest takes out its leaves, its weight and its nodes. */
  lemma {:induction false} RemoveTotals(f: seq<Node>, x: Node)
    requires x in f
    ensures multiset(Flat(f)) == multiset(Flat(Remove(f, x))) + multiset(LeafSeq(x))
    ensures RootWeights(f) == RootWeights(Remove(f, x)) + x.weight
    ensures NodeCounts(f) == NodeCounts(Remove(f, x)) + CountNodes(x)
    ensures AllBuilt(f) ==> AllBuilt(Remove(f, x)) && Built(x)
  {
    if f[0] != x {
      RemoveTotals(f[1..], x);
      var g := [f[0]] + Remove(f[1..], x);
      assert g[1..] == Remove(f[1..], x);
    }
  }

  /** Adding a tree to the forest adds its leaves, its weight and its nodes. */
  lemma {:induction false} AppendTotals(f: seq<Node>, x: Node)
    ensures multiset(Flat(f + [x])) == multiset(Flat(f)) + multiset(LeafSeq(x))
    ensures RootWeights(f + [x]) == RootWeights(f) + x.weight
    ensures NodeCounts(f + [x]) == NodeCounts(f) + CountNodes(x)
    ensures AllBuilt(f + [x]) <==> AllBuilt(f) && Built(x)
  {
    if f == [] {
      assert [x][1..] == [];
    } else {
      assert (f + [x])[1..] == f[1..] + [x];
      AppendTotals(f[1..], x);
    }
  }

  /** Taking a tree out of the forest takes its symbol's characters out of the root symbols. */
  lemma {:induction false} RemoveChars(f: seq<Node>, x: Node)
    requires x in f
    ensures multiset(Chars(f)) == multiset(Chars(Remove(f, x))) + multiset(x.symbol)
  {
    if f[0] != x {
      RemoveChars(f[1..], x);
      var g := [f[0]] + Remove(f[1..], x);
      assert g[1..] == Remove(f[1..], x);
    }
  }

  /** Adding a tree to the forest adds its symbol's characters. */
  lemma {:induction false} AppendChars(f: seq<Node>, x: Node)
    ensures multiset(Chars(f + [x])) == multiset(Chars(f)) + multiset(x.symbol)
  {
    if f == [] {
      assert [x][1..] == [];
    } else {
      assert (f + [x])[1..] == f[1..] + [x];
      AppendChars(f[1..], x);
    }
  }

  /** The leaves of a table's entries, counted entry by entry. */
  ghost function TableBag(m: map<string, int>): multiset<Node>
    decreases |m|
  {
    if |m| == 0 then multiset{}
    else
      var k := AnyKey(m);
      multiset{NewNode(k, m[k])} + TableBag(m - {k})
  }

  lemma {:induction false} TableBagRemove(m: map<string, int>, k: string)
    requires k in m
    ensures TableBag(m) == multiset{NewNode(k, m[k])} + TableBag(m - {k})
    decreases |m|
  {
    var j := AnyKey(m);
    if j != k {
      var mj, mk := m - {j}, m - {k};
      var x := mj - {k};
      assert mk - {j} == x;
      var nj, nk := NewNode(j, m[j]), NewNode(k, m[k]);
      assert mj[k] == m[k] && mk[j] == m[j];
      TableBagRemove(mj, k);
      TableBagRemove(mk, j);
      SwapFirst(TableBag(m), TableBag(mj), TableBag(mk), TableBag(x), nj, nk);
    }
  }

  /** Taking j then k out of a bag leaves what taking k then j out leaves. */
  lemma SwapFirst(b: multiset<Node>, bj: multiset<Node>, bk: multiset<Node>, rest: multiset<Node>, nj: Node, nk: Node)
    requires b == multiset{nj} + bj && bj == multiset{nk} + rest && bk == multiset{nj} + rest
    ensures b == multiset{nk} + bk
  {
  }

  /** Counted entry by entry, the leaves are exactly one `Node(symbol, weight)` per entry. */
  lemma {:induction false} TableBagLeaves(m: map<string, int>)
    ensures TableBag(m) == multiset(TableLeaves(m))
    decreases |m|
  {
    if |m| > 0 {
      var k := AnyKey(m);
      var rest := m - {k};
      TableBagLeaves(rest);
      TableLeavesInsert(rest, k, m[k]);
      assert rest[k := m[k]] == m;
    }
  }

  /** The leaves of the entries seen so far grow by one leaf per new key. */
  lemma TableLeavesInsert(done: map<string, int>, k: string, w: int)
    requires k !in done
    ensures multiset(TableLeaves(done[k := w])) == multiset(TableLeaves(done)) + multiset{NewNode(k, w)}
  {
    var before, after := TableLeaves(done), TableLeaves(done[k := w]);
    assert NewNode(k, w) !in before;
    forall x | x in after
      ensures x in before || x == NewNode(k, w)
    {
      var j :| j in done[k := w] && x == NewNode(j, done[k := w][j]);
      if j != k {
        assert x == NewNode(j, done[j]);
      }
    }
    forall x | x in before
      ensures x in after
    {
      var j :| j in done && x == NewNode(j, done[j]);
      assert x == NewNode(j, done[k := w][j]);
    }
    assert NewNode(k, done[k := w][k]) in after;
    assert after == before + {NewNode(k, w)};
  }

  /** The parent node a merge creates: `Node("".join(sorted(l.symbol + r.symbol)),
      l.weight + r.weight)` with `l` and `r` as its children. */
  function Merge(l: Node, r: Node): (p: Node)
    ensures p.left == l && p.right == r && !IsLeaf(p)
    ensures p.weight == l.weight + r.weight
    ensures SortedStr(p.symbol) && multiset(p.symbol) == multiset(l.symbol) + multiset(r.symbol)
  {
    Node(SortChars(l.symbol + r.symbol), l.weight + r.weight, l, r)
  }

  /** The queue's forest accounts for the entries of `table`: its leaves are their leaves, every
      tree is a merged tree, its weight is theirs, and each merge so far has added one node. */
  ghost predicate ForestOf(f: seq<Node>, table: map<string, int>) {
    && multiset(Flat(f)) == TableBag(table)
    && AllBuilt(f)
    && RootWeights(f) == TableWeight(table)
    && NodeCounts(f) + |f| == 2 * |table|
  }

  /** Pushing the leaf of a new entry keeps the forest accounted for. */
  lemma AddLeaf(f: seq<Node>, done: map<string, int>, k: string, w: int)
    requires ForestOf(f, done) && k !in done
    ensures ForestOf(f + [NewNode(k, w)], done[k := w])
  {
    var leaf := NewNode(k, w);
    AppendTotals(f, leaf);
    assert LeafSeq(leaf) == [leaf];
    NewEntry(done, k, w);
  }

  /** A new entry adds its leaf and its weight to the table's totals. */
  lemma NewEntry(done: map<string, int>, k: string, w: int)
    requires k !in done
    ensures TableBag(done[k := w]) == TableBag(done) + multiset{NewNode(k, w)}
    ensures TableWeight(done[k := w]) == TableWeight(done) + w
    ensures |done[k := w]| == |done| + 1
  {
    TableBagRemove(done[k := w], k);
    TableWeightRemove(done[k := w], k);
    assert done[k := w] - {k} == done;
  }

  /** Replacing two trees of the forest by their merge keeps the forest accounted for. */
  lemma MergeTrees(f: seq<Node>, table: map<string, int>, l: Node, r: Node)
    requires ForestOf(f, table) && l in f && r in Remove(f, l)
    ensures ForestOf(Remove(Remove(f, l), r) + [Merge(l, r)], table)
  {
    MergeLeaves(f, l, r);
    MergeTotals(f, l, r);
  }

  /** A merge moves the leaves of its two trees under the new parent. */
  lemma MergeLeaves(f: seq<Node>, l: Node, r: Node)
    requires l in f && r in Remove(f, l)
    ensures multiset(Flat(Remove(Remove(f, l), r) + [Merge(l, r)])) == multiset(Flat(f))
  {
    var g := Remove(f, l);
    var h := Remove(g, r);
    var p := Merge(l, r);
    RemoveTotals(f, l);
    RemoveTotals(g, r);
    AppendTotals(h, p);
    assert LeafSeq(p) == LeafSeq(l) + LeafSeq(r);
  }

  /** A merge keeps the forest's weight and adds one node while removing one tree. */
  lemma MergeTotals(f: seq<Node>, l: Node, r: Node)
    requires l in f && r in Remove(f, l)
    ensures RootWeights(Remove(Remove(f, l), r) + [Merge(l, r)]) == RootWeights(f)
    ensures NodeCounts(Remove(Remove(f, l), r) + [Merge(l, r)]) == NodeCounts(f) + 1
    ensures AllBuilt(f) ==> AllBuilt(Remove(Remove(f, l), r) + [Merge(l, r)])
  {
    var g := Remove(f, l);
    var h := Remove(g, r);
    var p := Merge(l, r);
    RemoveTotals(f, l);
    RemoveTotals(g, r);
    AppendTotals(h, p);
    MergeShape(l, r);
  }

  /** The parent a merge creates counts its children's nodes plus itself, and is a merged tree
      when they are. */
  lemma MergeShape(l: Node, r: Node)
    ensures CountNodes(Merge(l, r)) == CountNodes(l) + CountNodes(r) + 1
    ensures Built(l) && Built(r) ==> Built(Merge(l, r))
  {
  }

  /** In a forest whose trees' letters are disjoint, no two different trees share a symbol. */
  lemma DisjointSymbols(f: seq<Node>)
    requires Disjoint(f)
    ensures SymbolsDistinct(multiset(f))
  {
    forall x, y | x in multiset(f) && y in multiset(f) && x != y
      ensures x.symbol != y.symbol
    {
      TwoTrees(f, x, y);
      var c := x.symbol[0];
      assert multiset(x.symbol)[c] >= 1;
      assert multiset(y.symbol)[c] == 0;
    }
  }

  /** Two different trees of the forest contribute their characters separately. */
  lemma TwoTrees(f: seq<Node>, x: Node, y: Node)
    requires x in multiset(f) && y in multiset(f) && x != y
    ensures forall c :: multiset(Chars(f))[c] >= multiset(x.symbol)[c] + multiset(y.symbol)[c]
    ensures x in f
  {
    RemoveChars(f, x);
    assert y in multiset(Remove(f, x));
    RemoveChars(Remove(f, x), y);
  }

  /** A merge keeps the trees' letters disjoint: the parent's symbol holds exactly the letters of
      its children's symbols. */
  lemma MergeKeepsDisjoint(f: seq<Node>, l: Node, r: Node)
    requires Disjoint(f) && l in f && r in Remove(f, l)
    ensures Disjoint(Remove(Remove(f, l), r) + [Merge(l, r)])
  {
    MergeChars(f, l, r);
    MergeNonEmpty(f, l, r);
  }

  /** A merge keeps every symbol non-empty. */
  lemma MergeNonEmpty(f: seq<Node>, l: Node, r: Node)
    requires forall x :: x in f ==> x.symbol != []
    requires l in f && r in Remove(f, l)
    ensures forall x :: x in Remove(Remove(f, l), r) + [Merge(l, r)] ==> x.symbol != []
  {
    var g := Remove(f, l);
    var h := Remove(g, r);
    var p := Merge(l, r);
    assert p.symbol != [] by {
      assert l.symbol[0] in multiset(p.symbol);
    }
    forall x | x in h + [p]
      ensures x.symbol != []
    {
      if x != p {
        assert x in multiset(h);
        assert x in multiset(g);
        assert x in multiset(f);
      }
    }
  }

  /** The parent's symbol holds exactly its children's characters. */
  lemma MergeChars(f: seq<Node>, l: Node, r: Node)
    requires l in f && r in Remove(f, l)
    ensures multiset(Chars(Remove(Remove(f, l), r) + [Merge(l, r)])) == multiset(Chars(f))
  {
    var g := Remove(f, l);
    RemoveChars(f, l);
    RemoveChars(g, r);
    AppendChars(Remove(g, r), Merge(l, r));
  }

  // ---------------------------------------------------------------------------------------
  // The tree the merge loop builds, as a function of the queue's contents

  /** What the merge loop of `_build_tree` and its final pop leave from a queue holding s: while
      more than one node is queued, a minimum is popped as the left child, a minimum of the rest
      as the right child, and their parent pushed; the last node is the root, and an empty
      queue gives None. */
  ghost function Greedy(s: multiset<Node>): (t: Tree)
    ensures t == Nil <==> s == multiset{}
    ensures |s| == 1 ==> t in s
    decreases |s|
  {
    if s == multiset{} then Nil
    else
      var l := PickMinimum(s);
      if |s| == 1 then l
      else
        var rest := s - multiset{l};
        assert |rest| == |s| - 1;
        var r := PickMinimum(rest);
        assert |rest - multiset{r}| == |s| - 2;
        Greedy(rest - multiset{r} + multiset{Merge(l, r)})
  }

  /** The Huffman tree `_build_tree` returns for a table. */
  ghost function HuffmanOf(table: map<string, int>): Tree {
    Greedy(multiset(TableLeaves(table)))
  }

  /** Every key is a single character, as in the tables the frequency counter produces. */
  predicate SingleLetterKeys(table: map<string, int>) {
    forall k :: k in table ==> |k| == 1
  }

  /** When the queue's symbols are distinct, popping the minimum twice and pushing the merge is
      the step Greedy takes. */
  lemma GreedyStep(s: multiset<Node>, l: Node, r: Node)
    requires SymbolsDistinct(s) && |s| > 1
    requires IsMinimum(l, s) && IsMinimum(r, s - multiset{l})
    ensures Greedy(s) == Greedy(s - multiset{l} - multiset{r} + multiset{Merge(l, r)})
  {
    MinimumIsUnique(PickMinimum(s), l, s);
    var rest := s - multiset{l};
    assert SymbolsDistinct(rest) by {
      forall x | x in rest
        ensures x in s
      {
      }
    }
    MinimumIsUnique(PickMinimum(rest), r, rest);
  }

  /** The last node of the queue is the root. */
  lemma GreedyLast(s: multiset<Node>, m: Node)
    requires |s| == 1 && m in s
    ensures Greedy(s) == m
  {
    assert s == multiset{m} by {
      assert |s - multiset{m}| == 0;
    }
  }

  /** A forest of one tree accounts for the table through that tree alone. */
  lemma LastTree(forest: seq<Node>, root: Node, table: map<string, int>)
    requires ForestOf(forest, table) && multiset(forest) == multiset{root}
    ensures Built(root)
    ensures multiset(LeafSeq(root)) == multiset(TableLeaves(table))
    ensures root.weight == TableWeight(table)
    ensures CountNodes(root) == 2 * |table| - 1
  {
    assert forest == [root] by {
      assert |forest| == 1 && forest[0] in multiset(forest);
    }
    OneTree(root, table);
  }

  lemma OneTree(root: Node, table: map<string, int>)
    requires ForestOf([root], table)
    ensures Built(root)
    ensures multiset(LeafSeq(root)) == multiset(TableLeaves(table))
    ensures root.weight == TableWeight(table)
    ensures CountNodes(root) == 2 * |table| - 1
  {
    SingleForest(root);
    TableBagLeaves(table);
  }

  /** A forest of one tree has that tree's leaves, weight and nodes. */
  lemma SingleForest(root: Node)
    ensures Flat([root]) == LeafSeq(root)
    ensures RootWeights([root]) == root.weight
    ensures NodeCounts([root]) == CountNodes(root)
    ensures AllBuilt([root]) <==> Built(root)
  {
    assert [root][1..] == [];
  }

  /** `done` holds the entries of `table` whose keys are no longer in `keys`. */
  ghost predicate SplitTable(done: map<string, int>, keys: set<string>, table: map<string, int>) {
    keys <= table.Keys && done.Keys == table.Keys - keys &&
    forall k :: k in done ==> done[k] == table[k]
  }

  lemma SplitStep(done: map<string, int>, keys: set<string>, table: map<string, int>, k: string)
    requires SplitTable(done, keys, table) && k in keys
    ensures k !in done
    ensures SplitTable(done[k := table[k]], keys - {k}, table)
  {
  }

  lemma SplitDone(done: map<string, int>, table: map<string, int>)
    requires SplitTable(done, {}, table)
    ensures done == table
  {
    assert done.Keys == table.Keys;
  }

  /** The `for symbol, weight in frequency_table.items()` loop of `_build_tree`: one leaf
      per entry goes into the queue. */
  method PushLeaves(pq: PriorityQueue, table: map<string, int>) returns (ghost forest: seq<Node>)
    requires pq.heap == multiset{}
    modifies pq
    ensures pq.heap == multiset(forest) == multiset(TableLeaves(table))
    ensures ForestOf(forest, table) && |forest| == |table|
    ensures SingleLetterKeys(table) ==> Disjoint(forest)
  {
    forest := [];
    ghost var done: map<string, int> := map[];
    var keys := table.Keys;
    while keys != {}
      invariant SplitTable(done, keys, table)
      invariant pq.heap == multiset(forest) == TableBag(done)
      invariant ForestOf(forest, done) && |forest| == |done|
      invariant SingleLetterKeys(table) ==> LettersOfKeys(forest, done)
      decreases keys
    {
      var k :| k in keys;
      var leaf := NewNode(k, table[k]);
      pq.Push(leaf);
      SplitStep(done, keys, table, k);
      AddLeaf(forest, done, k, table[k]);
      NewEntry(done, k, table[k]);
      if SingleLetterKeys(table) {
        AddLetter(forest, done, k, table[k]);
      }
      forest := forest + [leaf];
      done := done[k := table[k]];
      keys := keys - {k};
    }
    SplitDone(done, table);
    TableBagLeaves(table);
  }

  /** The forest is the leaves of the single-letter keys of `done`, so its letters are disjoint
      and each is a key. */
  ghost predicate LettersOfKeys(f: seq<Node>, done: map<string, int>) {
    Disjoint(f) && forall c :: c in multiset(Chars(f)) ==> [c] in done
  }

  /** The leaf of a new single-letter key adds a letter no tree has yet. */
  lemma AddLetter(f: seq<Node>, done: map<string, int>, k: string, w: int)
    requires LettersOfKeys(f, done) && k !in done && |k| == 1
    ensures LettersOfKeys(f + [NewNode(k, w)], done[k := w])
  {
    var leaf := NewNode(k, w);
    AppendChars(f, leaf);
    assert k == [k[0]];
    assert k[0] !in multiset(Chars(f));
    forall x | x in f + [leaf]
      ensures x.symbol != []
    {
      if x != leaf {
        assert x in f;
      }
    }
  }

  /** One round of the merge loop: pop a highest-priority node as `left`, then a highest-priority
      node of the rest as `right`, and push their parent. The forest in the queue stays
      accounted for and loses one tree. */
  method MergeLowestTwo(pq: PriorityQueue, ghost forest: seq<Node>, ghost table: map<string, int>)
    returns (left: Node, right: Node, ghost merged: seq<Node>)
    requires pq.Size() > 1
    requires pq.heap == multiset(forest) && ForestOf(forest, table)
    modifies pq
    ensures IsMinimum(left, old(pq.heap))
    ensures IsMinimum(right, old(pq.heap) - multiset{left})
    ensures pq.heap == old(pq.heap) - multiset{left} - multiset{right} + multiset{Merge(left, right)}
    ensures pq.heap == multiset(merged) && ForestOf(merged, table) && |merged| == |forest| - 1
    ensures Disjoint(forest) ==> Disjoint(merged)
  {
    var l := pq.Pop();
    var r := pq.Pop();
    left, right := l.value, r.value;
    var parent := Merge(left, right);
    pq.Push(parent);
    assert left in multiset(forest);
    assert right in multiset(Remove(forest, left));
    MergeTrees(forest, table, left, right);
    if Disjoint(forest) {
      MergeKeepsDisjoint(forest, left, right);
    }
    merged := Remove(Remove(forest, left), right) + [parent];
  }

  lemma EmptyTable(table: map<string, int>)
    requires |table| == 0
    ensures TableLeaves(table) == {}
  {
  }

  /** `_build_tree`: push one leaf per table entry, then merge the two highest-priority nodes
      until one remains. The result is None exactly for an empty table; otherwise it is a full
      tree whose leaves are the table's entries, whose weight is the table's total weight, and
      which took |table| - 1 merges. With single-letter keys the trees' symbols stay distinct,
      so every pop is determined and the tree is HuffmanOf(table), the same on every run. */
  method BuildTree(table: map<string, int>) returns (root: Tree)
    ensures root == Nil <==> |table| == 0
    ensures root != Nil ==> Built(root)
    ensures multiset(LeafSeq(root)) == multiset(TableLeaves(table))
    ensures root != Nil ==> root.weight == TableWeight(table)
    ensures CountNodes(root) == if |table| == 0 then 0 else 2 * |table| - 1
    ensures SingleLetterKeys(table) ==> root == HuffmanOf(table)
  {
    var pq := new PriorityQueue();
    ghost var forest := PushLeaves(pq, table);
    while pq.Size() > 1
      invariant pq.heap == multiset(forest)
      invariant ForestOf(forest, table)
      invariant |forest| == 0 <==> |table| == 0
      invariant SingleLetterKeys(table) ==> Disjoint(forest) && Greedy(pq.heap) == HuffmanOf(table)
      decreases |forest|
    {
      ghost var before := pq.heap;
      var left, right, merged := MergeLowestTwo(pq, forest, table);
      if SingleLetterKeys(table) {
        DisjointSymbols(forest);
        GreedyStep(before, left, right);
      }
      forest := merged;
    }
    root := TakeRoot(pq, forest, table);
  }

  /** The end of `_build_tree`: the one node left in the queue is the root, or None when the
      queue is empty. */
  method TakeRoot(pq: PriorityQueue, ghost forest: seq<Node>, ghost table: map<string, int>)
    returns (root: Tree)
    requires pq.Size() <= 1 && pq.heap == multiset(forest) && ForestOf(forest, table)
    requires |forest| == 0 <==> |table| == 0
    modifies pq
    ensures root == Nil <==> |table| == 0
    ensures root != Nil ==> Built(root)
    ensures multiset(LeafSeq(root)) == multiset(TableLeaves(table))
    ensures root != Nil ==> root.weight == TableWeight(table)
    ensures CountNodes(root) == if |table| == 0 then 0 else 2 * |table| - 1
    ensures root == Greedy(old(pq.heap))
  {
    root := Nil;
    if !pq.IsEmpty() {
      var last := pq.Pop();
      root := last.value;
      GreedyLast(old(pq.heap), root);
      LastTree(forest, root, table);
    } else {
      EmptyTable(table);
    }
  }
}
