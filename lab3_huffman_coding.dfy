/** The code side of HuffmanTree (lab3/huffman_tree.py): the code map derived from the tree by
    recursion, `encode`, the `decode` walk, and the HuffmanTree object that ties them to the
    tree built by `_build_tree`. */
module HuffmanCoding {
  import opened Common
  import opened HuffmanNode
  import opened BinaryTrees
  import opened HuffmanQueue
  import opened Huffman

  // ---------------------------------------------------------------------------------------
  // Paths and codes

  /** Every character of q is '0' or '1'. */
  predicate Bits(q: string) {
    forall i :: 0 <= i < |q| ==> q[i] == '0' || q[i] == '1'
  }

  /** The node reached from t by reading q: '0' goes left, any other character right. */
  function Follow(t: Tree, q: string): Tree
    decreases |q|
  {
    if q == [] || t == Nil then t
    else Follow(if q[0] == '0' then t.left else t.right, q[1..])
  }

  predicate IsPrefix(u: string, v: string) {
    |u| <= |v| && v[..|u|] == u
  }

  /** The entries `_build_encoding_map_recursive(t, p)` writes: a leaf gets the path that led to
      it (or "0" when that path is empty, the one-node tree), an internal node the entries of
      its left subtree, then those of its right subtree, which overwrite on a clash. */
  function Codes(t: Tree, p: string): (m: map<string, string>)
    ensures t == Nil ==> m == map[]
    ensures IsLeaf(t) ==> m == map[t.symbol := if p == "" then "0" else p]
  {
    match t
    case Nil => map[]
    case Node(sym, _, l, r) =>
      if l == Nil && r == Nil then map[sym := if p == "" then "0" else p]
      else Codes(l, p + "0") + Codes(r, p + "1")
  }

  /** Reading q after reading p is reading p + q. */
  lemma {:induction false} FollowAppend(t: Tree, p: string, q: string)
    ensures Follow(t, p + q) == Follow(Follow(t, p), q)
    decreases |p|
  {
    if p == [] {
      assert p + q == q;
    } else if t != Nil {
      assert (p + q)[1..] == p[1..] + q;
      FollowAppend(if p[0] == '0' then t.left else t.right, p[1..], q);
    }
  }

  /** Reading past a leaf falls off the tree. */
  lemma {:induction false} FollowPastLeaf(t: Tree, q: string)
    requires IsLeaf(t) && q != []
    ensures Follow(t, q) == Nil
  {
  }

  /** Every leaf symbol of t, and nothing else, gets a code. */
  lemma {:induction false} CodesKeys(t: Tree, p: string)
    ensures Codes(t, p).Keys == LeafSymbols(t)
  {
    match t
    case Nil =>
    case Node(_, _, l, r) =>
      if !(l == Nil && r == Nil) {
        CodesKeys(l, p + "0");
        CodesKeys(r, p + "1");
        LeafSymbolsSplit(t);
      } else {
        assert LeafSeq(t) == [t];
      }
  }

  lemma LeafSymbolsSplit(t: Tree)
    requires t.Node? && !IsLeaf(t)
    ensures LeafSymbols(t) == LeafSymbols(t.left) + LeafSymbols(t.right)
  {
    assert LeafSeq(t) == LeafSeq(t.left) + LeafSeq(t.right);
  }

  /** The code of k written from t under the path p is p followed by the path from t to a leaf
      whose symbol is k, unless t is a lone leaf reached by the empty path. */
  lemma {:induction false} CodePath(t: Tree, p: string, k: string)
    requires k in Codes(t, p) && !(IsLeaf(t) && p == "")
    ensures |Codes(t, p)[k]| >= |p| && Codes(t, p)[k][..|p|] == p
    ensures Bits(Codes(t, p)[k][|p|..])
    ensures IsLeaf(Follow(t, Codes(t, p)[k][|p|..]))
    ensures Follow(t, Codes(t, p)[k][|p|..]).symbol == k
    decreases t, 1
  {
    var c := Codes(t, p)[k];
    if IsLeaf(t) {
      assert c[|p|..] == [];
    } else {
      var l, r := t.left, t.right;
      if k in Codes(r, p + "1") {
        CodeStep(t, r, p, "1", k);
      } else {
        CodeStep(t, l, p, "0", k);
      }
    }
  }

  /** CodePath for a code written in the subtree `child` below the bit b. */
  lemma {:induction false} CodeStep(t: Tree, child: Tree, p: string, b: string, k: string)
    requires t.Node? && !IsLeaf(t)
    requires (b == "0" && child == t.left) || (b == "1" && child == t.right)
    requires k in Codes(child, p + b)
    requires b == "1" || k !in Codes(t.right, p + "1")
    ensures Codes(t, p)[k] == Codes(child, p + b)[k]
    ensures |Codes(t, p)[k]| >= |p| && Codes(t, p)[k][..|p|] == p
    ensures Bits(Codes(t, p)[k][|p|..])
    ensures IsLeaf(Follow(t, Codes(t, p)[k][|p|..]))
    ensures Follow(t, Codes(t, p)[k][|p|..]).symbol == k
    decreases t, 0
  {
    CodePath(child, p + b, k);
    var c := Codes(child, p + b)[k];
    var q := c[|p| + 1..];
    assert c[..|p| + 1] == p + b;
    assert c[..|p|] == p by {
      assert c[..|p|] == c[..|p| + 1][..|p|];
      assert (p + b)[..|p|] == p;
    }
    assert c[|p|..] == b + q by {
      assert c[|p|] == (p + b)[|p|] == b[0];
      assert c[|p|..] == [c[|p|]] + q;
    }
    assert Follow(t, b + q) == Follow(child, q);
  }

  /** The code of each symbol, read from the root, leads to that symbol's leaf. */
  lemma RootCodePath(root: Tree, k: string)
    requires k in Codes(root, "") && !IsLeaf(root)
    ensures Bits(Codes(root, "")[k]) && Codes(root, "")[k] != []
    ensures IsLeaf(Follow(root, Codes(root, "")[k])) && Follow(root, Codes(root, "")[k]).symbol == k
  {
    CodePath(root, "", k);
    var c := Codes(root, "")[k];
    assert c[0..] == c;
  }

  /** No code in the map is a prefix of (or equal to) another symbol's code: codes are paths to
      distinct leaves, and no leaf lies below another. */
  lemma CodesPrefixFree(root: Tree, a: string, b: string)
    requires a in Codes(root, "") && b in Codes(root, "") && a != b
    ensures !IsPrefix(Codes(root, "")[a], Codes(root, "")[b])
  {
    if !IsLeaf(root) {
      var u, v := Codes(root, "")[a], Codes(root, "")[b];
      RootCodePath(root, a);
      RootCodePath(root, b);
      if IsPrefix(u, v) {
        var w := v[|u|..];
        assert v == u + w;
        FollowAppend(root, u, w);
        if w != [] {
          FollowPastLeaf(Follow(root, u), w);
        }
      }
    }
  }

  // ---------------------------------------------------------------------------------------
  // encode and decode

  /** The code `encode` appends for one character: the code of its upper-case form when the
      character is a letter with an entry, nothing otherwise. */
  function CodeOf(m: map<string, string>, c: char): string {
    if IsAlpha(c) && [Upper(c)] in m then m[[Upper(c)]] else ""
  }

  /** The characters `encode` does not skip, upper-cased: what decoding its output can give back. */
  function Kept(m: map<string, string>, text: string): (s: string)
    ensures |s| <= |text|
    ensures forall i :: 0 <= i < |s| ==> IsAlpha(s[i]) && !('a' <= s[i] <= 'z') && [s[i]] in m
  {
    if text == [] then ""
    else (if IsAlpha(text[0]) && [Upper(text[0])] in m then [Upper(text[0])] else "") + Kept(m, text[1..])
  }

  /** `encode(text)` against the code map m. */
  function EncodeSpec(m: map<string, string>, text: string): string {
    if text == [] then "" else CodeOf(m, text[0]) + EncodeSpec(m, text[1..])
  }

  lemma {:induction false} EncodeSnoc(m: map<string, string>, text: string, c: char)
    ensures EncodeSpec(m, text + [c]) == EncodeSpec(m, text) + CodeOf(m, c)
  {
    if text == [] {
      assert [c][1..] == [];
    } else {
      assert (text + [c])[1..] == text[1..] + [c];
      EncodeSnoc(m, text[1..], c);
    }
  }

  /** The `decode` walk: `cur` is the current node; '0' goes left, '1' right and any other
      character stays; landing on a leaf emits its symbol and returns to the root; falling off
      the tree stops the walk; a path cut short by the end of the input emits nothing. */
  function DecodeWalk(root: Tree, cur: Tree, bits: string): string
    decreases |bits|
  {
    if bits == [] || cur == Nil then ""
    else
      var next := if bits[0] == '0' then cur.left else if bits[0] == '1' then cur.right else cur;
      if IsLeaf(next) then next.symbol + DecodeWalk(root, root, bits[1..])
      else DecodeWalk(root, next, bits[1..])
  }

  /** `decode(bits)`: an empty tree gives "", any other starts the walk at the root. */
  function DecodeSpec(root: Tree, bits: string): (s: string)
    ensures root == Nil ==> s == ""
  {
    DecodeWalk(root, root, bits)
  }

  /** Reading a complete code from an internal node emits that code's symbol and restarts at
      the root for the rest of the input. */
  lemma {:induction false} DecodePath(root: Tree, cur: Tree, q: string, rest: string)
    requires cur.Node? && !IsLeaf(cur) && q != [] && Bits(q) && IsLeaf(Follow(cur, q))
    ensures DecodeWalk(root, cur, q + rest) == Follow(cur, q).symbol + DecodeWalk(root, root, rest)
    decreases |q|
  {
    var next := if q[0] == '0' then cur.left else cur.right;
    assert (q + rest)[0] == q[0] && (q + rest)[1..] == q[1..] + rest;
    assert Follow(cur, q) == Follow(next, q[1..]);
    if IsLeaf(next) {
      if q[1..] != [] {
        FollowPastLeaf(next, q[1..]);
      }
      assert q[1..] + rest == rest;
    } else {
      assert q[1..] != [] && next != Nil;
      assert Bits(q[1..]) by {
        forall i | 0 <= i < |q| - 1
          ensures q[1..][i] == '0' || q[1..][i] == '1'
        {
          assert q[1..][i] == q[i + 1];
        }
      }
      DecodePath(root, next, q[1..], rest);
    }
  }

  /** For a tree of at least two leaves, decoding the encoding of a text gives back its letters
      that have codes, upper-cased, in order. */
  lemma {:induction false} RoundTrip(root: Tree, text: string)
    requires root.Node? && !IsLeaf(root)
    ensures DecodeSpec(root, EncodeSpec(Codes(root, ""), text)) == Kept(Codes(root, ""), text)
  {
    var m := Codes(root, "");
    if text != [] {
      RoundTrip(root, text[1..]);
      var c := text[0];
      var rest := EncodeSpec(m, text[1..]);
      assert EncodeSpec(m, text) == CodeOf(m, c) + rest;
      if IsAlpha(c) && [Upper(c)] in m {
        RootCodePath(root, [Upper(c)]);
        DecodePath(root, root, m[[Upper(c)]], rest);
      } else {
        assert CodeOf(m, c) + rest == rest;
      }
    }
  }

  /** The one-leaf tree: every code is "0", which steps off the tree, so decoding its encoding
      always gives "". */
  lemma OneLeafDecode(root: Tree, text: string)
    requires IsLeaf(root)
    ensures DecodeSpec(root, EncodeSpec(Codes(root, ""), text)) == ""
  {
    var s := EncodeSpec(Codes(root, ""), text);
    OnlyZeros(root.symbol, text);
    if s != [] {
      NilWalk(root, s[1..]);
    }
  }

  lemma {:induction false} OnlyZeros(sym: string, text: string)
    ensures EncodeSpec(map[sym := "0"], text) == [] || EncodeSpec(map[sym := "0"], text)[0] == '0'
  {
    if text != [] {
      OnlyZeros(sym, text[1..]);
    }
  }

  lemma NilWalk(root: Tree, bits: string)
    ensures DecodeWalk(root, Nil, bits) == ""
  {
  }

  // ---------------------------------------------------------------------------------------
  // The HuffmanTree object

  /** The symbols of the leaves that `_build_tree` starts from are the table's keys. */
  lemma LeafSymbolsOfTable(t: Tree, table: map<string, int>)
    requires multiset(LeafSeq(t)) == multiset(TableLeaves(table))
    ensures LeafSymbols(t) == table.Keys
  {
    forall k | k in table
      ensures k in LeafSymbols(t)
    {
      var x := NewNode(k, table[k]);
      assert x in TableLeaves(table);
      assert x in multiset(LeafSeq(t));
    }
    forall k | k in LeafSymbols(t)
      ensures k in table
    {
      var x :| x in LeafSeq(t) && x.symbol == k;
      assert x in multiset(TableLeaves(table));
    }
  }

  /** Ties are broken the same way on every run. With {A: 1, B: 1, C: 2}, A and B tie on weight
      and A is popped first, so A is the left child of AB:2; then C:2 and AB:2 tie on weight and
      the single letter C is popped first, so C is the left child of the root. The codes are
      C = 0, A = 10 and B = 11; the mirrored trees, which are just as full and just as light,
      are never built. */
  lemma TieBreakExample()
    ensures var a, b, c := NewNode("A", 1), NewNode("B", 1), NewNode("C", 2);
      HuffmanOf(map["A" := 1, "B" := 1, "C" := 2]) == Merge(c, Merge(a, b))
    ensures Codes(HuffmanOf(map["A" := 1, "B" := 1, "C" := 2]), "") == map["C" := "0", "A" := "10", "B" := "11"]
  {
    var a, b, c := NewNode("A", 1), NewNode("B", 1), NewNode("C", 2);
    var root := Merge(c, Merge(a, b));
    ExampleFirstStep();
    ExampleSecondStep(Merge(a, b));
    ExampleCodes(root);
  }

  /** The first step of the greedy build on {A: 1, B: 1, C: 2}. */
  lemma ExampleFirstStep()
    ensures var a, b, c := NewNode("A", 1), NewNode("B", 1), NewNode("C", 2);
      HuffmanOf(map["A" := 1, "B" := 1, "C" := 2]) == Greedy(multiset{c, Merge(a, b)})
  {
    var a, b, c := NewNode("A", 1), NewNode("B", 1), NewNode("C", 2);
    ExampleLeaves();
    ExampleFirstMerge();
    GreedyStep(multiset{a, b, c}, a, b);
  }

  /** The second and last step. */
  lemma ExampleSecondStep(ab: Node)
    requires ab == Merge(NewNode("A", 1), NewNode("B", 1))
    ensures Greedy(multiset{NewNode("C", 2), ab}) == Merge(NewNode("C", 2), ab)
  {
    ExampleSecondMerge(ab);
    GreedyPair(NewNode("C", 2), ab);
  }

  /** The greedy build of two nodes merges them, the first popped on the left. */
  lemma GreedyPair(x: Node, y: Node)
    requires SymbolsDistinct(multiset{x, y}) && |multiset{x, y}| > 1
    requires IsMinimum(x, multiset{x, y}) && IsMinimum(y, multiset{x, y} - multiset{x})
    ensures Greedy(multiset{x, y}) == Merge(x, y)
  {
    var root := Merge(x, y);
    assert Greedy(multiset{x, y}) == Greedy(multiset{root}) by {
      GreedyStep(multiset{x, y}, x, y);
      assert multiset{x, y} - multiset{x} - multiset{y} + multiset{root} == multiset{root};
    }
    assert Greedy(multiset{root}) == root by {
      GreedyLast(multiset{root}, root);
    }
  }

  lemma ExampleLeaves()
    ensures multiset(TableLeaves(map["A" := 1, "B" := 1, "C" := 2])) ==
      multiset{NewNode("A", 1), NewNode("B", 1), NewNode("C", 2)}
  {
    var table := map["A" := 1, "B" := 1, "C" := 2];
    var a, b, c := NewNode("A", 1), NewNode("B", 1), NewNode("C", 2);
    assert a == NewNode("A", table["A"]) && b == NewNode("B", table["B"]) && c == NewNode("C", table["C"]);
    assert TableLeaves(table) == {a, b, c};
  }

  /** A:1 and B:1 are popped first, in that order, and merge into AB:2. */
  lemma ExampleFirstMerge()
    ensures var a, b, c := NewNode("A", 1), NewNode("B", 1), NewNode("C", 2);
      var s0 := multiset{a, b, c};
      SymbolsDistinct(s0) && |s0| > 1 && IsMinimum(a, s0) && IsMinimum(b, s0 - multiset{a}) &&
      s0 - multiset{a} - multiset{b} + multiset{Merge(a, b)} == multiset{c, Merge(a, b)}
  {
    var a, b, c := NewNode("A", 1), NewNode("B", 1), NewNode("C", 2);
    ThreeLeafQueue(a, b, c);
    assert multiset{a, b, c} - multiset{a} == multiset{b, c};
  }

  /** Three leaves of distinct single-letter symbols, the first two lighter than the third
      and the first before the second in the alphabet. */
  lemma ThreeLeafQueue(a: Node, b: Node, c: Node)
    requires a.symbol == "A" && b.symbol == "B" && c.symbol == "C"
    requires a.weight == b.weight < c.weight
    ensures var s0 := multiset{a, b, c};
      SymbolsDistinct(s0) && |s0| > 1 && IsMinimum(a, s0) && IsMinimum(b, multiset{b, c})
  {
    assert !Less(b, a) by {
      assert StrLess(a.symbol, b.symbol);
      LessAsymmetric(a, b);
    }
    LessAsymmetric(a, a);
    LessAsymmetric(b, b);
  }

  /** C:2 and AB:2 tie on weight; the single letter C is popped first. */
  lemma ExampleSecondMerge(ab: Node)
    requires ab == Merge(NewNode("A", 1), NewNode("B", 1))
    ensures var c := NewNode("C", 2);
      ab.symbol == "AB" && SymbolsDistinct(multiset{c, ab}) && |multiset{c, ab}| > 1 &&
      IsMinimum(c, multiset{c, ab}) && IsMinimum(ab, multiset{c, ab} - multiset{c})
  {
    var c := NewNode("C", 2);
    assert ab.symbol == "AB" && ab.weight == 2 by {
      assert "A" + "B" == "AB";
      SortTwo();
    }
    TwoNodeQueue(c, ab);
  }

  /** A queue of a single-letter node and a multi-letter node of the same weight. */
  lemma TwoNodeQueue(c: Node, ab: Node)
    requires c.symbol == "C" && ab.symbol == "AB" && c.weight == ab.weight
    ensures SymbolsDistinct(multiset{c, ab}) && |multiset{c, ab}| > 1
    ensures IsMinimum(c, multiset{c, ab}) && IsMinimum(ab, multiset{c, ab} - multiset{c})
  {
    assert multiset{c, ab} - multiset{c} == multiset{ab};
    assert !Less(ab, c);
    LessAsymmetric(c, c);
    LessAsymmetric(ab, ab);
  }

  lemma SortTwo()
    ensures SortChars("AB") == "AB"
  {
    assert "AB"[1..] == "B" && "B"[1..] == "";
    assert SortChars("B") == "B";
  }

  lemma ExampleCodes(root: Node)
    requires root == Merge(NewNode("C", 2), Merge(NewNode("A", 1), NewNode("B", 1)))
    ensures Codes(root, "") == map["C" := "0", "A" := "10", "B" := "11"]
  {
    ThreeLeafCodes(NewNode("A", 1), NewNode("B", 1), NewNode("C", 2));
    ThreeEntries("C", "A", "B", "0", "10", "11");
  }

  lemma ThreeEntries(x: string, y: string, z: string, u: string, v: string, w: string)
    ensures map[x := u] + (map[y := v] + map[z := w]) == map[x := u, y := v, z := w]
  {
  }

  /** The codes of the tree whose root has the leaf c on the left and a node of the leaves a
      and b on the right. */
  lemma ThreeLeafCodes(a: Node, b: Node, c: Node)
    requires IsLeaf(a) && IsLeaf(b) && IsLeaf(c)
    ensures Codes(Merge(c, Merge(a, b)), "") ==
      map[c.symbol := "0"] + (map[a.symbol := "10"] + map[b.symbol := "11"])
  {
    assert "" + "0" == "0" && "" + "1" == "1" && "1" + "0" == "10" && "1" + "1" == "11";
  }

  /** One preorder entry of `get_preorder_string`: `f"{node.symbol}: {node.weight}"`. */
  function Entry(n: Node): string {
    n.symbol + ": " + IntToString(n.weight)
  }

  function Entries(s: seq<Node>): (r: seq<string>)
    ensures |r| == |s|
    ensures forall i :: 0 <= i < |s| ==> r[i] == Entry(s[i])
  {
    if s == [] then [] else [Entry(s[0])] + Entries(s[1..])
  }

  class HuffmanTree {
    /** The inherited BinaryTree part: `_root` and the cached `_size`. */
    var tree: BinaryTree
    /** `_encoding_map`: symbol to code. */
    var encodingMap: map<string, string>

    /** The state every constructed HuffmanTree is in: the size cache is the node count and the
        map holds exactly the entries the recursive walk writes. */
    ghost predicate Valid()
      reads this
    {
      tree == MakeBinaryTree(tree.root) && encodingMap == Codes(tree.root, "")
    }

    /** `HuffmanTree(frequency_table)`: an empty table gives an empty tree and an empty map;
        otherwise the tree `_build_tree` returns, with one code per table key. */
    constructor(table: map<string, int>)
      ensures Valid()
      ensures tree.root == Nil <==> |table| == 0
      ensures |table| == 0 ==> encodingMap == map[]
      ensures tree.root != Nil ==> Built(tree.root) && tree.root.weight == TableWeight(table)
      ensures multiset(LeafSeq(tree.root)) == multiset(TableLeaves(table))
      ensures Len(tree) == if |table| == 0 then 0 else 2 * |table| - 1
      ensures encodingMap.Keys == table.Keys
      ensures SingleLetterKeys(table) ==> tree.root == HuffmanOf(table)
    {
      var root: Tree := Nil;
      if |table| > 0 {
        root := BuildTree(table);
      } else {
        EmptyTable(table);
      }
      TreeOfTable(root, table);
      tree := MakeBinaryTree(root);
      encodingMap := map[];
      new;
      if |table| > 0 {
        BuildEncodingMapRecursive(root, "");
        EmptyUnion(Codes(root, ""));
      }
    }

    /** `_build_encoding_map_recursive(node, code_so_far)`: adds the entries for the subtree at
        `node`, reached by the path `code_so_far`, to the map. */
    method BuildEncodingMapRecursive(node: Tree, codeSoFar: string)
      modifies this
      ensures encodingMap == old(encodingMap) + Codes(node, codeSoFar)
      ensures tree == old(tree)
      decreases node
    {
      if node == Nil {
        return;
      }
      if node.left == Nil && node.right == Nil {
        if codeSoFar == "" {
          encodingMap := encodingMap[node.symbol := "0"];
        } else {
          encodingMap := encodingMap[node.symbol := codeSoFar];
        }
        return;
      }
      ghost var before := encodingMap;
      BuildEncodingMapRecursive(node.left, codeSoFar + "0");
      BuildEncodingMapRecursive(node.right, codeSoFar + "1");
      UnionAssociative(before, Codes(node.left, codeSoFar + "0"), Codes(node.right, codeSoFar + "1"));
    }

    /** `get_encoding_map`: the map, one code per leaf symbol, each the path to that symbol's
        leaf, none a prefix of another. */
    function GetEncodingMap(): (m: map<string, string>)
      reads this
      requires Valid()
      ensures m.Keys == LeafSymbols(tree.root)
      ensures forall a, b :: a in m && b in m && a != b ==> !IsPrefix(m[a], m[b])
      ensures !IsLeaf(tree.root) ==> forall k :: k in m ==>
        Bits(m[k]) && m[k] != [] && IsLeaf(Follow(tree.root, m[k])) && Follow(tree.root, m[k]).symbol == k
      ensures IsLeaf(tree.root) ==> m == map[tree.root.symbol := "0"]
    {
      CodesKeys(tree.root, "");
      PrefixFreeAll(tree.root);
      if !IsLeaf(tree.root) then
        AllCodePaths(tree.root);
        encodingMap
      else encodingMap
    }

    /** `get_preorder_string`: the preorder entries joined by ", ". */
    function GetPreorderString(): (s: string)
      reads this
      ensures tree.root == Nil ==> s == ""
      ensures tree.root != Nil ==> |s| >= |Entry(tree.root)| && s[..|Entry(tree.root)|] == Entry(tree.root)
    {
      var parts := Entries(PreorderTraversal(tree));
      if tree.root != Nil then
        JoinStartsWithFirst(parts, ", ");
        Join(parts, ", ")
      else Join(parts, ", ")
    }

    /** `encode(text)`: the codes of the letters of text that have one, in order. */
    method Encode(text: string) returns (encoded: string)
      ensures encoded == EncodeSpec(encodingMap, text)
    {
      encoded := "";
      var i := 0;
      while i < |text|
        invariant 0 <= i <= |text|
        invariant encoded == EncodeSpec(encodingMap, text[..i])
      {
        var c := text[i];
        EncodeSnoc(encodingMap, text[..i], c);
        assert text[..i + 1] == text[..i] + [c];
        if IsAlpha(c) {
          var u := [Upper(c)];
          if u in encodingMap && encodingMap[u] != "" {
            encoded := encoded + encodingMap[u];
          }
        }
        i := i + 1;
      }
      assert text[..|text|] == text;
    }

    /** `decode(encoded_text)`: the `DecodeWalk` from the root. */
    method Decode(encodedText: string) returns (decoded: string)
      ensures decoded == DecodeSpec(tree.root, encodedText)
    {
      if IsEmpty(tree) {
        return "";
      }
      var root := tree.root;
      decoded := "";
      var current := root;
      var i := 0;
      while i < |encodedText|
        invariant 0 <= i <= |encodedText|
        invariant decoded + DecodeWalk(root, current, encodedText[i..]) == DecodeWalk(root, root, encodedText)
      {
        if current == Nil {
          break;
        }
        var bit := encodedText[i];
        assert encodedText[i..][0] == bit && encodedText[i..][1..] == encodedText[i + 1..];
        if bit == '0' {
          current := current.left;
        } else if bit == '1' {
          current := current.right;
        }
        if current != Nil && current.left == Nil && current.right == Nil {
          decoded := decoded + current.symbol;
          current := root;
        }
        i := i + 1;
      }
    }
  }

  /** The joined string starts with its first part. */
  lemma JoinStartsWithFirst(parts: seq<string>, sep: string)
    requires parts != []
    ensures |Join(parts, sep)| >= |parts[0]| && Join(parts, sep)[..|parts[0]|] == parts[0]
  {
    if |parts| > 1 {
      assert Join(parts, sep) == parts[0] + (sep + Join(parts[1..], sep));
    }
  }

  /** What the constructor needs from `_build_tree`'s result: one code per table key and a size
      cache equal to the length of the preorder. */
  lemma TreeOfTable(root: Tree, table: map<string, int>)
    requires root == Nil <==> |table| == 0
    requires multiset(LeafSeq(root)) == multiset(TableLeaves(table))
    requires CountNodes(root) == if |table| == 0 then 0 else 2 * |table| - 1
    ensures Codes(root, "").Keys == table.Keys
    ensures |Preorder(root)| == if |table| == 0 then 0 else 2 * |table| - 1
  {
    PreorderLength(root);
    CodesKeys(root, "");
    LeafSymbolsOfTable(root, table);
  }

  lemma EmptyUnion(m: map<string, string>)
    ensures map[] + m == m
  {
  }

  lemma UnionAssociative(a: map<string, string>, b: map<string, string>, c: map<string, string>)
    ensures a + b + c == a + (b + c)
  {
  }

  lemma AllCodePaths(root: Tree)
    requires !IsLeaf(root)
    ensures forall k :: k in Codes(root, "") ==>
      Bits(Codes(root, "")[k]) && Codes(root, "")[k] != [] &&
      IsLeaf(Follow(root, Codes(root, "")[k])) && Follow(root, Codes(root, "")[k]).symbol == k
  {
    forall k | k in Codes(root, "")
      ensures Bits(Codes(root, "")[k]) && Codes(root, "")[k] != []
      ensures IsLeaf(Follow(root, Codes(root, "")[k])) && Follow(root, Codes(root, "")[k]).symbol == k
    {
      RootCodePath(root, k);
    }
  }

  lemma PrefixFreeAll(root: Tree)
    ensures forall a, b :: a in Codes(root, "") && b in Codes(root, "") && a != b ==>
      !IsPrefix(Codes(root, "")[a], Codes(root, "")[b])
  {
    forall a, b | a in Codes(root, "") && b in Codes(root, "") && a != b
      ensures !IsPrefix(Codes(root, "")[a], Codes(root, "")[b])
    {
      CodesPrefixFree(root, a, b);
    }
  }
}
