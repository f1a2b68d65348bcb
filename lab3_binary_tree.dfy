/** The generic binary tree that HuffmanTree extends (lab3/binary_tree.py): a root link and
    a node count computed once when the tree is built. */
module BinaryTrees {
  import opened HuffmanNode

  /** A BinaryTree object: `_root` and the cached `_size`. Both are set once by `__init__`. */
  datatype BinaryTree = BinaryTree(root: Tree, size: nat)

  /** `_count_nodes_recursive`: the number of nodes reachable from t. */
  function CountNodes(t: Tree): (n: nat)
    ensures n == 0 <==> t == Nil
  {
    match t
    case Nil => 0
    case Node(_, _, l, r) => 1 + CountNodes(l) + CountNodes(r)
  }

  /** `BinaryTree(root_node)`: the size is counted once, at construction. */
  function MakeBinaryTree(root: Tree): (b: BinaryTree)
    ensures b.root == root
    ensures b.size == |Preorder(root)|
  {
    PreorderLength(root);
    BinaryTree(root, CountNodes(root))
  }

  /** `is_empty`. */
  function IsEmpty(b: BinaryTree): (e: bool)
    ensures e <==> b.root == Nil
  {
    b.root == Nil
  }

  /** `__len__`: the cached count. */
  function Len(b: BinaryTree): nat {
    b.size
  }

  /** `_preorder_recursive`: the node itself, then its left subtree, then its right subtree. */
  function Preorder(t: Tree): (s: seq<Node>)
    ensures t.Node? ==> |s| > 0 && s[0] == t
  {
    match t
    case Nil => []
    case Node(_, _, l, r) => [t] + Preorder(l) + Preorder(r)
  }

  /** `preorder_traversal`: the preorder of the whole tree. */
  function PreorderTraversal(b: BinaryTree): seq<Node> {
    Preorder(b.root)
  }

  /** The preorder visits every node exactly once: its length is the node count, and an empty
      tree yields nothing. */
  lemma {:induction false} PreorderLength(t: Tree)
    ensures |Preorder(t)| == CountNodes(t)
    ensures Preorder(t) == [] <==> t == Nil
  {
    match t
    case Nil =>
    case Node(_, _, l, r) =>
      PreorderLength(l);
      PreorderLength(r);
  }

  /** A tree made by `BinaryTree(root)` has `len` equal to the length of its preorder. */
  lemma LenIsPreorderLength(root: Tree)
    ensures Len(MakeBinaryTree(root)) == |PreorderTraversal(MakeBinaryTree(root))|
    ensures IsEmpty(MakeBinaryTree(root)) <==> Len(MakeBinaryTree(root)) == 0
  {
    PreorderLength(root);
  }

  /** Every node of the preorder is followed directly by its own subtree's preorder: the subtree
      rooted at position i occupies the contiguous block that starts at i. Hence a node comes
      before every node of its left subtree, and the left subtree before the right one. */
  lemma {:induction false} PreorderSubtreeBlock(t: Tree, i: nat)
    requires i < |Preorder(t)|
    ensures i + CountNodes(Preorder(t)[i]) <= |Preorder(t)|
    ensures Preorder(t)[i..i + CountNodes(Preorder(t)[i])] == Preorder(Preorder(t)[i])
    decreases t, 1
  {
    PreorderLength(t);
    if i == 0 {
      assert Preorder(t)[0..CountNodes(t)] == Preorder(t);
    } else if i < 1 + |Preorder(t.left)| {
      BlockInLeft(t, i);
    } else {
      BlockInRight(t, i);
    }
  }

  /** The case of PreorderSubtreeBlock where position i lies in the left subtree's block. */
  lemma {:induction false} BlockInLeft(t: Tree, i: nat)
    requires t.Node? && 1 <= i < 1 + |Preorder(t.left)|
    ensures i + CountNodes(Preorder(t)[i]) <= |Preorder(t)|
    ensures Preorder(t)[i..i + CountNodes(Preorder(t)[i])] == Preorder(Preorder(t)[i])
    decreases t, 0
  {
    var pl, pr := Preorder(t.left), Preorder(t.right);
    assert Preorder(t) == [t] + pl + pr;
    PreorderSubtreeBlock(t.left, i - 1);
    MiddleBlock(t, pl, pr, i, CountNodes(pl[i - 1]));
  }

  /** A block inside the middle part of [x] + b + c is the same block of b. */
  lemma MiddleBlock<T>(x: T, b: seq<T>, c: seq<T>, i: nat, n: nat)
    requires 1 <= i <= |b| && i - 1 + n <= |b|
    ensures ([x] + b + c)[i] == b[i - 1]
    ensures ([x] + b + c)[i..i + n] == b[i - 1..i - 1 + n]
  {
  }

  /** The case of PreorderSubtreeBlock where position i lies in the right subtree's block. */
  lemma {:induction false} BlockInRight(t: Tree, i: nat)
    requires t.Node? && 1 + |Preorder(t.left)| <= i < |Preorder(t)|
    ensures i + CountNodes(Preorder(t)[i]) <= |Preorder(t)|
    ensures Preorder(t)[i..i + CountNodes(Preorder(t)[i])] == Preorder(Preorder(t)[i])
    decreases t, 0
  {
    var pl, pr := Preorder(t.left), Preorder(t.right);
    var head := [t] + pl;
    assert Preorder(t) == head + pr;
    var k := i - |head|;
    PreorderSubtreeBlock(t.right, k);
    TailBlock(head, pr, i, CountNodes(pr[k]));
  }

  /** A block inside the second part of a + b is the same block of b. */
  lemma TailBlock<T>(a: seq<T>, b: seq<T>, i: nat, n: nat)
    requires |a| <= i < |a| + |b| && i - |a| + n <= |b|
    ensures (a + b)[i] == b[i - |a|]
    ensures (a + b)[i..i + n] == b[i - |a|..i - |a| + n]
  {
  }
}
