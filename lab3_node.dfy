/** The Huffman tree node and its priority order (lab3/node.py). */
module HuffmanNode {

  /** An optional node: `Nil` is Python's None, `Node` a Node object with its two child links.
      The `parent` attribute is never assigned by the program and is not modelled. */
  datatype Tree = Nil | Node(symbol: string, weight: int, left: Tree, right: Tree)

  /** A present node (never None). */
  type Node = t: Tree | t.Node? witness Node("", 0, Nil, Nil)

  predicate IsLeaf(t: Tree) {
    t.Node? && t.left == Nil && t.right == Nil
  }

  /** `Node(symbol, weight)`: a fresh node starts without children. */
  function NewNode(symbol: string, weight: int): (n: Node)
    ensures n.symbol == symbol && n.weight == weight
    ensures IsLeaf(n)
  {
    Node(symbol, weight, Nil, Nil)
  }

  /** Python's `<` on str: lexicographic by code point, a proper prefix sorting first. */
  predicate StrLess(s: string, t: string)
    decreases |s|
  {
    if |s| == 0 then |t| > 0
    else if |t| == 0 then false
    else if s[0] != t[0] then s[0] < t[0]
    else StrLess(s[1..], t[1..])
  }

  /** The arity class of a node: a one-letter symbol is an original leaf. */
  predicate IsSingle(n: Node) {
    |n.symbol| == 1
  }

  /** `Node.__lt__`: weight first, then single-letter before multi-letter, then alphabetical. */
  predicate Less(a: Node, b: Node) {
    if a.weight != b.weight then a.weight < b.weight
    else if IsSingle(a) != IsSingle(b) then IsSingle(a)
    else StrLess(a.symbol, b.symbol)
  }

  /** Two nodes that `Less` cannot tell apart. */
  predicate SameKey(a: Node, b: Node) {
    a.weight == b.weight && a.symbol == b.symbol
  }

  /** The arity tier of the key (weight, 0 if single-letter else 1, symbol). */
  function Arity(n: Node): nat {
    if IsSingle(n) then 0 else 1
  }

  /** `__lt__` is the lexicographic order on the key (weight, arity, symbol). */
  lemma LessIsKeyOrder(a: Node, b: Node)
    ensures Less(a, b) <==>
      a.weight < b.weight ||
      (a.weight == b.weight && Arity(a) < Arity(b)) ||
      (a.weight == b.weight && Arity(a) == Arity(b) && StrLess(a.symbol, b.symbol))
  {
  }

  lemma {:induction false} StrLessIrreflexive(s: string)
    ensures !StrLess(s, s)
    decreases |s|
  {
    if |s| > 0 {
      StrLessIrreflexive(s[1..]);
    }
  }

  lemma {:induction false} StrLessTransitive(s: string, t: string, u: string)
    requires StrLess(s, t) && StrLess(t, u)
    ensures StrLess(s, u)
    decreases |s|
  {
    if |s| > 0 && |t| > 0 && |u| > 0 && s[0] == t[0] && t[0] == u[0] {
      StrLessTransitive(s[1..], t[1..], u[1..]);
    }
  }

  lemma {:induction false} StrLessTotal(s: string, t: string)
    ensures s == t || StrLess(s, t) || StrLess(t, s)
    ensures !(StrLess(s, t) && StrLess(t, s))
    decreases |s|
  {
    if |s| > 0 && |t| > 0 && s[0] == t[0] {
      StrLessTotal(s[1..], t[1..]);
      if s[1..] == t[1..] {
        assert s == [s[0]] + s[1..] && t == [t[0]] + t[1..];
      }
    }
  }

  /** `__lt__` is irreflexive and asymmetric. */
  lemma LessAsymmetric(a: Node, b: Node)
    ensures !Less(a, a)
    ensures Less(a, b) ==> !Less(b, a)
  {
    StrLessIrreflexive(a.symbol);
    StrLessTotal(a.symbol, b.symbol);
  }

  /** `__lt__` is transitive. */
  lemma LessTransitive(a: Node, b: Node, c: Node)
    requires Less(a, b) && Less(b, c)
    ensures Less(a, c)
  {
    if a.weight == b.weight == c.weight && IsSingle(a) == IsSingle(b) == IsSingle(c) {
      StrLessTransitive(a.symbol, b.symbol, c.symbol);
    }
  }

  /** `__lt__` orders every two nodes whose (weight, symbol) keys differ. */
  lemma LessTotal(a: Node, b: Node)
    ensures SameKey(a, b) || Less(a, b) || Less(b, a)
    ensures SameKey(a, b) ==> !Less(a, b) && !Less(b, a)
  {
    StrLessTotal(a.symbol, b.symbol);
    StrLessIrreflexive(a.symbol);
  }
}
