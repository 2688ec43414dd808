/** The nodes of a Huffman tree (`HuffmanTree.TreeNode`, huffman.py:18-23).
    A leaf holds a symbol; an internal node holds both children and the
    smallest symbol below it (`min_element`), the tie-break key of the
    priority queue. A leaf's `min_element` is its own symbol. */
module Trees {

  datatype Tree = Leaf(symbol: char) | Node(left: Tree, right: Tree, minElement: char)
  {
    /** The `min_element` field of the node. */
    function MinElement(): char {
      match this
      case Leaf(s) => s
      case Node(_, _, m) => m
    }
  }

  /** The smaller of two symbols, chosen as `build_tree` chooses it. */
  function MinChar(a: char, b: char): (m: char)
    ensures m <= a && m <= b
    ensures m == a || m == b
  {
    if a < b then a else b
  }

  /** The symbols at the leaves, left to right. */
  function Leaves(t: Tree): (s: seq<char>)
    ensures |s| >= 1
  {
    match t
    case Leaf(c) => [c]
    case Node(l, r, _) => Leaves(l) + Leaves(r)
  }

  /** Every internal node's `min_element` is the smaller of its children's. */
  predicate WellFormed(t: Tree) {
    match t
    case Leaf(_) => true
    case Node(l, r, m) => m == MinChar(l.MinElement(), r.MinElement()) && WellFormed(l) && WellFormed(r)
  }

  /** No symbol occurs twice in `s`. */
  predicate NoDup(s: seq<char>) {
    forall c :: multiset(s)[c] <= 1
  }

  /** In a well-formed tree the `min_element` of a node is the least symbol of
      its subtree, and that symbol is one of its leaves. */
  lemma {:induction false} MinElementIsLeastLeaf(t: Tree)
    requires WellFormed(t)
    ensures t.MinElement() in Leaves(t)
    ensures forall i :: 0 <= i < |Leaves(t)| ==> t.MinElement() <= Leaves(t)[i]
  {
    match t
    case Leaf(_) =>
    case Node(l, r, m) =>
      MinElementIsLeastLeaf(l);
      MinElementIsLeastLeaf(r);
      forall i | 0 <= i < |Leaves(t)|
        ensures m <= Leaves(t)[i]
      {
        if i < |Leaves(l)| {
          assert Leaves(t)[i] == Leaves(l)[i];
        } else {
          assert Leaves(t)[i] == Leaves(r)[i - |Leaves(l)|];
        }
      }
  }

  /** The leaves of the two subtrees of a node without repeated symbols are
      themselves without repeats, and no symbol is on both sides. */
  lemma {:induction false} NoDupChildren(l: Tree, r: Tree, m: char)
    requires NoDup(Leaves(Node(l, r, m)))
    ensures NoDup(Leaves(l)) && NoDup(Leaves(r))
    ensures forall c :: c in Leaves(l) ==> c !in Leaves(r)
  {
    assert multiset(Leaves(Node(l, r, m))) == multiset(Leaves(l)) + multiset(Leaves(r));
    forall c ensures multiset(Leaves(l))[c] <= 1 && multiset(Leaves(r))[c] <= 1 {
      assert multiset(Leaves(Node(l, r, m)))[c] <= 1;
    }
    forall c | c in Leaves(l) ensures c !in Leaves(r) {
      assert multiset(Leaves(Node(l, r, m)))[c] <= 1;
    }
  }
}
