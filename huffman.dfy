/** `HuffmanTree` (huffman.py:15-238): builds the tree once from
    `(symbol, weight)` pairs and then encodes strings of symbols into strings
    of '0'/'1' and decodes them back. */
module Huffman {
  import opened Wrappers
  import opened Trees
  import opened PriorityQueues
  import opened Construction
  import opened Codec

  class HuffmanTree {
    /** The tree's root; `__init__` sets it and nothing changes it after. */
    const root: Tree

    /** A built tree: its root is an internal node, every `min_element` is
        right, and no symbol is a leaf twice. */
    ghost predicate Valid() {
      root.Node? && WellFormed(root) && NoDup(Leaves(root))
    }

    /** `__init__`, once its assertion of at least two pairs has passed. */
    constructor (symbolList: SymbolList)
      requires |symbolList| >= 2 && DistinctSymbols(symbolList)
      ensures root == Build(symbolList) && Valid()
      ensures multiset(Leaves(root)) == multiset(Symbols(symbolList))
    {
      var t, merges := BuildTree(symbolList);
      BuildShape(symbolList);
      root := t;
    }

    /** `HuffmanTree(symbol_list)` with its assertion: fewer than two pairs
        are rejected, otherwise the tree is built. */
    static method Create(symbolList: SymbolList) returns (h: Option<HuffmanTree>)
      requires DistinctSymbols(symbolList)
      ensures h.None? <==> |symbolList| < 2
      ensures h.Some? ==> fresh(h.value) && h.value.root == Build(symbolList) && h.value.Valid()
    {
      if |symbolList| < 2 {
        return None;
      }
      var t := new HuffmanTree(symbolList);
      h := Some(t);
    }

    /** `build_tree`: pop the two least tuples, join them under a new node
        and push it back, until one tuple is left; its node is the root.
        The loop runs exactly once per pair less one. */
    static method BuildTree(symbolList: SymbolList) returns (root: Tree, ghost merges: nat)
      requires |symbolList| >= 1
      ensures root == Build(symbolList)
      ensures merges == |symbolList| - 1
    {
      var heap := MakeHeap(symbolList);
      merges := 0;
      while heap.Size() > 1
        invariant Combine(heap.entries) == Combine(MakeQueue(symbolList))
        invariant |heap.entries| >= 1 && merges + |heap.entries| == |symbolList|
        decreases |heap.entries|
      {
        ghost var q := heap.entries;
        var first, second := GetNextTwoNodes(heap);
        var leftNode, rightNode := first.node, second.node;
        var minElement := if leftNode.MinElement() < rightNode.MinElement()
                          then leftNode.MinElement() else rightNode.MinElement();
        var newNode := Node(leftNode, rightNode, minElement);
        var newWeight := first.weight + second.weight;
        assert minElement == MinChar(leftNode.MinElement(), rightNode.MinElement());
        assert Entry(newWeight, minElement, newNode) == Join(first, second);
        heap.Push(Entry(newWeight, minElement, newNode));
        assert Combine(q) == Combine(heap.entries);
        merges := merges + 1;
      }
      root := heap.entries[0].node;
    }

    /** `_get_next_two_nodes`: two `heappop`s; from a sorted queue they are
        the two least tuples, the first with the smaller key. */
    static method GetNextTwoNodes(heap: PriorityQueue) returns (first: Entry, second: Entry)
      requires |heap.entries| >= 2
      modifies heap
      ensures first == old(heap.entries)[0] && second == old(heap.entries)[1]
      ensures heap.entries == old(heap.entries)[2..]
      ensures Sorted(old(heap.entries)) ==>
                KeyLess(first, second) && forall x :: x in heap.entries ==> KeyLess(second, x)
    {
      first := heap.Pop();
      second := heap.Pop();
    }

    /** `_make_heap`: one leaf per pair, pushed with key (weight, symbol). */
    static method MakeHeap(symbolList: SymbolList) returns (heap: PriorityQueue)
      ensures fresh(heap) && heap.entries == MakeQueue(symbolList)
    {
      heap := new PriorityQueue();
      for i := 0 to |symbolList|
        invariant heap.entries == MakeQueue(symbolList[..i])
      {
        var weight := symbolList[i].1;
        var newNode := Leaf(symbolList[i].0);
        assert symbolList[..i + 1][..i] == symbolList[..i];
        heap.Push(Entry(weight, newNode.MinElement(), newNode));
      }
      assert symbolList[..|symbolList|] == symbolList;
    }

    /** `encode`: the concatenation, in order, of each symbol's code. */
    method Encode(s: string) returns (encoded: string)
      ensures encoded == EncodeSpec(root, s)
      ensures IsBits(encoded)
    {
      EncodeSpecBits(root, s);
      if |s| == 0 {
        return "";
      }
      encoded := "";
      for i := 0 to |s|
        invariant encoded == EncodeSpec(root, s[..i])
      {
        var charCode := "";
        var encodedChar := EncodeHelper(root, s[i], charCode);
        EncodeSpecSnoc(root, s[..i], s[i]);
        assert s[..i + 1] == s[..i] + [s[i]];
        encoded := encoded + encodedChar;
      }
      assert s[..|s|] == s;
    }

    /** `decode`: "" for no bits, otherwise the cursor walk from the root;
        it agrees with the symbol-by-symbol reference decoder. */
    method Decode(encodedMsg: string) returns (decoded: Option<string>)
      requires Valid()
      ensures decoded == DecodeSpec(root, encodedMsg)
    {
      if |encodedMsg| == 0 {
        return Some("");
      }
      var msgSoFar := "";
      decoded := DecodeHelper(root, encodedMsg, msgSoFar);
      DecodeFromRoot(root, encodedMsg);
      PrependNothing(DecodeFrom(root, root, encodedMsg));
    }

    /** `_decode_helper`: moves the cursor `node` one character at a time,
        emits a leaf's symbol and restarts at the root, and returns None when
        the characters end on an internal node. */
    method DecodeHelper(node: Tree, encodedMsg: string, msgSoFar: string) returns (decoded: Option<string>)
      requires root.Node?
      ensures decoded == Prepend(msgSoFar, DecodeFrom(root, node, encodedMsg))
    {
      var cursor, rest, msg := node, encodedMsg, msgSoFar;
      while |rest| > 0
        invariant Prepend(msg, DecodeFrom(root, cursor, rest)) == Prepend(msgSoFar, DecodeFrom(root, node, encodedMsg))
        decreases |rest|, if cursor.Leaf? then 1 else 0
      {
        if cursor.Leaf? {
          ghost var tail := DecodeFrom(root, root, rest);
          assert tail.Some? ==> msg + ([cursor.symbol] + tail.value) == (msg + [cursor.symbol]) + tail.value;
          msg := msg + [cursor.symbol];
          cursor := root;
          continue;
        }
        var nextChar := rest[0];
        if nextChar == '0' {
          cursor := cursor.left;
        } else if nextChar == '1' {
          cursor := cursor.right;
        }
        rest := rest[1..];
      }
      if cursor.Leaf? {
        msg := msg + [cursor.symbol];
        decoded := Some(msg);
      } else {
        decoded := None;
      }
    }
  }

  /** The sample pairs of huffman.py:6. */
  function SampleList(): SymbolList {
    [('A', 2), ('B', 7), ('C', 1)]
  }

  /** The tree the sample pairs build. */
  function SampleTree(): Tree {
    Node(Node(Leaf('C'), Leaf('A'), 'A'), Leaf('B'), 'A')
  }

  /** The usage example of huffman.py:6-8: 'C' and 'A' are joined first,
      'B' is the root's right child, encode("ABC") is "01100", and decoding
      it gives "ABC" back. */
  lemma {:induction false} SampleExample()
    ensures Build(SampleList()) == SampleTree()
    ensures EncodeSpec(SampleTree(), "ABC") == "01100"
    ensures DecodeSpec(SampleTree(), "01100") == Some("ABC")
  {
    SampleBuild();
    SampleEncode();
    SampleDecode();
  }

  lemma {:induction false} SampleDistinct()
    ensures DistinctSymbols(SampleList())
  {
    assert Symbols(SampleList()) == "ABC";
  }

  lemma {:induction false} SampleBuild()
    ensures Build(SampleList()) == SampleTree()
  {
    var list := SampleList();
    var a, b, c := LeafEntry(list[0]), LeafEntry(list[1]), LeafEntry(list[2]);
    SampleQueue();
    var ca := Join(c, a);
    assert ca == Entry(3, 'A', Node(Leaf('C'), Leaf('A'), 'A'));
    assert [c, a, b][2..] == [b];
    assert Insert([b], ca) == [ca, b];
    assert Combine([c, a, b]) == Combine([ca, b]);
    assert [ca, b][2..] == [];
    assert Insert([], Join(ca, b)) == [Join(ca, b)];
    assert Combine([ca, b]) == Combine([Join(ca, b)]);
  }

  lemma {:induction false} SampleQueue()
    ensures MakeQueue(SampleList()) == [LeafEntry(('C', 1)), LeafEntry(('A', 2)), LeafEntry(('B', 7))]
  {
    var list := SampleList();
    var a, b, c := LeafEntry(list[0]), LeafEntry(list[1]), LeafEntry(list[2]);
    assert list[..2] == [list[0], list[1]];
    assert list[..2][..1] == [list[0]];
    assert [list[0]][..0] == list[..0];
    assert MakeQueue([list[0]]) == [a];
    assert Insert([a], b) == [a] + Insert([], b);
    assert MakeQueue(list[..2]) == [a, b];
    assert Insert([a, b], c) == [c, a, b];
  }

  lemma {:induction false} SampleEncode()
    ensures EncodeSpec(SampleTree(), "ABC") == "01100"
  {
    var t, ca := SampleTree(), Node(Leaf('C'), Leaf('A'), 'A');
    assert "" + "0" == "0" && "" + "1" == "1" && "0" + "0" == "00" && "0" + "1" == "01";
    assert EncodeHelper(ca, 'A', "0") == "01";
    assert EncodeHelper(ca, 'B', "0") == "";
    assert EncodeHelper(ca, 'C', "0") == "00";
    assert Code(t, 'A') == "01";
    assert Code(t, 'B') == "1";
    assert Code(t, 'C') == "00";
    assert "ABC"[1..] == "BC" && "BC"[1..] == "C" && "C"[1..] == "";
  }

  lemma {:induction false} SampleDecode()
    ensures DecodeSpec(SampleTree(), "01100") == Some("ABC")
  {
    var t, ca := SampleTree(), Node(Leaf('C'), Leaf('A'), 'A');
    assert "01100"[1..] == "1100" && "1100"[1..] == "100";
    assert Descend(Leaf('A'), "100") == Some(('A', 0));
    assert Descend(ca, "1100") == Some(('A', 1));
    assert Descend(t, "01100") == Some(('A', 2));
    assert "01100"[2..] == "100";
    assert "100"[1..] == "00";
    assert Descend(t, "100") == Some(('B', 1));
    assert "00"[1..] == "0" && "0"[1..] == "";
    assert Descend(ca, "0") == Some(('C', 1));
    assert Descend(t, "00") == Some(('C', 2));
    assert "00"[2..] == "";
    assert ['C'] + "" == "C" && ['B'] + "C" == "BC" && ['A'] + "BC" == "ABC";
    assert DecodeSpec(t, "") == Some("");
    assert DecodeSpec(t, "00") == Some("C");
    assert DecodeSpec(t, "100") == Some("BC");
  }

  /** The client code of huffman.py:6-8, against the class's contracts. */
  method SampleUsage() returns (bits: string, text: Option<string>)
    ensures bits == "01100" && text == Some("ABC")
  {
    SampleExample();
    SampleDistinct();
    var h := new HuffmanTree(SampleList());
    bits := h.Encode("ABC");
    text := h.Decode(bits);
  }
}
