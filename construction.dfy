/** What `HuffmanTree.build_tree` computes (huffman.py:33-113), stated as
    functions on values: the initial queue of leaves, the merge of the two
    entries with the least keys, and the loop that merges until one entry is
    left. The properties of the finished tree are proved here; the methods
    that run the loop are in module `Huffman`. */
module Construction {
  import opened Trees
  import opened PriorityQueues

  /** The constructor's `symbol_list`: `(symbol, weight)` pairs. */
  type SymbolList = seq<(char, nat)>

  function Symbols(list: SymbolList): seq<char> {
    seq(|list|, i requires 0 <= i < |list| => list[i].0)
  }

  /** Each symbol is listed once (the input is a mapping from symbol to weight). */
  predicate DistinctSymbols(list: SymbolList) {
    forall i, j :: 0 <= i < j < |list| ==> list[i].0 != list[j].0
  }

  /** The weight the list gives symbol `c` (its first pair; 0 if absent). */
  function WeightOf(list: SymbolList, c: char): nat {
    if list == [] then 0
    else if list[0].0 == c then list[0].1
    else WeightOf(list[1..], c)
  }

  /** The weight of a subtree: the sum of its leaves' weights. */
  function Weight(t: Tree, list: SymbolList): nat {
    match t
    case Leaf(c) => WeightOf(list, c)
    case Node(l, r, _) => Weight(l, list) + Weight(r, list)
  }

  /** The queue tuple that belongs to a subtree. */
  function EntryOf(t: Tree, list: SymbolList): Entry {
    Entry(Weight(t, list), t.MinElement(), t)
  }

  /** Every internal node's left child has the smaller key. */
  predicate Ordered(t: Tree, list: SymbolList) {
    match t
    case Leaf(_) => true
    case Node(l, r, _) => KeyLess(EntryOf(l, list), EntryOf(r, list)) && Ordered(l, list) && Ordered(r, list)
  }

  /** A queued tuple carries its tree's true weight and `min_element`, and the
      tree is well formed with children in key order. */
  predicate EntryOk(e: Entry, list: SymbolList) {
    e == EntryOf(e.node, list) && WellFormed(e.node) && Ordered(e.node, list)
  }

  predicate AllOk(q: seq<Entry>, list: SymbolList) {
    forall i :: 0 <= i < |q| ==> EntryOk(q[i], list)
  }

  /** The loop invariant of `build_tree`: the queue is in key order, its
      tuples are consistent, and its trees hold every input symbol once. */
  predicate QueueInv(q: seq<Entry>, list: SymbolList) {
    Sorted(q) && AllOk(q, list) && LeafBag(q) == multiset(Symbols(list))
  }

  lemma {:induction false} InsertAllOk(q: seq<Entry>, e: Entry, list: SymbolList)
    requires AllOk(q, list) && EntryOk(e, list)
    ensures AllOk(Insert(q, e), list)
  {
    if q == [] || KeyLess(e, q[0]) {
      assert Insert(q, e) == [e] + q;
    } else {
      InsertAllOk(q[1..], e, list);
      assert Insert(q, e) == [q[0]] + Insert(q[1..], e);
    }
  }

  /** In a queue with the invariant's leaf bag, the `min_element` of each
      tuple is a listed symbol not shared with any other tuple. */
  lemma {:induction false} MinsAreLeaves(q: seq<Entry>, list: SymbolList)
    requires AllOk(q, list)
    ensures forall i :: 0 <= i < |q| ==> q[i].minElement in Leaves(q[i].node)
    ensures forall i :: 0 <= i < |q| ==> q[i].minElement in LeafBag(q)
  {
    forall i | 0 <= i < |q| ensures q[i].minElement in Leaves(q[i].node) && q[i].minElement in LeafBag(q) {
      assert EntryOk(q[i], list);
      MinElementIsLeastLeaf(q[i].node);
      LeafBagHas(q, i, q[i].minElement);
      assert LeafCount(q[i], q[i].minElement) >= 1;
    }
  }

  /** The tuple `_make_heap` queues for one input pair. */
  function LeafEntry(p: (char, nat)): Entry {
    Entry(p.1, p.0, Leaf(p.0))
  }

  /** The tuples of all input pairs, in list order. */
  function LeafEntries(list: SymbolList): seq<Entry> {
    seq(|list|, i requires 0 <= i < |list| => LeafEntry(list[i]))
  }

  /** The queue `_make_heap` returns: every pair pushed in list order. */
  function MakeQueue(list: SymbolList): (q: seq<Entry>)
    ensures |q| == |list|
  {
    if list == [] then []
    else Insert(MakeQueue(list[..|list| - 1]), LeafEntry(list[|list| - 1]))
  }

  /** Leaves start from the input: the queue holds exactly one leaf tuple
      `(weight, symbol, Leaf(symbol))` per input pair. */
  lemma {:induction false} MakeQueueEntries(list: SymbolList)
    ensures multiset(MakeQueue(list)) == multiset(LeafEntries(list))
  {
    if list != [] {
      var pre := list[..|list| - 1];
      MakeQueueEntries(pre);
      assert LeafEntries(list) == LeafEntries(pre) + [LeafEntry(list[|list| - 1])];
    }
  }

  /** One iteration of `build_tree`'s loop on the two popped tuples: a new
      internal node with the first on the left, the second on the right, the
      smaller `min_element` and the summed weight. */
  function Join(a: Entry, b: Entry): (r: Entry)
    ensures r.node.Node? && r.node.left == a.node && r.node.right == b.node
    ensures r.weight == a.weight + b.weight && r.minElement == r.node.MinElement()
    ensures r.minElement <= a.node.MinElement() && r.minElement <= b.node.MinElement()
    ensures r.minElement == a.node.MinElement() || r.minElement == b.node.MinElement()
  {
    var m := MinChar(a.node.MinElement(), b.node.MinElement());
    Entry(a.weight + b.weight, m, Node(a.node, b.node, m))
  }

  /** `build_tree`'s loop: merge until one tuple is left. */
  function Combine(q: seq<Entry>): (r: seq<Entry>)
    ensures |q| >= 1 ==> |r| == 1
    decreases |q|
  {
    if |q| <= 1 then q else Combine(Insert(q[2..], Join(q[0], q[1])))
  }

  /** The root `build_tree` returns. */
  function Build(list: SymbolList): Tree
    requires |list| >= 1
  {
    Combine(MakeQueue(list))[0].node
  }

  lemma {:induction false} DistinctSymbolsOnce(list: SymbolList)
    requires DistinctSymbols(list)
    ensures NoDup(Symbols(list))
  {
    if list != [] {
      var pre := list[..|list| - 1];
      DistinctSymbolsOnce(pre);
      assert Symbols(list) == Symbols(pre) + [list[|list| - 1].0];
      forall c ensures multiset(Symbols(list))[c] <= 1 {
        if c == list[|list| - 1].0 {
          assert c !in Symbols(pre);
        }
      }
    }
  }

  lemma {:induction false} WeightOfListed(list: SymbolList, i: nat)
    requires DistinctSymbols(list) && i < |list|
    ensures WeightOf(list, list[i].0) == list[i].1
  {
    if i > 0 {
      WeightOfListed(list[1..], i - 1);
    }
  }

  /** After pushing the first `k` pairs, the queue is sorted, its tuples
      are consistent, and its leaves are exactly those pairs' symbols. */
  lemma {:induction false} MakeQueueInv(list: SymbolList, k: nat)
    requires DistinctSymbols(list) && k <= |list|
    ensures Sorted(MakeQueue(list[..k])) && AllOk(MakeQueue(list[..k]), list)
    ensures LeafBag(MakeQueue(list[..k])) == multiset(Symbols(list[..k]))
  {
    if k > 0 {
      MakeQueueInv(list, k - 1);
      assert list[..k][..k - 1] == list[..k - 1];
      PushLeaf(MakeQueue(list[..k - 1]), list, k - 1);
    }
  }

  /** One iteration of `_make_heap`'s loop keeps the queue sorted and
      consistent: the new symbol is not queued yet, so its key is new. */
  lemma {:induction false} PushLeaf(q: seq<Entry>, list: SymbolList, k: nat)
    requires DistinctSymbols(list) && k < |list|
    requires Sorted(q) && AllOk(q, list) && LeafBag(q) == multiset(Symbols(list[..k]))
    ensures Sorted(Insert(q, LeafEntry(list[k]))) && AllOk(Insert(q, LeafEntry(list[k])), list)
    ensures LeafBag(Insert(q, LeafEntry(list[k]))) == multiset(Symbols(list[..k + 1]))
  {
    var e := LeafEntry(list[k]);
    LeafEntryOk(list, k);
    LeafKeyIsNew(q, list, k);
    InsertSorted(q, e);
    InsertAllOk(q, e, list);
    LeafBagPush(q, list, k);
  }

  /** Queuing the leaf of pair `k` adds its symbol to the leaf bag. */
  lemma {:induction false} LeafBagPush(q: seq<Entry>, list: SymbolList, k: nat)
    requires k < |list| && LeafBag(q) == multiset(Symbols(list[..k]))
    ensures LeafBag(Insert(q, LeafEntry(list[k]))) == multiset(Symbols(list[..k + 1]))
  {
    var c := list[k].0;
    LeafBagInsert(q, LeafEntry(list[k]));
    assert multiset(Leaves(Leaf(c))) == multiset{c} by {
      assert Leaves(Leaf(c)) == [c];
    }
    SymbolsSnoc(list, k);
  }

  lemma {:induction false} SymbolsSnoc(list: SymbolList, k: nat)
    requires k < |list|
    ensures multiset(Symbols(list[..k + 1])) == multiset(Symbols(list[..k])) + multiset{list[k].0}
  {
    var s, t := Symbols(list[..k]), Symbols(list[..k + 1]);
    assert t == s + [list[k].0];
  }

  /** The symbol of pair `k` is not the `min_element` of any tuple queued
      from the pairs before it. */
  lemma {:induction false} LeafKeyIsNew(q: seq<Entry>, list: SymbolList, k: nat)
    requires DistinctSymbols(list) && k < |list|
    requires AllOk(q, list) && LeafBag(q) == multiset(Symbols(list[..k]))
    ensures forall i :: 0 <= i < |q| ==> q[i].minElement != list[k].0
  {
    MinsAreLeaves(q, list);
    forall i | 0 <= i < |q| ensures q[i].minElement != list[k].0 {
      UnlistedBefore(list, k, q[i].minElement);
    }
  }

  /** With distinct symbols, a symbol of the first `k` pairs is not the
      symbol of pair `k`. */
  lemma {:induction false} UnlistedBefore(list: SymbolList, k: nat, c: char)
    requires DistinctSymbols(list) && k < |list|
    requires c in multiset(Symbols(list[..k]))
    ensures c != list[k].0
  {
    var j :| 0 <= j < k && Symbols(list[..k])[j] == c;
  }

  lemma {:induction false} LeafEntryOk(list: SymbolList, k: nat)
    requires DistinctSymbols(list) && k < |list|
    ensures EntryOk(LeafEntry(list[k]), list)
  {
    WeightOfListed(list, k);
  }

  /** One merge keeps the invariant; the two popped tuples are in key order,
      so the left child is the one with the smaller key. */
  lemma {:induction false} MergeStep(q: seq<Entry>, list: SymbolList)
    requires DistinctSymbols(list) && QueueInv(q, list) && |q| >= 2
    ensures KeyLess(q[0], q[1])
    ensures QueueInv(Insert(q[2..], Join(q[0], q[1])), list)
  {
    var rest, e := q[2..], Join(q[0], q[1]);
    JoinOk(q[0], q[1], list);
    JoinKeyIsNew(q, list);
    RestOk(q, list);
    InsertSorted(rest, e);
    LeafBagInsert(rest, e);
    InsertAllOk(rest, e, list);
    assert LeafBag(q) == multiset(Leaves(q[0].node)) + (multiset(Leaves(q[1].node)) + LeafBag(rest)) by {
      assert q[1..][1..] == rest;
    }
  }

  /** What is left after two pops is still sorted and consistent. */
  lemma {:induction false} RestOk(q: seq<Entry>, list: SymbolList)
    requires Sorted(q) && AllOk(q, list) && |q| >= 2
    ensures Sorted(q[2..]) && AllOk(q[2..], list)
  {
    forall i | 0 <= i < |q| - 2 ensures EntryOk(q[2..][i], list) {
      assert q[2..][i] == q[i + 2];
    }
  }

  /** The merged tuple's `min_element` is not that of any tuple left in the
      queue, so pushing it creates no key tie. */
  lemma {:induction false} JoinKeyIsNew(q: seq<Entry>, list: SymbolList)
    requires DistinctSymbols(list) && QueueInv(q, list) && |q| >= 2
    ensures forall i :: 0 <= i < |q| - 2 ==> q[2..][i].minElement != Join(q[0], q[1]).minElement
  {
    DistinctSymbolsOnce(list);
    MinsAreLeaves(q, list);
    DistinctMins(q);
    assert Join(q[0], q[1]).minElement == q[0].minElement || Join(q[0], q[1]).minElement == q[1].minElement by {
      assert EntryOk(q[0], list) && EntryOk(q[1], list);
    }
    forall i | 0 <= i < |q| - 2 ensures q[2..][i].minElement != Join(q[0], q[1]).minElement {
      assert q[2..][i] == q[i + 2];
    }
  }

  /** The merged tuple is consistent: its weight is the sum of the popped
      weights, its `min_element` the smaller one, and its children are in
      key order. */
  lemma {:induction false} JoinOk(a: Entry, b: Entry, list: SymbolList)
    requires EntryOk(a, list) && EntryOk(b, list) && KeyLess(a, b)
    ensures EntryOk(Join(a, b), list)
    ensures Join(a, b).weight == a.weight + b.weight
    ensures Join(a, b).minElement == MinChar(a.minElement, b.minElement)
  {
  }

  /** Each merge shrinks the queue by one; the loop keeps the invariant and
      stops with exactly one tuple. */
  lemma {:induction false} CombineInv(q: seq<Entry>, list: SymbolList)
    requires DistinctSymbols(list) && QueueInv(q, list) && |q| >= 1
    ensures |Combine(q)| == 1 && QueueInv(Combine(q), list)
    decreases |q|
  {
    if |q| > 1 {
      MergeStep(q, list);
      CombineInv(Insert(q[2..], Join(q[0], q[1])), list);
    }
  }

  /** The finished tree: every input symbol is exactly one leaf, every
      internal node's `min_element` is the smaller of its children's and its
      left child has the smaller key, and with at least two symbols the root
      is an internal node. */
  lemma {:induction false} BuildShape(list: SymbolList)
    requires |list| >= 2 && DistinctSymbols(list)
    ensures multiset(Leaves(Build(list))) == multiset(Symbols(list))
    ensures NoDup(Leaves(Build(list)))
    ensures WellFormed(Build(list)) && Ordered(Build(list), list)
    ensures Build(list).Node?
  {
    FinalQueue(list);
    var q := Combine(MakeQueue(list));
    assert EntryOk(q[0], list);
    DistinctSymbolsOnce(list);
    assert |Leaves(q[0].node)| == |list| by {
      assert |multiset(Leaves(q[0].node))| == |multiset(Symbols(list))|;
    }
  }

  /** The queue `build_tree` ends with: one consistent tuple whose tree
      holds exactly the input symbols. */
  lemma {:induction false} FinalQueue(list: SymbolList)
    requires |list| >= 1 && DistinctSymbols(list)
    ensures |Combine(MakeQueue(list))| == 1 && QueueInv(Combine(MakeQueue(list)), list)
    ensures multiset(Leaves(Combine(MakeQueue(list))[0].node)) == multiset(Symbols(list))
  {
    MakeQueueInv(list, |list|);
    assert list[..|list|] == list;
    CombineInv(MakeQueue(list), list);
    var q := Combine(MakeQueue(list));
    assert LeafBag(q) == multiset(Leaves(q[0].node)) + LeafBag(q[1..]);
  }
}
