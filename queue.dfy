/** The priority queue of `build_tree`: Python's `heapq` list of tuples
    `(weight, min_element, node)`. It is modelled by the order it yields
    entries in, as a sequence kept sorted by the key `(weight, min_element)`:
    `heappush` inserts in key order and `heappop` takes the head. The heap
    array layout is not modelled. */
module PriorityQueues {
  import opened Trees

  /** One queue tuple `(weight, min_element, node)`. */
  datatype Entry = Entry(weight: nat, minElement: char, node: Tree)

  /** The tuple order of the first two components: weight first, then
      `min_element`. */
  predicate KeyLess(a: Entry, b: Entry) {
    a.weight < b.weight || (a.weight == b.weight && a.minElement < b.minElement)
  }

  /** Entries in strictly increasing key order. */
  predicate Sorted(q: seq<Entry>) {
    forall i, j :: 0 <= i < j < |q| ==> KeyLess(q[i], q[j])
  }

  /** `heappush`: `e` goes before the first entry with a larger key. */
  function Insert(q: seq<Entry>, e: Entry): (r: seq<Entry>)
    ensures multiset(r) == multiset(q) + multiset{e}
    ensures |r| == |q| + 1
  {
    if q == [] || KeyLess(e, q[0]) then [e] + q
    else
      assert q == [q[0]] + q[1..];
      [q[0]] + Insert(q[1..], e)
  }

  /** The head after an insertion is the new entry or the old head. */
  lemma {:induction false} InsertHead(q: seq<Entry>, e: Entry)
    ensures Insert(q, e)[0] == e || (q != [] && Insert(q, e)[0] == q[0])
  {
  }

  /** An entry with a smaller key than the head of a sorted queue can go in
      front of it. */
  lemma {:induction false} SortedCons(x: Entry, r: seq<Entry>)
    requires Sorted(r) && (r != [] ==> KeyLess(x, r[0]))
    ensures Sorted([x] + r)
  {
    forall i, j | 0 <= i < j < |[x] + r| ensures KeyLess(([x] + r)[i], ([x] + r)[j]) {
      if i == 0 && j > 1 {
        assert KeyLess(r[0], r[j - 1]);
      }
    }
  }

  /** Inserting an entry whose `min_element` is not in the queue keeps the
      queue strictly sorted. */
  lemma {:induction false} InsertSorted(q: seq<Entry>, e: Entry)
    requires Sorted(q)
    requires forall i :: 0 <= i < |q| ==> q[i].minElement != e.minElement
    ensures Sorted(Insert(q, e))
  {
    if q == [] || KeyLess(e, q[0]) {
      SortedCons(e, q);
    } else {
      var rest := q[1..];
      InsertSorted(rest, e);
      InsertHead(rest, e);
      assert rest != [] ==> rest[0] == q[1];
      SortedCons(q[0], Insert(rest, e));
    }
  }

  /** The multiset of all leaf symbols of the queued trees. */
  function LeafBag(q: seq<Entry>): multiset<char> {
    if q == [] then multiset{} else multiset(Leaves(q[0].node)) + LeafBag(q[1..])
  }

  /** Pushing adds the leaves of the pushed tree and nothing else. */
  lemma {:induction false} LeafBagInsert(q: seq<Entry>, e: Entry)
    ensures LeafBag(Insert(q, e)) == LeafBag(q) + multiset(Leaves(e.node))
  {
    if q == [] || KeyLess(e, q[0]) {
      assert ([e] + q)[1..] == q;
    } else {
      LeafBagInsert(q[1..], e);
      assert ([q[0]] + Insert(q[1..], e))[1..] == Insert(q[1..], e);
    }
  }

  /** How often symbol `c` is a leaf of entry `e`'s tree. */
  function LeafCount(e: Entry, c: char): nat {
    multiset(Leaves(e.node))[c]
  }

  /** How often `c` is a leaf symbol of each queued tree, in queue order. */
  function LeafCounts(q: seq<Entry>, c: char): seq<nat> {
    seq(|q|, k requires 0 <= k < |q| => LeafCount(q[k], c))
  }

  function Sum(s: seq<nat>): nat {
    if s == [] then 0 else s[0] + Sum(s[1..])
  }

  lemma {:induction false} SumHas(s: seq<nat>, i: nat)
    requires i < |s|
    ensures s[i] <= Sum(s)
  {
    if i > 0 {
      SumHas(s[1..], i - 1);
    }
  }

  lemma {:induction false} SumPair(s: seq<nat>, i: nat, j: nat)
    requires i < j < |s|
    ensures s[i] + s[j] <= Sum(s)
  {
    if i == 0 {
      SumHas(s[1..], j - 1);
    } else {
      SumPair(s[1..], i - 1, j - 1);
    }
  }

  /** The leaf bag counts `c` once per occurrence in each queued tree. */
  lemma {:induction false} LeafBagSum(q: seq<Entry>, c: char)
    ensures LeafBag(q)[c] == Sum(LeafCounts(q, c))
  {
    if q != [] {
      LeafBagSum(q[1..], c);
      assert LeafCounts(q[1..], c) == LeafCounts(q, c)[1..];
    }
  }

  /** A queued tree's leaves are counted in the leaf bag. */
  lemma {:induction false} LeafBagHas(q: seq<Entry>, i: nat, c: char)
    requires i < |q|
    ensures LeafCount(q[i], c) <= LeafBag(q)[c]
  {
    SumHas(LeafCounts(q, c), i);
    LeafBagSum(q, c);
  }

  /** Two queued tuples whose `min_element`s are leaves of their trees have
      different `min_element`s when that symbol is queued at most once. */
  lemma {:induction false} MinsDiffer(q: seq<Entry>, i: nat, j: nat)
    requires i < j < |q|
    requires LeafBag(q)[q[i].minElement] <= 1
    requires q[i].minElement in Leaves(q[i].node) && q[j].minElement in Leaves(q[j].node)
    ensures q[i].minElement != q[j].minElement
  {
    var c := q[i].minElement;
    SumPair(LeafCounts(q, c), i, j);
    LeafBagSum(q, c);
    assert LeafCount(q[i], c) >= 1;
    assert LeafCount(q[j], c) == 0;
    assert LeafCount(q[j], q[j].minElement) >= 1;
  }

  /** When no symbol is queued twice and every entry's `min_element` is one
      of its tree's leaves, the queued `min_element`s are pairwise distinct,
      so no two keys are equal and the nodes themselves are never compared. */
  lemma {:induction false} DistinctMins(q: seq<Entry>)
    requires forall c :: LeafBag(q)[c] <= 1
    requires forall i :: 0 <= i < |q| ==> q[i].minElement in Leaves(q[i].node)
    ensures forall i, j :: 0 <= i < j < |q| ==> q[i].minElement != q[j].minElement
  {
    forall i, j | 0 <= i < j < |q| ensures q[i].minElement != q[j].minElement {
      MinsDiffer(q, i, j);
    }
  }

  /** The `heapq` list itself, which `heappush` and `heappop` change in place. */
  class PriorityQueue {
    var entries: seq<Entry>

    constructor ()
      ensures entries == []
    {
      entries := [];
    }

    /** `len(heap)` */
    function Size(): nat
      reads this
    {
      |entries|
    }

    /** `heapq.heappush`: the entry joins in key order; a sorted queue stays
        sorted when the new `min_element` is not queued yet. */
    method Push(e: Entry)
      modifies this
      ensures entries == Insert(old(entries), e)
      ensures multiset(entries) == multiset(old(entries)) + multiset{e}
      ensures Sorted(old(entries)) && (forall i :: 0 <= i < |old(entries)| ==> old(entries)[i].minElement != e.minElement)
              ==> Sorted(entries)
    {
      if Sorted(entries) && (forall i :: 0 <= i < |entries| ==> entries[i].minElement != e.minElement) {
        InsertSorted(entries, e);
      }
      entries := Insert(entries, e);
    }

    /** `heapq.heappop`: removes and returns the entry with the least key. */
    method Pop() returns (top: Entry)
      requires entries != []
      modifies this
      ensures top == old(entries)[0] && entries == old(entries)[1..]
      ensures Sorted(old(entries)) ==> Sorted(entries) && forall x :: x in entries ==> KeyLess(top, x)
    {
      top := entries[0];
      entries := entries[1..];
    }
  }
}
