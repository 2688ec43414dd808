# Huffman coding engine and majority vote, modelled in Dafny

This project models the two classes of the `huffman-encoding` repository:

* `HuffmanTree` (huffman.py) builds a Huffman tree from `(symbol, weight)`
  pairs with a priority queue keyed by `(weight, min_element)`. It then
  encodes a string of symbols into a string of `'0'`/`'1'` characters and
  decodes such a string back. Decoding returns `None` when the characters end
  part-way down the tree.
* `BoyerMooreMajority` (boyer_moore.py) is the streaming majority vote: a
  `guess` and a `counter`, updated by `add_next_element` and read by
  `get_majority`.

Layout, one module per file:

| file | module | what it holds |
|---|---|---|
| wrappers.dfy | `Wrappers` | `Option`, for `decode`'s `None` and the majority guess |
| trees.dfy | `Trees` | `TreeNode` as the datatype `Tree`, its leaves, its `min_element` invariant |
| queue.dfy | `PriorityQueues` | the `heapq` list as class `PriorityQueue` over a key-ordered sequence; `heappush`/`heappop` |
| construction.dfy | `Construction` | what `_make_heap` and `build_tree` compute, as functions, and the shape of the finished tree |
| codec.dfy | `Codec` | what `_encode_helper`, `encode` and `_decode_helper` compute, a reference decoder, both round trips and the prefix property |
| huffman.dfy | `Huffman` | class `HuffmanTree` with the source's methods as Dafny methods (loops and all), and the file's usage example |
| boyer_moore.dfy | `BoyerMoore` | class `BoyerMooreMajority` and its correctness |

Symbols are `char`, encoded and decoded texts are `string`, and weights are
`nat`. The methods of `HuffmanTree` are proved against the functions of
`Construction` and `Codec`. The properties are proved about those functions:
`BuildTree` returns `Build(list)`, `Encode` returns `EncodeSpec(root, s)`, and
`Decode` returns `DecodeSpec(root, bits)`.

What the code does at its edges, and the model with it:

* `encode` gives `''` for a symbol that is not in the tree and raises no
  error: `_encode_helper` returns `''` at every non-matching leaf
  (huffman.py:160-162).
* `decode` returns `None` when the characters end part-way down the tree; it
  raises no error (huffman.py:230-235).
* The constructor only checks that there are at least two pairs
  (huffman.py:29). It does not check for repeated symbols.

## Model

| member | source | states |
|---|---|---|
| `Trees.MinChar` | huffman.py:64-67 | the chosen `min_element` is no larger than either child's and is one of them |
| `Trees.MinElementIsLeastLeaf` | huffman.py:62-67 | in a well-formed subtree, `min_element` is one of its leaf symbols and no leaf symbol is smaller |
| `PriorityQueues.KeyLess` | huffman.py:70 | the order `heapq` uses on the pushed tuples: by weight, and on equal weights by `min_element`, as Python compares tuples component by component |
| `PriorityQueues.Insert` | huffman.py:71 | `heappush` yields the old queue plus exactly the pushed tuple (a permutation), one longer |
| `PriorityQueues.InsertSorted` | huffman.py:71 | pushing a tuple whose `min_element` is not queued keeps the queue strictly ordered by `(weight, min_element)` |
| `PriorityQueues.LeafBagInsert` | huffman.py:71 | pushing adds the leaves of the pushed tree to the queued leaves and nothing else |
| `PriorityQueues.DistinctMins` | huffman.py:110 | when no symbol is queued twice, queued `min_element`s are pairwise distinct, so keys never tie and the node itself is never compared |
| `PriorityQueues.PriorityQueue.constructor` | huffman.py:98-99 | the heap starts empty |
| `PriorityQueues.PriorityQueue.Push` | huffman.py:71 | `heappush` inserts in key order, adds exactly the tuple, and keeps a sorted queue sorted when the new key is new |
| `PriorityQueues.PriorityQueue.Pop` | huffman.py:84-85 | `heappop` removes and returns the head, which in a sorted queue has a smaller key than every remaining tuple |
| `Construction.MakeQueueEntries` | huffman.py:102-111 | the initial queue holds exactly one tuple `(weight, symbol, Leaf(symbol))` per input pair |
| `Construction.LeafEntryOk` | huffman.py:105-110 | a leaf tuple's weight is its pair's weight and its `min_element` is its symbol |
| `Construction.LeafEntry` | huffman.py:105-110 | definition of the tuple `_make_heap` pushes for a pair: weight first, then the symbol as `min_element`, then a leaf holding the symbol |
| `Construction.MakeQueue` | huffman.py:98-113 | the queue `_make_heap` returns: every pair's leaf tuple pushed in list order, one per pair |
| `Construction.PushLeaf` | huffman.py:102-111 | one iteration of `_make_heap` keeps the queue sorted and consistent and adds exactly the pair's symbol |
| `Construction.MakeQueueInv` | huffman.py:98-113 | after the first k pairs the queue is sorted, consistent, and its leaves are exactly those pairs' symbols |
| `Construction.Join` | huffman.py:52-70 | one merge: a new node with the first popped node on the left and the second on the right, `min_element` the smaller of theirs (and one of them), weight the sum of theirs |
| `Construction.Combine` | huffman.py:47-71 | merging until one tuple is left ends with exactly one tuple |
| `Construction.JoinOk` | huffman.py:52-70 | the merged node has the popped nodes as left and right children, the smaller `min_element`, and the sum of the popped weights |
| `Construction.MergeStep` | huffman.py:47-71 | one loop iteration keeps the queue invariant, and the left child (first pop) has a strictly smaller key than the right child |
| `Construction.CombineInv` | huffman.py:47-74 | the loop keeps the queue invariant and stops with one tuple |
| `Construction.Build` | huffman.py:44-74 | the root `build_tree` returns: the node of the single tuple left after merging the initial queue |
| `Construction.FinalQueue` | huffman.py:73-74 | the last tuple's tree holds exactly the input symbols |
| `Construction.BuildShape` | huffman.py:33-74 | every input symbol is exactly one leaf; every internal node has the correct `min_element` and its smaller-key child on the left; with two or more pairs the root is internal |
| `Codec.EncodeHelper` | huffman.py:144-169 | the helper returns "" for a symbol that is not a leaf of the subtree |
| `Codec.Code` | huffman.py:136-139 | a symbol's code is the helper's result from the root with an empty code so far; "" for a symbol not in the tree |
| `Codec.EncodeHelperAcc` | huffman.py:155-169 | for a symbol that is exactly one leaf, the helper returns the accumulated code followed by the leaf's path |
| `Codec.EncodeSpec` | huffman.py:129-142 | what `encode` returns: the codes of the symbols, in order; "" for "" |
| `Codec.EncodeHelperBits` | huffman.py:160-169 | every character the helper adds to a code is '0' or '1' |
| `Codec.EncodeSpecBits` | huffman.py:115-142 | the result of `encode` is a string of bits: every character is '0' or '1', whatever the message |
| `Codec.EncodeSpecSnoc` | huffman.py:135-140 | encoding one more symbol appends that symbol's code |
| `Codec.Descend` | huffman.py:208-225 | one symbol's walk uses no more characters than it has, and at least one from an internal node |
| `Codec.Next` | huffman.py:219-222 | the cursor moves left on '0', right on '1', and stays where it is on any other character |
| `Codec.DecodeFrom` | huffman.py:207-238 | what `_decode_helper`'s loop computes from a cursor: at a leaf it emits the symbol and restarts at the root, otherwise it consumes one character; at the end it emits the leaf it stands on or gives `None` on an internal node |
| `Codec.DecodeFromDescend` | huffman.py:207-238 | the cursor loop, from any cursor, equals the reference walk followed by the symbol-by-symbol reference decoder |
| `Codec.DecodeFromRoot` | huffman.py:189-192 | from the root, with at least one character, the cursor loop is the reference decoder |
| `Codec.DescendCode` | huffman.py:216-225 | walking a leaf's code from the root reaches that leaf after exactly the code's characters |
| `Codec.CodeNonEmpty` | huffman.py:155-169 | with an internal root every leaf's code has at least one bit |
| `Codec.PrefixFree` | huffman.py:144-169 | no leaf's code is a prefix of another leaf's code |
| `Codec.DecodeEncode` | huffman.py:8 | `decode(encode(s)) == s` for every string over the tree's symbols |
| `Codec.DescendIsCode` | huffman.py:216-225 | a walk over '0'/'1' that reaches a leaf has read exactly that leaf's code |
| `Codec.EncodeDecode` | huffman.py:227-238 | when decoding '0'/'1' characters succeeds, the result is over the tree's symbols and encoding it gives the same characters back |
| `Codec.DecodeSucceedsIffCodes` | huffman.py:227-235 | decoding '0'/'1' characters returns `None` exactly when they are not a sequence of whole codes |
| `Huffman.HuffmanTree.constructor` | huffman.py:28-31 | the root is the built tree, internal, well formed, with each input symbol as exactly one leaf |
| `Huffman.HuffmanTree.Create` | huffman.py:28-31 | fewer than two pairs are rejected; otherwise a new tree with the built root is returned |
| `Huffman.HuffmanTree.BuildTree` | huffman.py:33-74 | the loop returns the built root after exactly one merge per pair less one |
| `Huffman.HuffmanTree.GetNextTwoNodes` | huffman.py:76-87 | two pops return the two head tuples; from a sorted queue, the first has the smaller key and both precede every remaining tuple |
| `Huffman.HuffmanTree.MakeHeap` | huffman.py:90-113 | the new heap holds the leaf tuples pushed in list order |
| `Huffman.HuffmanTree.Encode` | huffman.py:115-142 | the result is the concatenation, in order, of each symbol's code; "" for ""; it consists of '0' and '1' only |
| `Huffman.HuffmanTree.Decode` | huffman.py:173-194 | the result is the reference decoding: `Some("")` for "", `None` for a truncated code |
| `Huffman.HuffmanTree.DecodeHelper` | huffman.py:196-238 | the cursor loop returns the message so far followed by the cursor walk's result, or `None` |
| `Huffman.SampleExample` | huffman.py:6-8 | for `[('A',2),('B',7),('C',1)]` the tree is ((C A) B), `encode("ABC") == "01100"`, and decoding gives "ABC" |
| `Huffman.SampleUsage` | huffman.py:6-8 | the sample client, checked against the class's contracts: `encode("ABC")` gives "01100" and decoding that gives "ABC" back |
| `BoyerMoore.BoyerMooreMajority.constructor` | boyer_moore.py:8-10 | the counter starts with no guess, a zero counter and nothing added |
| `BoyerMoore.BoyerMooreMajority.AddNextElement` | boyer_moore.py:14-26 | at counter 0 the element becomes the guess with counter 1; otherwise the counter goes up for the guess and down for any other element; the counter stays between 0 and the number added, and the guess is an added element |
| `BoyerMoore.BoyerMooreMajority.GetMajority` | boyer_moore.py:28-33 | returns the guess and changes nothing; a value occurring in more than half of the added elements is the guess |
| `BoyerMoore.AddAll` | boyer_moore.py:36-40 | feeding a list adds its elements in order, each by `add_next_element`, and the state stays consistent |
| `BoyerMoore.SampleUsage` | boyer_moore.py:36-42 | the commented-out client: feeding `[2, 2, 2, 4, 5, 5, 2, 2, 3]` reports 2 |

## Left out

- `heapq`'s array layout (sift-up, sift-down) is not modelled. The heap is a sequence kept in key order. With distinct symbols the keys never tie, so it yields tuples in the same order as the heap does. `BuildTree` also accepts repeated symbols. Tied keys then come out in the sequence's order, which need not be the order `heapq` gives.
- Huffman.HuffmanTree.constructor: requires distinct symbols, which the source does not check. With a repeated symbol and equal weights, the keys tie and Python then compares the two `TreeNode` objects (Python 3 raises `TypeError`; Python 2 orders them by an arbitrary but fixed rule). With a repeated symbol and different weights, the keys need not tie; then the source builds a tree with that symbol at two leaves, and `encode` emits both codes for it one after the other (huffman.py:166-169). The model does not cover either case.
- Huffman.HuffmanTree.Create: requires distinct symbols, for the same reason.
- `TreeNode` fields that are assigned after the node is created become an immutable datatype built in one step. No node is shared, so nothing observable is lost.
- Weights are natural numbers. Float weights and Python's other numeric types are not modelled.
- Symbols are single characters. `decode` concatenates the symbols and `encode` iterates over characters, so longer symbols would not round-trip in the source either.
- The `assert ... is not None` checks of `encode` and `decode` are not modelled, because a Dafny string cannot be `None`.
- BoyerMoore.BoyerMooreMajority: elements are compared with a lawful equality, where every value equals itself. In the source, a value not equal to itself, such as `float('nan')`, becomes the guess at counter 0 and then lowers the counter to -1 in the same call (boyer_moore.py:18-26). The model does not cover that.
- The `assert element is not None` check of `add_next_element` is not modelled. The element type has no `None` value, so the rejected call cannot be written.
- No optimality of the tree (minimal weighted path length) is proved. The code does not promise it.
- Independence of the tree from the order of the input list is not proved.
- `BinaryTreeToString` (a printing helper), drafts/huffman_old.py (a superseded draft) and heap_ex.py (a demo) are not part of this model.
