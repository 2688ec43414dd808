/** What `HuffmanTree.encode` and `HuffmanTree.decode` compute
    (huffman.py:117-238), as functions of the tree: the per-symbol path
    search of `_encode_helper`, the concatenation `encode` builds, the
    cursor walk of `_decode_helper`, and a symbol-by-symbol reference
    decoder. The two round trips and the prefix property are proved here. */
module Codec {
  import opened Wrappers
  import opened Trees

  /** `_encode_helper`: searches the whole tree for leaf `c`, extending
      `code` with '0' on the left and '1' on the right, and returns the code
      of every matching leaf ("" where the leaf does not match). */
  function EncodeHelper(t: Tree, c: char, code: string): (r: string)
    ensures c !in Leaves(t) ==> r == ""
  {
    match t
    case Leaf(s) => if s == c then code else ""
    case Node(l, r, _) => EncodeHelper(l, c, code + "0") + EncodeHelper(r, c, code + "1")
  }

  /** The code of symbol `c`: its root-to-leaf path, "" when `c` is absent. */
  function Code(t: Tree, c: char): (r: string)
    ensures c !in Leaves(t) ==> r == ""
  {
    EncodeHelper(t, c, "")
  }

  lemma {:induction false} CodeOfNode(l: Tree, r: Tree, m: char, c: char)
    ensures Code(Node(l, r, m), c) == EncodeHelper(l, c, "0") + EncodeHelper(r, c, "1")
  {
    assert "" + "0" == "0" && "" + "1" == "1";
  }

  /** When `c` is exactly one leaf, the helper puts the path after the code
      accumulated so far. */
  lemma {:induction false} EncodeHelperAcc(t: Tree, c: char, code: string)
    requires NoDup(Leaves(t)) && c in Leaves(t)
    ensures EncodeHelper(t, c, code) == code + Code(t, c)
  {
    match t
    case Leaf(_) =>
    case Node(l, r, m) =>
      NoDupChildren(l, r, m);
      CodeOfNode(l, r, m, c);
      if c in Leaves(l) {
        EncodeHelperAcc(l, c, code + "0");
        EncodeHelperAcc(l, c, "0");
      } else {
        EncodeHelperAcc(r, c, code + "1");
        EncodeHelperAcc(r, c, "1");
      }
  }

  /** What `encode` returns: the codes of the symbols of `s`, in order. */
  function EncodeSpec(t: Tree, s: string): string {
    if s == [] then "" else Code(t, s[0]) + EncodeSpec(t, s[1..])
  }

  /** `encode`'s loop appends one code per symbol. */
  lemma {:induction false} EncodeSpecSnoc(t: Tree, s: string, c: char)
    ensures EncodeSpec(t, s + [c]) == EncodeSpec(t, s) + Code(t, c)
  {
    if s == [] {
      assert s + [c] == [c];
      EncodeSpecUnfold(t, [c]);
    } else {
      EncodeSpecSnoc(t, s[1..], c);
      assert (s + [c])[1..] == s[1..] + [c];
      EncodeSpecUnfold(t, s + [c]);
      EncodeSpecUnfold(t, s);
      Assoc(Code(t, s[0]), EncodeSpec(t, s[1..]), Code(t, c));
    }
  }

  lemma {:induction false} EncodeSpecUnfold(t: Tree, s: string)
    requires s != []
    ensures EncodeSpec(t, s) == Code(t, s[0]) + EncodeSpec(t, s[1..])
  {
  }

  lemma {:induction false} Assoc(a: string, b: string, c: string)
    ensures a + (b + c) == (a + b) + c
  {
  }

  /** Every symbol of `s` is a leaf of `t`. */
  predicate OverLeaves(t: Tree, s: string) {
    forall i :: 0 <= i < |s| ==> s[i] in Leaves(t)
  }

  /** Every character is '0' or '1'. */
  predicate IsBits(bits: string) {
    forall i :: 0 <= i < |bits| ==> bits[i] == '0' || bits[i] == '1'
  }

  lemma {:induction false} BitsAppend(a: string, b: string)
    requires IsBits(a) && IsBits(b)
    ensures IsBits(a + b)
  {
    forall i | 0 <= i < |a + b|
      ensures (a + b)[i] == '0' || (a + b)[i] == '1'
    {
      if i < |a| {
        assert (a + b)[i] == a[i];
      } else {
        assert (a + b)[i] == b[i - |a|];
      }
    }
  }

  /** The helper only ever appends '0' or '1' to a code made of bits. */
  lemma {:induction false} EncodeHelperBits(t: Tree, c: char, code: string)
    requires IsBits(code)
    ensures IsBits(EncodeHelper(t, c, code))
  {
    match t
    case Leaf(s) =>
      if s != c {
        assert EncodeHelper(t, c, code) == "";
      }
    case Node(l, r, _) =>
      BitsAppend(code, "0");
      BitsAppend(code, "1");
      EncodeHelperBits(l, c, code + "0");
      EncodeHelperBits(r, c, code + "1");
      BitsAppend(EncodeHelper(l, c, code + "0"), EncodeHelper(r, c, code + "1"));
  }

  /** `encode` returns a string of bits, whatever the message. */
  lemma {:induction false} EncodeSpecBits(t: Tree, s: string)
    ensures IsBits(EncodeSpec(t, s))
  {
    if s != [] {
      assert IsBits("");
      EncodeHelperBits(t, s[0], "");
      EncodeSpecBits(t, s[1..]);
      BitsAppend(Code(t, s[0]), EncodeSpec(t, s[1..]));
    }
  }

  /** The cursor move of `_decode_helper` on an internal node: left on '0',
      right on '1'; any other character leaves the cursor where it is. */
  function Next(t: Tree, b: char): Tree
    requires t.Node?
  {
    if b == '0' then t.left else if b == '1' then t.right else t
  }

  /** Reference decoder for one symbol: walks down from `t` and yields the
      symbol of the leaf reached and the number of characters used, or None
      when the bits end on an internal node. */
  function Descend(t: Tree, bits: string): (r: Option<(char, nat)>)
    ensures r.Some? ==> r.value.1 <= |bits| && (t.Node? ==> r.value.1 >= 1)
    ensures r.None? ==> t.Node?
  {
    if t.Leaf? then Some((t.symbol, 0))
    else if bits == [] then None
    else
      match Descend(Next(t, bits[0]), bits[1..])
      case None => None
      case Some((c, k)) => Some((c, k + 1))
  }

  function Prepend(prefix: string, r: Option<string>): Option<string> {
    match r
    case None => None
    case Some(s) => Some(prefix + s)
  }

  lemma {:induction false} PrependNothing(r: Option<string>)
    ensures Prepend("", r) == r
  {
    if r.Some? {
      assert "" + r.value == r.value;
    }
  }

  /** Reference decoder: one symbol at a time from the root; "" decodes to
      "", and a truncated last code makes the whole result None. */
  function DecodeSpec(root: Tree, bits: string): Option<string>
    requires root.Node?
    decreases |bits|
  {
    if bits == [] then Some("")
    else
      match Descend(root, bits)
      case None => None
      case Some((c, k)) => Prepend([c], DecodeSpec(root, bits[k..]))
  }

  /** What `_decode_helper`'s loop computes from cursor `cur` with `bits`
      left: at a leaf it emits the symbol and restarts at the root,
      otherwise it consumes one character; when the bits are gone it emits
      the leaf it stands on or fails on an internal node. */
  function DecodeFrom(root: Tree, cur: Tree, bits: string): Option<string>
    requires root.Node?
    decreases |bits|, if cur.Leaf? then 1 else 0
  {
    if bits == [] then (if cur.Leaf? then Some([cur.symbol]) else None)
    else if cur.Leaf? then Prepend([cur.symbol], DecodeFrom(root, root, bits))
    else DecodeFrom(root, Next(cur, bits[0]), bits[1..])
  }

  /** The cursor walk agrees with the reference decoder, from any cursor. */
  lemma {:induction false} DecodeFromDescend(root: Tree, cur: Tree, bits: string)
    requires root.Node?
    ensures DecodeFrom(root, cur, bits) ==
            match Descend(cur, bits)
            case None => None
            case Some((c, k)) => Prepend([c], DecodeSpec(root, bits[k..]))
    decreases |bits|, if cur.Leaf? then 1 else 0
  {
    if bits == [] {
      if cur.Leaf? {
        assert [cur.symbol] + "" == [cur.symbol];
      }
    } else if cur.Leaf? {
      DecodeFromDescend(root, root, bits);
      assert bits[0..] == bits;
    } else {
      DecodeFromDescend(root, Next(cur, bits[0]), bits[1..]);
      match Descend(Next(cur, bits[0]), bits[1..])
      case None =>
      case Some((c, k)) =>
        assert bits[1..][k..] == bits[k + 1..];
    }
  }

  /** From the root, with at least one character, the cursor walk is the
      reference decoder. */
  lemma {:induction false} DecodeFromRoot(root: Tree, bits: string)
    requires root.Node? && bits != []
    ensures DecodeFrom(root, root, bits) == DecodeSpec(root, bits)
  {
    DecodeFromDescend(root, root, bits);
  }

  /** Following the code of a leaf from the top reaches that leaf and uses
      exactly the code's characters, whatever follows them. */
  lemma {:induction false} DescendCode(t: Tree, c: char, rest: string)
    requires NoDup(Leaves(t)) && c in Leaves(t)
    ensures Descend(t, Code(t, c) + rest) == Some((c, |Code(t, c)|))
  {
    match t
    case Leaf(_) =>
      assert Code(t, c) + rest == rest;
    case Node(l, r, m) =>
      NoDupChildren(l, r, m);
      CodeOfNode(l, r, m, c);
      if c in Leaves(l) {
        EncodeHelperAcc(l, c, "0");
        assert Code(t, c) == "0" + Code(l, c) + "";
        assert Code(t, c) == ['0'] + Code(l, c);
        DescendCode(l, c, rest);
        Assoc(['0'], Code(l, c), rest);
        DescendCons(t, '0', Code(l, c) + rest, c, |Code(l, c)|);
      } else {
        EncodeHelperAcc(r, c, "1");
        assert Code(t, c) == "" + ("1" + Code(r, c));
        assert Code(t, c) == ['1'] + Code(r, c);
        DescendCode(r, c, rest);
        Assoc(['1'], Code(r, c), rest);
        DescendCons(t, '1', Code(r, c) + rest, c, |Code(r, c)|);
      }
  }

  /** One step of the walk: a character then the rest of the bits. */
  lemma {:induction false} DescendCons(t: Tree, b: char, bits: string, c: char, k: nat)
    requires t.Node? && Descend(Next(t, b), bits) == Some((c, k))
    ensures Descend(t, [b] + bits) == Some((c, k + 1))
  {
    assert ([b] + bits)[0] == b && ([b] + bits)[1..] == bits;
  }

  /** A leaf of a tree with an internal root has a non-empty code. */
  lemma {:induction false} CodeNonEmpty(t: Tree, c: char)
    requires t.Node? && NoDup(Leaves(t)) && c in Leaves(t)
    ensures |Code(t, c)| >= 1
  {
    DescendCode(t, c, "");
    assert Code(t, c) + "" == Code(t, c);
  }

  /** Prefix property: no symbol's code is a prefix of another symbol's code. */
  lemma {:induction false} PrefixFree(t: Tree, c1: char, c2: char, rest: string)
    requires NoDup(Leaves(t)) && c1 in Leaves(t) && c2 in Leaves(t)
    requires Code(t, c2) == Code(t, c1) + rest
    ensures c1 == c2 && rest == ""
  {
    DescendCode(t, c2, "");
    DescendCode(t, c1, rest);
    assert Code(t, c2) + "" == Code(t, c2);
  }

  /** decode(encode(s)) == s for every `s` over the tree's symbols. */
  lemma {:induction false} DecodeEncode(root: Tree, s: string)
    requires root.Node? && NoDup(Leaves(root)) && OverLeaves(root, s)
    ensures DecodeSpec(root, EncodeSpec(root, s)) == Some(s)
  {
    if s != [] {
      var c, bits, tail := s[0], EncodeSpec(root, s), EncodeSpec(root, s[1..]);
      assert c in Leaves(root);
      DescendCode(root, c, tail);
      CodeNonEmpty(root, c);
      assert bits[|Code(root, c)|..] == tail;
      DecodeEncode(root, s[1..]);
      assert [c] + s[1..] == s;
    }
  }

  /** A reference walk over '0'/'1' characters that reaches a leaf has read
      exactly that leaf's code. */
  lemma {:induction false} DescendIsCode(t: Tree, bits: string)
    requires NoDup(Leaves(t)) && IsBits(bits) && Descend(t, bits).Some?
    ensures Descend(t, bits).value.0 in Leaves(t)
    ensures bits[..Descend(t, bits).value.1] == Code(t, Descend(t, bits).value.0)
  {
    match t
    case Leaf(_) =>
    case Node(l, r, m) =>
      NoDupChildren(l, r, m);
      var (c, k) := Descend(t, bits).value;
      var sub := Next(t, bits[0]);
      assert IsBits(bits[1..]);
      DescendIsCode(sub, bits[1..]);
      assert bits[..k] == [bits[0]] + bits[1..][..k - 1];
      CodeOfNode(l, r, m, c);
      if bits[0] == '0' {
        EncodeHelperAcc(l, c, "0");
      } else {
        EncodeHelperAcc(r, c, "1");
      }
  }

  /** encode(decode(bits)) == bits whenever decoding '0'/'1' characters
      succeeds, and the decoded symbols are leaves of the tree. */
  lemma {:induction false} EncodeDecode(root: Tree, bits: string)
    requires root.Node? && NoDup(Leaves(root)) && IsBits(bits)
    requires DecodeSpec(root, bits).Some?
    ensures OverLeaves(root, DecodeSpec(root, bits).value)
    ensures EncodeSpec(root, DecodeSpec(root, bits).value) == bits
    decreases |bits|
  {
    if bits != [] {
      var (c, k) := Descend(root, bits).value;
      DescendIsCode(root, bits);
      assert IsBits(bits[k..]);
      EncodeDecode(root, bits[k..]);
      var s := DecodeSpec(root, bits).value;
      assert s == [c] + DecodeSpec(root, bits[k..]).value;
      assert s[1..] == DecodeSpec(root, bits[k..]).value;
      assert bits == bits[..k] + bits[k..];
    }
  }

  /** Decoding '0'/'1' characters fails exactly when they are not a sequence
      of whole codes, i.e. when they end part-way down the tree. */
  lemma {:induction false} DecodeSucceedsIffCodes(root: Tree, bits: string)
    requires root.Node? && NoDup(Leaves(root)) && IsBits(bits)
    ensures DecodeSpec(root, bits).Some? <==> exists s :: OverLeaves(root, s) && EncodeSpec(root, s) == bits
  {
    if DecodeSpec(root, bits).Some? {
      EncodeDecode(root, bits);
    }
    if exists s :: OverLeaves(root, s) && EncodeSpec(root, s) == bits {
      var s :| OverLeaves(root, s) && EncodeSpec(root, s) == bits;
      DecodeEncode(root, s);
    }
  }
}
