/**
 * huffman.c: the Huffman tree built from the input bytes (huffman_generate),
 * the code table read off the tree (huffman_encode_table, huffman_encode),
 * and the decoding walk that inverts the table (huffman_decode, declared at
 * include/huffman.h:62-67 and given here as a specification).
 *
 * A code is the path from the root to a leaf: a step to the left child is a
 * 0 bit, a step to the right child a 1 bit (huffman.c:17-18).
 */
module Huffman {
  import opened BitSeq
  import opened HuffmanNode
  import opened PrioQueue
  import opened Wrappers

  // ---------------------------------------------------------------------------
  // Trees
  // ---------------------------------------------------------------------------

  /**
   * The shape huffman_generate builds: every leaf counts a symbol that occurs,
   * and every branch weighs what its two children weigh together, the left
   * one (taken first from the queue) no more than the right one.
   */
  ghost predicate WellFormed(t: Tree)
  {
    match t
    case Leaf(_, w) => w >= 1
    case Branch(l, r, w) => w == l.weight + r.weight && l.weight <= r.weight && WellFormed(l) && WellFormed(r)
  }

  /** Every occurrence a tree accounts for: each leaf symbol, as often as its weight says. */
  function Occurrences(t: Tree): multiset<uint8>
  {
    match t
    case Leaf(s, w) => multiset{}[s := w]
    case Branch(l, r, _) => Occurrences(l) + Occurrences(r)
  }

  /** The leaf symbols, once per leaf. */
  function Symbols(t: Tree): multiset<uint8>
  {
    match t
    case Leaf(s, _) => multiset{s}
    case Branch(l, r, _) => Symbols(l) + Symbols(r)
  }

  /** No symbol labels two leaves. */
  ghost predicate DistinctLeaves(t: Tree)
  {
    forall s :: Symbols(t)[s] <= 1
  }

  /** The internal nodes, the ones with `is_branch` set. */
  function Branches(t: Tree): nat
  {
    match t
    case Leaf(_, _) => 0
    case Branch(l, r, _) => 1 + Branches(l) + Branches(r)
  }

  /** The length of the longest root-to-leaf path. */
  function Height(t: Tree): nat
  {
    match t
    case Leaf(_, _) => 0
    case Branch(l, r, _) => 1 + if Height(l) < Height(r) then Height(r) else Height(l)
  }

  /** The subtree reached from t by following p (false: left, true: right). */
  function Follow(t: Tree, p: seq<bool>): Option<Tree>
  {
    if p == [] then Some(t)
    else match t
      case Leaf(_, _) => None
      case Branch(l, r, _) => Follow(if p[0] then r else l, p[1..])
  }

  /** The path to the leftmost leaf labelled s. */
  function PathTo(t: Tree, s: uint8): (p: seq<bool>)
    requires s in Symbols(t)
    ensures Follow(t, p).Some? && Follow(t, p).value.Leaf? && Follow(t, p).value.symbol == s
    ensures |p| <= Height(t)
  {
    match t
    case Leaf(_, _) => []
    case Branch(l, r, _) => if s in Symbols(l) then [false] + PathTo(l, s) else [true] + PathTo(r, s)
  }

  /** A well-formed tree weighs as much as it counts occurrences, and at least 1. */
  lemma {:induction false} WeightConserved(t: Tree)
    requires WellFormed(t)
    ensures t.weight == |Occurrences(t)| && t.weight >= 1
  {
    match t
    case Leaf(_, _) =>
    case Branch(l, r, _) =>
      WeightConserved(l);
      WeightConserved(r);
  }

  /** A strictly binary tree has one branch fewer than it has leaves. */
  lemma {:induction false} BranchCount(t: Tree)
    ensures Branches(t) + 1 == |Symbols(t)|
  {
    match t
    case Leaf(_, _) =>
    case Branch(l, r, _) =>
      BranchCount(l);
      BranchCount(r);
  }

  /** A symbol with no leaf has no occurrences. */
  lemma {:induction false} NoLeafNoOccurrence(t: Tree, s: uint8)
    requires s !in Symbols(t)
    ensures Occurrences(t)[s] == 0
  {
    match t
    case Leaf(_, _) =>
    case Branch(l, r, _) =>
      NoLeafNoOccurrence(l, s);
      NoLeafNoOccurrence(r, s);
  }

  /** With distinct leaves, the leaf of s weighs exactly the occurrences of s. */
  lemma {:induction false} LeafWeight(t: Tree, s: uint8)
    requires DistinctLeaves(t) && s in Symbols(t)
    ensures Follow(t, PathTo(t, s)) == Some(Leaf(s, Occurrences(t)[s]))
  {
    match t
    case Leaf(x, w) =>
      assert x == s;
      assert Occurrences(t)[s] == w;
    case Branch(l, r, _) =>
      DistinctChildren(t);
      var b := s !in Symbols(l);
      LeafWeight(if b then r else l, s);
      LeafWeightUp(t, s, b);
  }

  /** LeafWeight for a branch, from LeafWeight for the child holding s. */
  lemma LeafWeightUp(t: Tree, s: uint8, b: bool)
    requires t.Branch? && b == (s !in Symbols(t.left))
    requires s in Symbols(if b then t.right else t.left) && s !in Symbols(if b then t.left else t.right)
    requires Follow(if b then t.right else t.left, PathTo(if b then t.right else t.left, s))
      == Some(Leaf(s, Occurrences(if b then t.right else t.left)[s]))
    ensures Follow(t, PathTo(t, s)) == Some(Leaf(s, Occurrences(t)[s]))
  {
    var child, other := if b then t.right else t.left, if b then t.left else t.right;
    NoLeafNoOccurrence(other, s);
    assert Occurrences(t)[s] == Occurrences(child)[s] + Occurrences(other)[s];
    FollowPathDown(t, s, b);
  }

  /** The path to s from a branch is one step to the child holding s, then that child's path. */
  lemma FollowPathDown(t: Tree, s: uint8, b: bool)
    requires t.Branch? && b == (s !in Symbols(t.left)) && s in Symbols(t)
    ensures Follow(t, PathTo(t, s)) == Follow(if b then t.right else t.left, PathTo(if b then t.right else t.left, s))
  {
    var p := PathTo(t, s);
    assert p[0] == b && p[1..] == PathTo(if b then t.right else t.left, s);
  }

  /** The subtrees of a tree with distinct leaves have distinct leaves, and no symbol in common. */
  lemma DistinctChildren(t: Tree)
    requires t.Branch? && DistinctLeaves(t)
    ensures DistinctLeaves(t.left) && DistinctLeaves(t.right)
    ensures forall s :: s in Symbols(t.left) ==> s !in Symbols(t.right)
  {
    forall c ensures Symbols(t.left)[c] <= 1 && Symbols(t.right)[c] <= 1 {
      assert Symbols(t)[c] == Symbols(t.left)[c] + Symbols(t.right)[c];
    }
    forall c | c in Symbols(t.left) ensures c !in Symbols(t.right) {
      assert Symbols(t)[c] == Symbols(t.left)[c] + Symbols(t.right)[c];
    }
  }

  /**
   * No path to a leaf is a proper prefix of a path that leads anywhere:
   * following past a leaf reaches nothing.
   */
  lemma {:induction false} PrefixFree(t: Tree, p: seq<bool>, q: seq<bool>)
    requires Follow(t, p).Some? && Follow(t, p).value.Leaf? && Follow(t, q).Some?
    ensures !(p < q)
    decreases p
  {
    if p != [] && q != [] && p[0] == q[0] {
      match t
      case Branch(l, r, _) =>
        assert (p < q) == (p[1..] < q[1..]);
        PrefixFree(if p[0] then r else l, p[1..], q[1..]);
    }
  }

  /** The codes of two different symbols: neither begins the other. */
  lemma SymbolsPrefixFree(t: Tree, s1: uint8, s2: uint8)
    requires s1 in Symbols(t) && s2 in Symbols(t) && s1 != s2
    ensures !(PathTo(t, s1) <= PathTo(t, s2))
  {
    PrefixFree(t, PathTo(t, s1), PathTo(t, s2));
  }

  /** With distinct leaves, the leaf of s is reached by no other path. */
  lemma {:induction false} PathUnique(t: Tree, s: uint8, p: seq<bool>)
    requires DistinctLeaves(t)
    requires Follow(t, p).Some? && Follow(t, p).value.Leaf? && Follow(t, p).value.symbol == s
    ensures s in Symbols(t) && p == PathTo(t, s)
    decreases p
  {
    match t
    case Leaf(_, _) =>
    case Branch(l, r, _) =>
      DistinctChildren(t);
      PathUnique(if p[0] then r else l, s, p[1..]);
      assert p == [p[0]] + p[1..];
  }

  // ---------------------------------------------------------------------------
  // The code table (huffman_encode_table, huffman_encode)
  // ---------------------------------------------------------------------------

  /** A symbol's code: its bits in the low bit_len bits of a uint64 (huffman.c:138-141). */
  datatype SymCode = SymCode(code: uint64, bitLen: nat)

  const Modulus: nat := 0x1_0000_0000_0000_0000

  /** The number whose binary digits, most significant first, are p. */
  function Value(p: seq<bool>): nat
  {
    if p == [] then 0 else 2 * Value(p[..|p| - 1]) + if p[|p| - 1] then 1 else 0
  }

  /** The code of a path as huffman_encode_table keeps it: the path's value wrapped to 64 bits. */
  function CodeOf(p: seq<bool>): SymCode
  {
    SymCode((Value(p) % Modulus) as uint64, |p|)
  }

  /** The bits a code stands for: the low bit_len bits of code, most significant first. */
  function CodeBits(c: SymCode): seq<bool>
  {
    Field(c.code as nat, c.bitLen)
  }

  /**
   * huffman.c:152-155: the code one step further down, `prev_code << 1` on a
   * uint64 for the left child and `(prev_code << 1) + 1` for the right one.
   */
  function Extend(prev: uint64, right: bool): (c: uint64)
    ensures c as nat == (2 * prev as nat + if right then 1 else 0) % Modulus
  {
    var shifted := (2 * prev as nat) % Modulus;
    ShiftedEven(prev as nat);
    if right then (shifted + 1) as uint64 else shifted as uint64
  }

  lemma ShiftedEven(v: nat)
    ensures (2 * v) % Modulus % 2 == 0
    ensures (2 * v) % Modulus + 1 == (2 * v + 1) % Modulus
  {
    var q := (2 * v) / Modulus;
    assert 2 * v == Modulus * q + (2 * v) % Modulus;
    assert (2 * v) % Modulus == 2 * (v - q * (Modulus / 2));
    DivUnique(2 * v + 1, Modulus, q, (2 * v) % Modulus + 1);
  }

  /**
   * huffman.c:143-165: walk the tree depth first, left subtree first,
   * carrying the code by value; a branch makes the code one bit longer, a
   * leaf puts its symbol and the code reached into the table.
   */
  function EncodeTable(h: map<uint8, SymCode>, t: Tree, key: SymCode): (r: map<uint8, SymCode>)
    ensures forall s :: s in r <==> s in h || s in Symbols(t)
    decreases t
  {
    match t
    case Leaf(s, _) => h[s := key]
    case Branch(l, r, _) =>
      var bitLen := key.bitLen + 1;
      var left := EncodeTable(h, l, SymCode(Extend(key.code, false), bitLen));
      EncodeTable(left, r, SymCode(Extend(key.code, true), bitLen))
  }

  /**
   * huffman.c:167-177: the table of a tree, built from an empty map and the
   * empty code; no tree (a null root) gives the empty table.
   */
  function Encode(root: Option<Tree>): (r: map<uint8, SymCode>)
  {
    if root.None? then map[] else EncodeTable(map[], root.value, SymCode(0, 0))
  }

  /** A path one step longer has twice the value, plus the step. */
  lemma ValueStep(p: seq<bool>, b: bool)
    ensures Value(p + [b]) == 2 * Value(p) + if b then 1 else 0
  {
    assert (p + [b])[..|p|] == p;
  }

  /** The low |p| bits of the value of p are p itself. */
  lemma {:induction false} FieldValue(p: seq<bool>)
    ensures Field(Value(p), |p|) == p
    decreases |p|
  {
    if p != [] {
      var init := p[..|p| - 1];
      FieldValue(init);
      assert Value(p) / 2 == Value(init);
      assert p == init + [p[|p| - 1]];
    }
  }

  /** A code up to 64 bits long stands for exactly its path. */
  lemma CodeBitsOf(p: seq<bool>)
    requires |p| <= 64
    ensures CodeBits(CodeOf(p)) == p
  {
    Pow2Values();
    FieldMod(Value(p), 64, |p|);
    FieldValue(p);
  }

  /**
   * The table gives every leaf symbol of t the code of its path, appended to
   * the path `pre` the key stands for, and leaves every other entry of h
   * alone.
   */
  lemma EncodeTablePaths(h: map<uint8, SymCode>, t: Tree, key: SymCode, pre: seq<bool>)
    requires DistinctLeaves(t) && key == CodeOf(pre)
    ensures forall s :: s in Symbols(t) ==> EncodeTable(h, t, key)[s] == CodeOf(pre + PathTo(t, s))
    ensures forall s :: s !in Symbols(t) && s in h ==> EncodeTable(h, t, key)[s] == h[s]
  {
    forall s | s in Symbols(t) || s in h
      ensures s in Symbols(t) ==> EncodeTable(h, t, key)[s] == CodeOf(pre + PathTo(t, s))
      ensures s !in Symbols(t) ==> EncodeTable(h, t, key)[s] == h[s]
    {
      EncodeTablePath(h, t, key, pre, s);
    }
  }

  /** EncodeTablePaths for one symbol. */
  lemma {:induction false} EncodeTablePath(h: map<uint8, SymCode>, t: Tree, key: SymCode, pre: seq<bool>, s: uint8)
    requires DistinctLeaves(t) && key == CodeOf(pre) && (s in Symbols(t) || s in h)
    ensures s in Symbols(t) ==> EncodeTable(h, t, key)[s] == CodeOf(pre + PathTo(t, s))
    ensures s !in Symbols(t) ==> EncodeTable(h, t, key)[s] == h[s]
    decreases t
  {
    match t
    case Leaf(x, _) =>
      assert pre + PathTo(t, x) == pre;
    case Branch(l, r, _) =>
      DistinctChildren(t);
      var kl, kr := CodeOf(pre + [false]), CodeOf(pre + [true]);
      ChildKey(key, pre, false);
      ChildKey(key, pre, true);
      var left := EncodeTable(h, l, kl);
      if s in Symbols(r) {
        EncodeTablePath(left, r, kr, pre + [true], s);
        assert PathTo(t, s) == [true] + PathTo(r, s);
        ConcatAssoc(pre, [true], PathTo(r, s));
      } else {
        EncodeTablePath(h, l, kl, pre + [false], s);
        EncodeTablePath(left, r, kr, pre + [true], s);
        if s in Symbols(l) {
          assert PathTo(t, s) == [false] + PathTo(l, s);
          ConcatAssoc(pre, [false], PathTo(l, s));
        }
      }
  }

  /** The key huffman_encode_table passes to a child is the code of the path one step longer. */
  lemma ChildKey(key: SymCode, pre: seq<bool>, right: bool)
    requires key == CodeOf(pre)
    ensures SymCode(Extend(key.code, right), key.bitLen + 1) == CodeOf(pre + [right])
  {
    ValueStep(pre, right);
    var v := Value(pre);
    var b := if right then 1 else 0;
    assert (2 * (v % Modulus) + b) % Modulus == (2 * v + b) % Modulus by {
      var q := v / Modulus;
      assert v == Modulus * q + v % Modulus;
      assert 2 * v + b == Modulus * (2 * q) + (2 * (v % Modulus) + b);
      ModShift(2 * v + b, 2 * (v % Modulus) + b, 2 * q);
    }
  }

  lemma ModShift(x: nat, y: nat, k: nat)
    requires x == Modulus * k + y
    ensures x % Modulus == y % Modulus
  {
    var q := y / Modulus;
    assert y == Modulus * q + y % Modulus;
    assert x == Modulus * (k + q) + y % Modulus;
    DivUnique(x, Modulus, k + q, y % Modulus);
  }

  /** huffman_encode: each symbol of the tree gets the code of its path. */
  lemma EncodeCodes(t: Tree, s: uint8)
    requires DistinctLeaves(t) && s in Symbols(t)
    ensures s in Encode(Some(t)) && Encode(Some(t))[s] == CodeOf(PathTo(t, s))
  {
    EncodeTablePaths(map[], t, SymCode(0, 0), []);
    assert [] + PathTo(t, s) == PathTo(t, s);
  }

  // ---------------------------------------------------------------------------
  // Decoding (huffman_decode, declared at include/huffman.h:62-67)
  // ---------------------------------------------------------------------------

  /** The bits the codes of data stand for, one code after another. */
  function EncodeBits(table: map<uint8, SymCode>, data: seq<uint8>): (bits: seq<bool>)
    requires forall d :: d in data ==> d in table
  {
    if data == [] then [] else CodeBits(table[data[0]]) + EncodeBits(table, data[1..])
  }

  /**
   * One symbol: walk down from t, to the left on a 0 bit and to the right on
   * a 1 bit, until a leaf; the bits not read are returned with it.
   */
  function DecodeOne(t: Tree, bits: seq<bool>): Option<(uint8, seq<bool>)>
  {
    match t
    case Leaf(s, _) => Some((s, bits))
    case Branch(l, r, _) =>
      if bits == [] then None else DecodeOne(if bits[0] then r else l, bits[1..])
  }

  /**
   * count symbols, each decoded from the root; a code that runs past the end
   * of the bits is an error.  The count is needed: a tree with a single leaf
   * gives its symbol the empty code.
   */
  function Decode(root: Tree, bits: seq<bool>, count: nat): (r: Option<seq<uint8>>)
    ensures r.Some? ==> |r.value| == count
    decreases count
  {
    if count == 0 then Some([])
    else match DecodeOne(root, bits)
      case None => None
      case Some((s, rest)) =>
        match Decode(root, rest, count - 1)
        case None => None
        case Some(tail) => Some([s] + tail)
  }

  /** Walking down the path of s reads exactly that path and stops at s. */
  lemma {:induction false} DecodePath(t: Tree, s: uint8, rest: seq<bool>)
    requires s in Symbols(t)
    ensures DecodeOne(t, PathTo(t, s) + rest) == Some((s, rest))
    decreases t
  {
    match t
    case Leaf(x, _) =>
      assert x == s && PathTo(t, s) == [];
      assert PathTo(t, s) + rest == rest;
    case Branch(l, r, _) =>
      var b := s !in Symbols(l);
      var child := if b then r else l;
      var p := PathTo(child, s);
      assert PathTo(t, s) == [b] + p;
      ConcatAssoc([b], p, rest);
      var tail := p + rest;
      assert ([b] + tail)[0] == b && ([b] + tail)[1..] == tail;
      DecodePath(child, s, rest);
  }

  /**
   * The round trip: decoding the codes the table gives to data, followed by
   * any further bits, returns data, when the tree has distinct leaves, is at
   * most 64 deep, and holds every symbol of data.
   */
  lemma {:induction false} RoundTrip(t: Tree, data: seq<uint8>, rest: seq<bool>)
    requires DistinctLeaves(t) && Height(t) <= 64
    requires forall d :: d in data ==> d in Symbols(t)
    ensures forall d :: d in data ==> d in Encode(Some(t))
    ensures Decode(t, EncodeBits(Encode(Some(t)), data) + rest, |data|) == Some(data)
    decreases |data|
  {
    var table := Encode(Some(t));
    if data != [] {
      var s := data[0];
      var p := PathTo(t, s);
      EncodeCodes(t, s);
      CodeBitsOf(p);
      RoundTrip(t, data[1..], rest);
      var tail := EncodeBits(table, data[1..]) + rest;
      ConcatAssoc(CodeBits(table[s]), EncodeBits(table, data[1..]), rest);
      DecodePath(t, s, tail);
      DecodeStep(t, s, p + tail, tail, data[1..]);
      assert data == [s] + data[1..];
    }
  }

  lemma DecodeStep(t: Tree, s: uint8, bits: seq<bool>, tail: seq<bool>, data: seq<uint8>)
    requires DecodeOne(t, bits) == Some((s, tail))
    requires Decode(t, tail, |data|) == Some(data)
    ensures Decode(t, bits, |data| + 1) == Some([s] + data)
  {
  }

  /**
   * One distinct byte: the root is a leaf, whose symbol gets the empty code
   * (huffman.c:119, huffman.c:172-174), and decoding reads no bits.
   */
  lemma {:induction false} SingleSymbol(s: uint8, w: nat, bits: seq<bool>, count: nat)
    ensures Encode(Some(Leaf(s, w))) == map[s := SymCode(0, 0)]
    ensures Decode(Leaf(s, w), bits, count) == Some(seq(count, _ => s))
    decreases count
  {
    if count == 0 {
      assert seq(count, _ => s) == [];
    } else {
      SingleSymbol(s, w, bits, count - 1);
      DecodeStep(Leaf(s, w), s, bits, bits, seq(count - 1, _ => s));
      assert seq(count, _ => s) == [s] + seq(count - 1, _ => s);
    }
  }

  /**
   * huffman.c:123-136: the three-way comparison of two bytes that orders the
   * table's keys.  The final `return 0` cannot be reached.
   */
  function SymCompare(l: uint8, r: uint8): (c: int)
    ensures c == 0 <==> l == r
    ensures c > 0 <==> l > r
    ensures c < 0 <==> l < r
    ensures -1 <= c <= 1
  {
    if l == r then 0 else if l > r then 1 else -1
  }

  // ---------------------------------------------------------------------------
  // The sibling property
  // ---------------------------------------------------------------------------

  /** The branch huffman_generate builds over l and r (huffman.c:111-115). */
  function Join(l: Tree, r: Tree): Tree
  {
    Branch(l, r, l.weight + r.weight)
  }

  /** Every node of t but the root, once per occurrence. */
  function Below(t: Tree): multiset<Tree>
  {
    match t
    case Leaf(_, _) => multiset{}
    case Branch(l, r, _) => multiset{l, r} + Below(l) + Below(r)
  }

  /** Every branch of t, once per occurrence. */
  function Joins(t: Tree): multiset<Tree>
  {
    match t
    case Leaf(_, _) => multiset{}
    case Branch(l, r, _) => multiset{t} + Joins(l) + Joins(r)
  }

  /** Weights that never decrease along s. */
  ghost predicate Ascending(s: seq<Tree>)
  {
    forall i, j :: 0 <= i < j < |s| ==> s[i].weight <= s[j].weight
  }

  /** The branches over the consecutive pairs of s. */
  function Parents(s: seq<Tree>): multiset<Tree>
    requires |s| % 2 == 0
    decreases |s|
  {
    if s == [] then multiset{} else Parents(s[..|s| - 2]) + multiset{Join(s[|s| - 2], s[|s| - 1])}
  }

  /**
   * order lists the nodes of t other than the root by non-decreasing weight,
   * with the two children of each branch next to each other.
   */
  ghost predicate SiblingOrder(t: Tree, order: seq<Tree>)
  {
    |order| % 2 == 0 && Ascending(order) && multiset(order) == Below(t) && Parents(order) == Joins(t)
  }

  /**
   * The sibling property, which characterises Huffman trees among the
   * binary trees over the same weights (R. G. Gallager, "Variations on a
   * theme by Huffman", 1978): the nodes other than the root can be listed
   * by non-decreasing weight with siblings next to each other.
   */
  ghost predicate SiblingProperty(t: Tree)
  {
    exists order :: SiblingOrder(t, order)
  }

  /** The tree of the "AAABCC" example below. */
  function Skewed(): Tree
  {
    Branch(Leaf(67, 2), Branch(Leaf(66, 1), Leaf(65, 3), 4), 6)
  }

  /**
   * Skewed() accounts for "AAABCC" as huffman_generate's result must: it is
   * well formed, and its leaves count the input's bytes.
   */
  lemma SkewedAccounts(buf: seq<uint8>)
    requires buf == [65, 65, 65, 66, 67, 67]
    ensures WellFormed(Skewed()) && Occurrences(Skewed()) == multiset(buf)
    ensures Symbols(Skewed()) == multiset(set s | s in buf)
  {
    assert multiset(buf) == multiset{}[67 := 2] + (multiset{}[66 := 1] + multiset{}[65 := 3]);
    assert (set s | s in buf) == {65, 66, 67};
    assert multiset({65, 66, 67}) == multiset{67} + (multiset{66} + multiset{65});
  }

  /**
   * Yet no run of huffman_generate builds Skewed(): B and C, the two
   * lightest, are not siblings in it.
   */
  lemma NotGreedy()
    ensures !SiblingProperty(Skewed())
  {
    forall order: seq<Tree> | |order| % 2 == 0 && multiset(order) == Below(Skewed()) && Parents(order) == Joins(Skewed())
      ensures !Ascending(order)
    {
      NotGreedyOrder(order);
    }
  }

  /**
   * Pairing the nodes below Skewed() as its branches join them puts a
   * heavier node second than third.
   */
  lemma NotGreedyOrder(order: seq<Tree>)
    requires |order| % 2 == 0 && multiset(order) == Below(Skewed()) && Parents(order) == Joins(Skewed())
    ensures |order| == 4 && order[1].weight > order[2].weight
  {
    var t, u := Skewed(), Skewed().right;
    assert |order| == |multiset(order)| == |Below(t)| == 4;
    var p, q := Join(order[0], order[1]), Join(order[2], order[3]);
    assert order[..2][..0] == [];
    assert Parents(order[..2]) == multiset{} + multiset{p};
    assert order[..4][..2] == order[..2] && order == order[..4];
    assert Parents(order) == Parents(order[..2]) + multiset{q};
    assert p in Joins(t) && q in Joins(t);
    assert Joins(t) == multiset{t} + Joins(u);
    assert (p == t || p == u) && (q == t || q == u);
  }

  // ---------------------------------------------------------------------------
  // Building the tree (huffman_generate)
  // ---------------------------------------------------------------------------

  /** What a queued node accounts for: the occurrences its leaves count. */
  function OccurrencesOf(x: Node?): multiset<uint8>
  {
    if x == null then multiset{} else Occurrences(x.tree)
  }

  /** What a queued node accounts for: its leaf symbols, once per leaf. */
  function SymbolsOf(x: Node?): multiset<uint8>
  {
    if x == null then multiset{} else Symbols(x.tree)
  }

  /** The nodes below a queued node, which were all taken from the queue once. */
  function BelowOf(x: Node?): multiset<Tree>
  {
    if x == null then multiset{} else Below(x.tree)
  }

  /** The branches of a queued node, each built by one merge. */
  function JoinsOf(x: Node?): multiset<Tree>
  {
    if x == null then multiset{} else Joins(x.tree)
  }

  /** What a collection of queued nodes accounts for together, each node x for f(x). */
  ghost function Gather<U>(m: multiset<Node?>, f: Node? -> multiset<U>): multiset<U>
    decreases |m|
  {
    if m == multiset{} then multiset{}
    else
      var x :| x in m;
      f(x) + Gather(m - multiset{x}, f)
  }

  /** Gather does not depend on the order in which it picks the nodes. */
  lemma {:induction false} GatherRemove<U>(m: multiset<Node?>, y: Node?, f: Node? -> multiset<U>)
    requires y in m
    ensures Gather(m, f) == f(y) + Gather(m - multiset{y}, f)
    decreases |m|, 1
  {
    var x :| x in m && Gather(m, f) == f(x) + Gather(m - multiset{x}, f);
    if x != y {
      GatherSwap(m, x, y, f);
    }
  }

  /** GatherRemove when Gather picked some other node x first. */
  lemma {:induction false} GatherSwap<U>(m: multiset<Node?>, x: Node?, y: Node?, f: Node? -> multiset<U>)
    requires x in m && y in m && x != y
    requires Gather(m, f) == f(x) + Gather(m - multiset{x}, f)
    ensures Gather(m, f) == f(y) + Gather(m - multiset{y}, f)
    decreases |m|, 0
  {
    var mx, my := m - multiset{x}, m - multiset{y};
    RemoveEitherOrder(m, x, y);
    GatherRemove(mx, y, f);
    GatherRemove(my, x, f);
    UnionSwap(f(x), f(y), Gather(mx - multiset{y}, f));
  }

  /** Taking x and y out of m leaves the same in either order. */
  lemma RemoveEitherOrder(m: multiset<Node?>, x: Node?, y: Node?)
    requires x in m && y in m && x != y
    ensures y in m - multiset{x} && x in m - multiset{y}
    ensures m - multiset{x} - multiset{y} == m - multiset{y} - multiset{x}
  {
  }

  /** The first two of three multisets joined together can trade places. */
  lemma UnionSwap<U>(a: multiset<U>, b: multiset<U>, c: multiset<U>)
    ensures a + (b + c) == b + (a + c)
  {
  }

  lemma GatherAdd<U>(m: multiset<Node?>, y: Node?, f: Node? -> multiset<U>)
    ensures Gather(m + multiset{y}, f) == f(y) + Gather(m, f)
  {
    GatherRemove(m + multiset{y}, y, f);
    assert m + multiset{y} - multiset{y} == m;
  }

  /** Every queued node is a well-formed tree. */
  ghost predicate Forest(m: multiset<Node?>)
  {
    forall x :: x in m ==> x != null && WellFormed(x.tree)
  }

  /** A forest with a tree in it accounts for at least one occurrence. */
  lemma ForestNotEmpty(m: multiset<Node?>)
    requires Forest(m) && m != multiset{}
    ensures Gather(m, OccurrencesOf) != multiset{}
  {
    var y :| y in m;
    GatherRemove(m, y, OccurrencesOf);
    WeightConserved(y.tree);
  }

  /**
   * The symbols below k as the leaves of the first k counts stand for them:
   * each as often as counted, or once if counted at all.
   */
  function FreqBag(freq: seq<nat>, k: nat, weighted: bool): multiset<uint8>
    requires k <= |freq| <= 256
  {
    if k == 0 then multiset{}
    else
      var c := freq[k - 1];
      FreqBag(freq, k - 1, weighted)[(k - 1) as uint8 := if weighted then c else if c > 0 then 1 else 0]
  }

  lemma {:induction false} FreqBagAt(freq: seq<nat>, k: nat, weighted: bool, s: uint8)
    requires k <= |freq| <= 256
    ensures FreqBag(freq, k, weighted)[s] ==
      if s as int >= k then 0 else if weighted then freq[s] else if freq[s] > 0 then 1 else 0
  {
    if k > 0 {
      FreqBagAt(freq, k - 1, weighted, s);
    }
  }

  /** Counts that are the input's counts stand for the input, and for its distinct bytes. */
  lemma FreqBagInput(freq: seq<nat>, buf: seq<uint8>)
    requires |freq| == 256 && forall k :: 0 <= k < 256 ==> freq[k] == multiset(buf)[k as uint8]
    ensures FreqBag(freq, 256, true) == multiset(buf)
    ensures FreqBag(freq, 256, false) == multiset(set s | s in buf)
  {
    forall s: uint8
      ensures FreqBag(freq, 256, true)[s] == multiset(buf)[s]
      ensures FreqBag(freq, 256, false)[s] == multiset(set s | s in buf)[s]
    {
      FreqBagAt(freq, 256, true, s);
      FreqBagAt(freq, 256, false, s);
    }
  }

  /** huffman.c:85-86: count each byte of the input. */
  method CountSymbols(buf: seq<uint8>) returns (freq: array<nat>)
    ensures fresh(freq) && freq.Length == 256
    ensures forall k :: 0 <= k < 256 ==> freq[k] == multiset(buf)[k as uint8]
  {
    freq := new nat[256](_ => 0);
    var i := 0;
    while i < |buf|
      invariant 0 <= i <= |buf|
      invariant forall k :: 0 <= k < 256 ==> freq[k] == multiset(buf[..i])[k as uint8]
    {
      assert buf[..i + 1] == buf[..i] + [buf[i]];
      freq[buf[i]] := freq[buf[i]] + 1;
      i := i + 1;
    }
    assert buf[..i] == buf;
  }

  /** huffman.c:96-101: a leaf for symbol s with its count w goes into the queue. */
  method QueueLeaf(pq: PrioQueue, s: uint8, w: nat) returns (hn: Node)
    requires pq.Valid() && pq.i < pq.n
    modifies pq, pq.a, pq.Nodes
    ensures pq.Valid() && pq.i == old(pq.i) + 1 && fresh(pq.Nodes - old(pq.Nodes))
    ensures hn.tree == Leaf(s, w)
    ensures multiset(pq.Contents()) == old(multiset(pq.Contents())) + multiset{hn}
  {
    hn := new Node(Leaf(s, w));
    pq.Insert(hn);
  }

  /** Setting the count of an absent element adds that many copies of it. */
  lemma UpdateIsAdd(m: multiset<uint8>, x: uint8, c: nat)
    requires m[x] == 0
    ensures m[x := c] == multiset{}[x := c] + m
  {
  }

  /**
   * The queue is well formed, holds well-formed trees only, and together
   * they account for the occurrences occ and the leaf symbols syms.
   */
  ghost predicate Holds(pq: PrioQueue, occ: multiset<uint8>, syms: multiset<uint8>)
    reads pq, pq.a, pq.Nodes
  {
    pq.Valid() && Forest(multiset(pq.Contents())) &&
    Gather(multiset(pq.Contents()), OccurrencesOf) == occ && Gather(multiset(pq.Contents()), SymbolsOf) == syms
  }

  /**
   * The merges that took the nodes of taken from the queue c, two at a time
   * and in this order, made the greedy choice of huffman_generate: their
   * weights never decrease, none outweighs a node still queued, they are
   * exactly the nodes below the queued trees, and each pair is the two
   * children of one queued branch.
   */
  ghost predicate GreedyFrom(c: seq<Node?>, taken: seq<Tree>)
  {
    |taken| % 2 == 0 && Ascending(taken) &&
    (forall y :: y in c && taken != [] ==> taken[|taken| - 1].weight <= Key(y)) &&
    Gather(multiset(c), BelowOf) == multiset(taken) &&
    Gather(multiset(c), JoinsOf) == Parents(taken)
  }

  /** GreedyFrom, for the nodes queued in pq. */
  ghost predicate Greedy(pq: PrioQueue, taken: seq<Tree>)
    reads pq, pq.a
    requires pq.i < pq.a.Length
  {
    GreedyFrom(pq.Contents(), taken)
  }

  /** x weighs no more than any node of c. */
  ghost predicate Lightest(x: Node, c: seq<Node?>)
  {
    forall y :: y in c ==> Key(x) <= Key(y)
  }

  /** l weighs no more than any node of c, and r no more than any other. */
  ghost predicate TwoLightestOf(c: seq<Node?>, l: Node, r: Node)
  {
    Lightest(l, c) && (forall y :: y in c && y != l ==> Key(r) <= Key(y))
  }

  /**
   * huffman.c:96-101 for byte k: a leaf for it is queued when it occurs; the
   * queue then accounts for the first k + 1 counts, and still holds leaves only.
   */
  method AddLeaf(pq: PrioQueue, freq: array<nat>, k: nat)
    requires freq.Length == 256 && k < 256 && pq.n == 256 && pq.i <= k
    requires Holds(pq, FreqBag(freq[..], k, true), FreqBag(freq[..], k, false)) && Greedy(pq, [])
    modifies pq, pq.a, pq.Nodes
    ensures pq.i <= k + 1 && fresh(pq.Nodes - old(pq.Nodes))
    ensures Holds(pq, FreqBag(freq[..], k + 1, true), FreqBag(freq[..], k + 1, false)) && Greedy(pq, [])
  {
    if freq[k] > 0 {
      ghost var m := multiset(pq.Contents());
      var hn := QueueLeaf(pq, k as uint8, freq[k]);
      LeafBags(m, hn, freq[..], k);
    } else {
      FreqBagSkip(freq[..], k, true);
      FreqBagSkip(freq[..], k, false);
    }
  }

  /**
   * Queuing the leaf of byte k takes the forest from the first k counts to
   * the first k + 1, and adds no node below a queued tree.
   */
  lemma LeafBags(m: multiset<Node?>, hn: Node, freq: seq<nat>, k: nat)
    requires |freq| == 256 && k < 256 && freq[k] > 0 && hn.tree == Leaf(k as uint8, freq[k])
    requires Forest(m) && Gather(m, OccurrencesOf) == FreqBag(freq, k, true) && Gather(m, SymbolsOf) == FreqBag(freq, k, false)
    requires Gather(m, BelowOf) == multiset{} && Gather(m, JoinsOf) == multiset{}
    ensures Forest(m + multiset{hn})
    ensures Gather(m + multiset{hn}, OccurrencesOf) == FreqBag(freq, k + 1, true)
    ensures Gather(m + multiset{hn}, SymbolsOf) == FreqBag(freq, k + 1, false)
    ensures Gather(m + multiset{hn}, BelowOf) == multiset{} && Gather(m + multiset{hn}, JoinsOf) == multiset{}
  {
    GatherAdd(m, hn, OccurrencesOf);
    GatherAdd(m, hn, SymbolsOf);
    GatherAdd(m, hn, BelowOf);
    GatherAdd(m, hn, JoinsOf);
    FreqBagAt(freq, k, true, k as uint8);
    FreqBagAt(freq, k, false, k as uint8);
    UpdateIsAdd(FreqBag(freq, k, true), k as uint8, freq[k]);
    UpdateIsAdd(FreqBag(freq, k, false), k as uint8, 1);
  }

  /** A byte that does not occur adds nothing. */
  lemma FreqBagSkip(freq: seq<nat>, k: nat, weighted: bool)
    requires k < |freq| <= 256 && freq[k] == 0
    ensures FreqBag(freq, k + 1, weighted) == FreqBag(freq, k, weighted)
  {
    FreqBagAt(freq, k, weighted, k as uint8);
  }

  /**
   * huffman.c:89-103: one leaf per byte value that occurs, weighted by its
   * count, queued in increasing byte order.
   */
  method QueueLeaves(freq: array<nat>, pq: PrioQueue)
    requires freq.Length == 256 && pq.Valid() && pq.i == 0 && pq.n == 256
    modifies pq, pq.a, pq.Nodes
    ensures fresh(pq.Nodes - old(pq.Nodes))
    ensures Holds(pq, FreqBag(freq[..], 256, true), FreqBag(freq[..], 256, false)) && Greedy(pq, [])
  {
    var k := 0;
    ghost var f := freq[..];
    assert pq.Contents() == [];
    while k < 256
      invariant 0 <= k <= 256 && pq.i <= k && freq[..] == f
      invariant fresh(pq.Nodes - old(pq.Nodes))
      invariant Holds(pq, FreqBag(f, k, true), FreqBag(f, k, false)) && Greedy(pq, [])
    {
      AddLeaf(pq, freq, k);
      k := k + 1;
    }
  }

  /**
   * huffman.c:75-103: a new queue of capacity 256 holding one leaf per byte
   * that occurs in buf, which together account for buf.
   */
  method Leaves(buf: seq<uint8>) returns (pq: PrioQueue)
    ensures fresh(pq) && fresh(pq.a) && fresh(pq.Nodes)
    ensures Holds(pq, multiset(buf), multiset(set s | s in buf)) && Greedy(pq, [])
  {
    pq := new PrioQueue(256);
    var freq := CountSymbols(buf);
    QueueLeaves(freq, pq);
    FreqBagInput(freq[..], buf);
  }

  /**
   * A merge keeps the forest well formed and accounting for the same
   * occurrences and the same leaves.
   */
  lemma MergedForest(m0: multiset<Node?>, m2: multiset<Node?>, l: Node, r: Node, x: Node)
    requires Forest(m0) && m0 == m2 + multiset{l, r}
    requires x.tree == Join(l.tree, r.tree)
    requires l.tree.weight <= r.tree.weight
    ensures Forest(m2 + multiset{x})
    ensures Gather(m2 + multiset{x}, OccurrencesOf) == Gather(m0, OccurrencesOf)
    ensures Gather(m2 + multiset{x}, SymbolsOf) == Gather(m0, SymbolsOf)
  {
    assert l in m0 && r in m0;
    forall y | y in m2 + multiset{x}
      ensures y != null && WellFormed(y.tree)
    {
      if y != x {
        assert y in m0;
      }
    }
    MergedGather(m0, m2, l, r, OccurrencesOf);
    MergedGather(m0, m2, l, r, SymbolsOf);
    GatherAdd(m2, x, OccurrencesOf);
    GatherAdd(m2, x, SymbolsOf);
  }

  /** What a forest accounts for, with the two nodes a merge takes counted apart. */
  lemma MergedGather<U>(m0: multiset<Node?>, m2: multiset<Node?>, l: Node, r: Node, f: Node? -> multiset<U>)
    requires m0 == m2 + multiset{l, r}
    ensures Gather(m0, f) == f(l) + f(r) + Gather(m2, f)
  {
    var m1 := m2 + multiset{r};
    assert m0 == m1 + multiset{l};
    GatherAdd(m2, r, f);
    GatherAdd(m1, l, f);
  }

  /** The node taken second weighs no more than any node taken after the first. */
  lemma SecondLightest(c0: seq<Node?>, c2: seq<Node?>, l: Node, r: Node)
    requires multiset(c0) == multiset(c2) + multiset{l, r}
    requires Lightest(r, c2)
    ensures forall y :: y in c0 && y != l ==> Key(r) <= Key(y)
  {
    forall y | y in c0 && y != l && y != r
      ensures y in c2
    {
      assert y in multiset(c0);
      assert y in multiset(c2);
    }
  }

  /**
   * A greedy merge keeps the forest greedy: the two nodes taken, the
   * lightest queued and then the lightest left, join the end of taken, and
   * the branch over them is queued.
   */
  lemma MergedGreedy(c0: seq<Node?>, c2: seq<Node?>, c3: seq<Node?>, l: Node, r: Node, x: Node, taken: seq<Tree>)
    requires GreedyFrom(c0, taken)
    requires multiset(c0) == multiset(c2) + multiset{l, r}
    requires Lightest(l, c0)
    requires Lightest(r, c2)
    requires Key(l) <= Key(r)
    requires x.tree == Join(l.tree, r.tree)
    requires multiset(c3) == multiset(c2) + multiset{x}
    ensures GreedyFrom(c3, taken + [l.tree, r.tree])
  {
    var t := taken + [l.tree, r.tree];
    ParentsPair(taken, l.tree, r.tree);
    assert l in multiset(c0);
    AscendingPair(taken, l.tree, r.tree);
    LightestAfter(c2, c3, r, x);
    assert forall y :: y in c3 && t != [] ==> t[|t| - 1].weight <= Key(y);
    MergedBelow(multiset(c0), multiset(c2), l, r, x, taken);
    MergedJoins(multiset(c0), multiset(c2), l, r, x, taken);
  }

  /** One more pair adds the branch over it. */
  lemma ParentsPair(s: seq<Tree>, l: Tree, r: Tree)
    requires |s| % 2 == 0
    ensures |s + [l, r]| % 2 == 0
    ensures Parents(s + [l, r]) == Parents(s) + multiset{Join(l, r)}
  {
    var t := s + [l, r];
    assert |t| == |s| + 2;
    assert t[..|t| - 2] == s;
  }

  /** The nodes below the forest after a merge: those below it before, and the two taken. */
  lemma MergedBelow(m0: multiset<Node?>, m2: multiset<Node?>, l: Node, r: Node, x: Node, taken: seq<Tree>)
    requires m0 == m2 + multiset{l, r} && x.tree == Join(l.tree, r.tree)
    requires Gather(m0, BelowOf) == multiset(taken)
    ensures Gather(m2 + multiset{x}, BelowOf) == multiset(taken + [l.tree, r.tree])
  {
    MergedGather(m0, m2, l, r, BelowOf);
    GatherAdd(m2, x, BelowOf);
    assert BelowOf(x) == multiset{l.tree, r.tree} + BelowOf(l) + BelowOf(r);
    assert multiset(taken + [l.tree, r.tree]) == multiset(taken) + multiset{l.tree, r.tree};
  }

  /** The branches of the forest after a merge: those before it, and the one over the two taken. */
  lemma MergedJoins(m0: multiset<Node?>, m2: multiset<Node?>, l: Node, r: Node, x: Node, taken: seq<Tree>)
    requires m0 == m2 + multiset{l, r} && x.tree == Join(l.tree, r.tree) && |taken| % 2 == 0
    requires Gather(m0, JoinsOf) == Parents(taken)
    ensures Gather(m2 + multiset{x}, JoinsOf) == Parents(taken + [l.tree, r.tree])
  {
    ParentsPair(taken, l.tree, r.tree);
    MergedGather(m0, m2, l, r, JoinsOf);
    GatherAdd(m2, x, JoinsOf);
    assert JoinsOf(x) == multiset{x.tree} + JoinsOf(l) + JoinsOf(r);
  }

  /** Two trees, no lighter than the last taken and in order, may follow it. */
  lemma AscendingPair(taken: seq<Tree>, l: Tree, r: Tree)
    requires Ascending(taken) && (taken != [] ==> taken[|taken| - 1].weight <= l.weight) && l.weight <= r.weight
    ensures Ascending(taken + [l, r])
  {
    var t := taken + [l, r];
    forall i, j | 0 <= i < j < |t|
      ensures t[i].weight <= t[j].weight
    {
      if j < |taken| {
        assert t[i] == taken[i] && t[j] == taken[j];
      } else if i < |taken| {
        assert t[i] == taken[i] && taken[i].weight <= taken[|taken| - 1].weight;
      }
    }
  }

  /** The node queued by a merge weighs at least the one taken second. */
  lemma LightestAfter(c2: seq<Node?>, c3: seq<Node?>, r: Node, x: Node)
    requires Lightest(r, c2)
    requires multiset(c3) == multiset(c2) + multiset{x} && Key(r) <= Key(x)
    ensures Lightest(r, c3)
  {
    forall y | y in c3 && y != x
      ensures y in c2
    {
      assert y in multiset(c3);
      assert y in multiset(c2);
    }
  }

  /** A node still queued after x was taken out was queued before. */
  lemma Taken(c0: seq<Node?>, c1: seq<Node?>, x: Node?, y: Node?)
    requires multiset(c0) == multiset(c1) + multiset{x} && y in c1
    ensures y in c0
  {
    assert y in multiset(c1);
    assert y in multiset(c0);
  }

  /**
   * Taking the lightest node l out of c0 and then the lightest node r out
   * of what is left, c1, leaves c2, whose nodes weigh at least r.
   */
  lemma TwoLightest(c0: seq<Node?>, c1: seq<Node?>, c2: seq<Node?>, l: Node, r: Node)
    requires multiset(c0) == multiset(c1) + multiset{l} && multiset(c1) == multiset(c2) + multiset{r}
    requires Lightest(l, c0)
    requires Lightest(r, c1)
    ensures multiset(c0) == multiset(c2) + multiset{l, r}
    ensures Lightest(r, c2)
    ensures Key(l) <= Key(r)
  {
    assert r in multiset(c1);
    Taken(c0, c1, l, r);
    forall y | y in c2
      ensures Key(r) <= Key(y)
    {
      Taken(c1, c2, r, y);
    }
  }

  /**
   * huffman.c:108-109: take the two lightest nodes, the lighter one first:
   * l weighs no more than any node that was queued, r no more than any
   * node left in the queue.
   */
  method TakeTwo(pq: PrioQueue) returns (l: Node, r: Node)
    requires pq.Valid() && pq.i >= 2
    modifies pq, pq.a, pq.Nodes
    ensures pq.Valid() && pq.i == old(pq.i) - 2 && pq.Nodes == old(pq.Nodes)
    ensures multiset(old(pq.Contents())) == multiset(pq.Contents()) + multiset{l, r}
    ensures Lightest(l, old(pq.Contents()))
    ensures Lightest(r, pq.Contents())
    ensures Key(l) <= Key(r)
  {
    ghost var c0 := pq.Contents();
    l := pq.PqMin();
    ghost var c1 := pq.Contents();
    ghost var first := pq.a[1];
    assert first == c1[0];
    r := pq.PqMin();
    assert r == first;
    TwoLightest(c0, c1, pq.Contents(), l, r);
  }

  /** huffman.c:111-116: a new branch over l and r, weighing both, is queued. */
  method QueueBranch(pq: PrioQueue, l: Node, r: Node) returns (x: Node)
    requires pq.Valid() && pq.i < pq.n
    modifies pq, pq.a, pq.Nodes
    ensures pq.Valid() && pq.i == old(pq.i) + 1 && fresh(pq.Nodes - old(pq.Nodes))
    ensures x.tree == Join(l.tree, r.tree)
    ensures multiset(pq.Contents()) == old(multiset(pq.Contents())) + multiset{x}
  {
    x := new Node(Join(l.tree, r.tree));
    pq.Insert(x);
  }

  /**
   * What one merge keeps: c0 was queued, l and then r were taken as the
   * lightest, and the branch x over them was queued, giving c3.
   */
  lemma Merged(c0: seq<Node?>, c2: seq<Node?>, c3: seq<Node?>, l: Node, r: Node, x: Node,
               occ: multiset<uint8>, syms: multiset<uint8>, taken: seq<Tree>)
    requires Forest(multiset(c0)) && Gather(multiset(c0), OccurrencesOf) == occ && Gather(multiset(c0), SymbolsOf) == syms
    requires GreedyFrom(c0, taken)
    requires multiset(c0) == multiset(c2) + multiset{l, r}
    requires Lightest(l, c0)
    requires Lightest(r, c2)
    requires Key(l) <= Key(r)
    requires x.tree == Join(l.tree, r.tree)
    requires multiset(c3) == multiset(c2) + multiset{x}
    ensures TwoLightestOf(c0, l, r)
    ensures multiset(c3) + multiset{l, r} == multiset(c0) + multiset{x}
    ensures Forest(multiset(c3)) && Gather(multiset(c3), OccurrencesOf) == occ && Gather(multiset(c3), SymbolsOf) == syms
    ensures GreedyFrom(c3, taken + [l.tree, r.tree])
  {
    SecondLightest(c0, c2, l, r);
    MergedForest(multiset(c0), multiset(c2), l, r, x);
    MergedGreedy(c0, c2, c3, l, r, x, taken);
  }

  /**
   * huffman.c:108-116: the two lightest trees l and r become the children of
   * a new branch x, the one taken first on the left, and x is queued in
   * their place; the queue still accounts for the same occurrences and
   * leaves, and the merges so far stay greedy.
   */
  method MergeTwo(pq: PrioQueue, ghost occ: multiset<uint8>, ghost syms: multiset<uint8>, ghost taken: seq<Tree>)
    returns (l: Node, r: Node, x: Node)
    requires pq.i >= 2 && Holds(pq, occ, syms) && Greedy(pq, taken)
    modifies pq, pq.a, pq.Nodes
    ensures pq.i == old(pq.i) - 1 && fresh(pq.Nodes - old(pq.Nodes))
    ensures TwoLightestOf(old(pq.Contents()), l, r)
    ensures x.tree == Join(l.tree, r.tree)
    ensures multiset(pq.Contents()) + multiset{l, r} == old(multiset(pq.Contents())) + multiset{x}
    ensures Holds(pq, occ, syms) && Greedy(pq, taken + [l.tree, r.tree])
  {
    ghost var c0 := pq.Contents();
    l, r := TakeTwo(pq);
    ghost var c2 := pq.Contents();
    x := QueueBranch(pq, l, r);
    Merged(c0, c2, pq.Contents(), l, r, x, occ, syms, taken);
  }

  /**
   * huffman.c:106-117: merge until one tree is left; the queue keeps
   * accounting for the same occurrences and leaves, and order lists the
   * nodes taken out, in the order they were taken.
   */
  method MergeAll(pq: PrioQueue, ghost occ: multiset<uint8>, ghost syms: multiset<uint8>, ghost taken: seq<Tree>)
    returns (ghost order: seq<Tree>)
    requires pq.i >= 1 && Holds(pq, occ, syms) && Greedy(pq, taken)
    modifies pq, pq.a, pq.Nodes
    ensures pq.i == 1 && fresh(pq.Nodes - old(pq.Nodes))
    ensures Holds(pq, occ, syms) && Greedy(pq, order)
  {
    order := taken;
    while pq.Size() > 1
      invariant pq.i >= 1 && fresh(pq.Nodes - old(pq.Nodes))
      invariant Holds(pq, occ, syms) && Greedy(pq, order)
      decreases pq.i
    {
      var l, r, x := MergeTwo(pq, occ, syms, order);
      order := order + [l.tree, r.tree];
    }
  }

  /**
   * huffman.c:119: the last tree left is the root; it accounts for
   * everything, and the nodes taken out are its nodes in sibling order.
   */
  method TakeRootTree(pq: PrioQueue, ghost occ: multiset<uint8>, ghost syms: multiset<uint8>, ghost order: seq<Tree>)
    returns (root: Tree)
    requires pq.i == 1 && Holds(pq, occ, syms) && Greedy(pq, order)
    modifies pq, pq.a, pq.Nodes
    ensures WellFormed(root) && Occurrences(root) == occ && Symbols(root) == syms
    ensures SiblingOrder(root, order)
  {
    ghost var m := multiset(pq.Contents());
    var x := pq.PqMin();
    root := x.tree;
    assert m == multiset{} + multiset{x};
    GatherAdd(multiset{}, x, OccurrencesOf);
    GatherAdd(multiset{}, x, SymbolsOf);
    GatherAdd(multiset{}, x, BelowOf);
    GatherAdd(multiset{}, x, JoinsOf);
  }

  /**
   * huffman.c:106-119: merge the queued trees into one and take it out as
   * the root; order lists the nodes the merges took, in sibling order.
   */
  method Combine(pq: PrioQueue, ghost occ: multiset<uint8>, ghost syms: multiset<uint8>)
    returns (root: Tree, ghost order: seq<Tree>)
    requires pq.i >= 1 && Holds(pq, occ, syms) && Greedy(pq, [])
    modifies pq, pq.a, pq.Nodes
    ensures WellFormed(root) && Occurrences(root) == occ && Symbols(root) == syms
    ensures SiblingOrder(root, order)
  {
    order := MergeAll(pq, occ, syms, []);
    root := TakeRootTree(pq, occ, syms, order);
  }

  /**
   * huffman.c:75-121: count the bytes, queue a leaf per byte that occurs,
   * and merge the two lightest trees until one is left.  For an empty input
   * the source takes the root from an empty queue; here no tree comes back.
   */
  method Generate(buf: seq<uint8>) returns (root: Option<Tree>)
    ensures root.None? <==> buf == []
    ensures root.Some? ==> WellFormed(root.value)
    ensures root.Some? ==> Occurrences(root.value) == multiset(buf)
    ensures root.Some? ==> Symbols(root.value) == multiset(set s | s in buf)
    ensures root.Some? ==> SiblingProperty(root.value)
  {
    var pq := Leaves(buf);
    if pq.Size() == 0 {
      assert multiset(buf) == multiset{};
      return None;
    }
    ForestNotEmpty(multiset(pq.Contents()));
    var t, order := Combine(pq, multiset(buf), multiset(set s | s in buf));
    root := Some(t);
  }

  /**
   * What huffman_generate yields for buf: one leaf per distinct byte of buf,
   * carrying that byte's count, a root weighing as much as buf is long, and
   * one branch fewer than there are leaves.
   */
  lemma GeneratedTree(t: Tree, buf: seq<uint8>)
    requires WellFormed(t) && Occurrences(t) == multiset(buf) && Symbols(t) == multiset(set s | s in buf)
    ensures DistinctLeaves(t)
    ensures forall s :: s in buf <==> s in Symbols(t)
    ensures t.weight == |buf|
    ensures Branches(t) + 1 == |set s | s in buf|
    ensures forall s :: s in buf ==> Follow(t, PathTo(t, s)) == Some(Leaf(s, multiset(buf)[s]))
  {
    WeightConserved(t);
    BranchCount(t);
    forall s | s in buf
      ensures Follow(t, PathTo(t, s)) == Some(Leaf(s, multiset(buf)[s]))
    {
      LeafWeight(t, s);
    }
  }

  /**
   * Compressing buf with the code table of its own tree and decoding the
   * result, followed by any further bits, gives buf back, for a tree at most
   * 64 deep.
   */
  lemma CompressRoundTrip(t: Tree, buf: seq<uint8>, rest: seq<bool>)
    requires WellFormed(t) && Occurrences(t) == multiset(buf) && Symbols(t) == multiset(set s | s in buf)
    requires Height(t) <= 64
    ensures forall d :: d in buf ==> d in Encode(Some(t))
    ensures Decode(t, EncodeBits(Encode(Some(t)), buf) + rest, |buf|) == Some(buf)
  {
    GeneratedTree(t, buf);
    RoundTrip(t, buf, rest);
  }
}
