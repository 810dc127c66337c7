/**
 * The node of a Huffman tree (huffman.c:13-21) and the two callbacks the
 * priority queue is built with (huffman.c:23-44).
 *
 * A node's symbol, weight and children never change once the node is built,
 * so they are a `Tree` value held in a constant field; what the queue updates
 * in place is the node's position slot `pqI`.  A leaf is a node whose
 * `is_branch` flag is false; a branch has both children.  Weights are the
 * integer symbol counts that the leaves store (huffman.c:100).
 */
module HuffmanNode {
  import opened BitSeq

  datatype Tree =
    | Leaf(symbol: uint8, weight: nat)
    | Branch(left: Tree, right: Tree, weight: nat)

  class Node {
    const tree: Tree
    /** The heap index the priority queue stores here (position_huffman). */
    var pqI: nat

    constructor (t: Tree)
      ensures tree == t && pqI == 0
    {
      tree := t;
      pqI := 0;
    }
  }

  /** The priority of a queued node: its weight.  An empty slot has none and counts as 0. */
  function Key(x: Node?): nat
  {
    if x == null then 0 else x.tree.weight
  }

  /**
   * huffman.c:24-37: a three-way comparison of the weights.  The final
   * `return 0` of the source cannot be reached, since one of the three tests
   * holds for any two counts.
   */
  function CompareHuffman(lhs: Node, rhs: Node): (c: int)
    ensures c == 0 <==> lhs.tree.weight == rhs.tree.weight
    ensures c > 0 <==> lhs.tree.weight > rhs.tree.weight
    ensures c < 0 <==> lhs.tree.weight < rhs.tree.weight
    ensures -1 <= c <= 1
  {
    if lhs.tree.weight == rhs.tree.weight then 0
    else if lhs.tree.weight > rhs.tree.weight then 1
    else -1
  }
}
