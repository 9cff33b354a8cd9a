/**
 * Huffman tree nodes.  The Python `TreeNode` carries an untyped `data` slot that
 * holds a `(byte, count)` tuple in a leaf and the combined count in an internal
 * node while compressing, and the raw header token while extracting.  The two
 * uses are modelled by two datatypes, `Tree` and `ReadTree`; the mutable object
 * itself, with its property setters, is the class `TreeNode`.
 */
module TreeNode {
  import opened Bytes

  /** A tree as the compressor builds it. */
  datatype Tree = Leaf(weight: nat, sym: byte) | Node(weight: nat, left: Tree, right: Tree)

  /** A tree as the extractor rebuilds it from its header: every node keeps its token. */
  datatype ReadTree = RLeaf(data: Bytes) | RNode(data: Bytes, left: ReadTree, right: ReadTree)

  /**
   * `tree_str`: appends the pre-order serialisation of `t` to `acc`.  A leaf
   * writes its byte and `l,`, an internal node its decimal count and `,`,
   * followed by its left and then its right subtree.
   */
  function TreeStr(t: Tree, acc: Bytes): Bytes
  {
    match t
    case Leaf(_, b) => acc + [b, LOWER_L, COMMA]
    case Node(w, l, rt) => TreeStr(rt, TreeStr(l, acc + Decimal(w) + [COMMA]))
  }

  /** The serialisation of `t` on its own, as a node is meant to read: its head, then its subtrees. */
  function Serial(t: Tree): (r: Bytes)
    ensures |r| >= 3 && r[|r| - 1] == COMMA
  {
    match t
    case Leaf(_, b) => [b, LOWER_L, COMMA]
    case Node(w, l, rt) => Decimal(w) + [COMMA] + Serial(l) + Serial(rt)
  }

  /** The accumulator only ever gets the serialisation appended: nothing is rewritten. */
  lemma {:induction false} TreeStrAppends(t: Tree, acc: Bytes)
    ensures TreeStr(t, acc) == acc + Serial(t)
  {
    match t
    case Leaf(_, b) =>
    case Node(w, l, rt) =>
      var a1 := acc + Decimal(w) + [COMMA];
      TreeStrAppends(l, a1);
      var a2 := TreeStr(l, a1);
      TreeStrAppends(rt, a2);
      assert a1 + Serial(l) + Serial(rt) == acc + (Decimal(w) + [COMMA] + Serial(l) + Serial(rt));
  }

  /**
   * The tokens a serialisation is made of, in pre-order: the decimal count of an
   * internal node, and a leaf's byte followed by `l`.
   */
  function Tokens(t: Tree): (r: seq<Bytes>)
    ensures |r| >= 1
  {
    match t
    case Leaf(_, b) => [[b, LOWER_L]]
    case Node(w, l, rt) => [Decimal(w)] + Tokens(l) + Tokens(rt)
  }

  /** The tree the extractor's reader is meant to rebuild from the serialisation of `t`. */
  function Erase(t: Tree): ReadTree
  {
    match t
    case Leaf(_, b) => RLeaf([b])
    case Node(w, l, rt) => RNode(Decimal(w), Erase(l), Erase(rt))
  }

  /** The bytes at the leaves, left to right. */
  function Syms(t: Tree): set<byte>
  {
    match t
    case Leaf(_, b) => {b}
    case Node(_, l, rt) => Syms(l) + Syms(rt)
  }

  /** The byte `c` never occurs in the serialisation except as a leaf byte, which is always followed by `l`. */
  lemma {:induction false} SerialNoCrlf(t: Tree)
    ensures NoCrlf(Serial(t))
    ensures Serial(t)[|Serial(t)| - 1] == COMMA
  {
    match t
    case Leaf(_, b) =>
      assert Serial(t) == [b, LOWER_L, COMMA];
    case Node(w, l, rt) =>
      SerialNoCrlf(l);
      SerialNoCrlf(rt);
      var head := Decimal(w) + [COMMA];
      DecimalDigits(w);
      assert NoCrlf(head) by {
        forall i | 0 <= i < |head| ensures head[i] != CR {
          if i < |Decimal(w)| { assert IsDigit(head[i]); }
        }
      }
      NoCrlfAppend(head, Serial(l));
      NoCrlfAppend(head + Serial(l), Serial(rt));
  }

  /**
   * The Python node object: an untyped payload and two optional children,
   * each settable through its own property.
   */
  class TreeNode<D> {
    var data: D
    var left: TreeNode?<D>
    var right: TreeNode?<D>

    constructor (data: D, left: TreeNode?<D>, right: TreeNode?<D>)
      ensures this.data == data && this.left == left && this.right == right
    {
      this.data := data;
      this.left := left;
      this.right := right;
    }

    /** The test every caller uses to recognise a leaf. */
    predicate IsLeaf()
      reads this
    {
      left == null && right == null
    }

    method SetLeft(newLeft: TreeNode?<D>)
      modifies this
      ensures left == newLeft
      ensures data == old(data) && right == old(right)
    {
      left := newLeft;
    }

    method SetRight(newRight: TreeNode?<D>)
      modifies this
      ensures right == newRight
      ensures data == old(data) && left == old(left)
    {
      right := newRight;
    }

    method SetData(newData: D)
      modifies this
      ensures data == newData
      ensures left == old(left) && right == old(right)
    {
      data := newData;
    }
  }
}
