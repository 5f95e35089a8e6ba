/** `leftRotate` and `rightRotate` (main.cpp:41-80) on the subtree rooted at the
    rotated node: the shape change they make, and what they keep. */
module Rotations {
  import opened RbTree

  /** Every node of the tree as (handle, colour, key), with repetitions. */
  function Cells(t: Tree): multiset<(int, Color, int)>
  {
    match t
    case Leaf => multiset{}
    case Node(c, l, i, k, r) => Cells(l) + multiset{(i, c, k)} + Cells(r)
  }

  /** `x` with right child `y` becomes `y` with left child `x`; `y`'s old left
      subtree moves to `x`'s right link. */
  function RotateLeft(t: Tree): (r: Tree)
    requires t.Node? && t.right.Node?
    ensures r.Node? && r.left.Node?
    ensures r.id == t.right.id && r.left.id == t.id
    ensures r.left.left == t.left && r.left.right == t.right.left && r.right == t.right.right
  {
    var y := t.right;
    Node(y.color, Node(t.color, t.left, t.id, t.key, y.left), y.id, y.key, y.right)
  }

  /** `x` with left child `y` becomes `y` with right child `x`; `y`'s old right
      subtree moves to `x`'s left link. */
  function RotateRight(t: Tree): (r: Tree)
    requires t.Node? && t.left.Node?
    ensures r.Node? && r.right.Node?
    ensures r.id == t.left.id && r.right.id == t.id
    ensures r.left == t.left.left && r.right.left == t.left.right && r.right.right == t.right
  {
    var y := t.left;
    Node(y.color, y.left, y.id, y.key, Node(t.color, y.right, t.id, t.key, t.right))
  }

  /** A left rotation keeps the in-order key sequence. */
  lemma RotateLeftKeeps(t: Tree)
    requires t.Node? && t.right.Node?
    ensures InOrder(RotateLeft(t)) == InOrder(t)
  {
    var y := t.right;
    var a, b, c := InOrder(t.left), InOrder(y.left), InOrder(y.right);
    assert InOrder(t) == a + [t.key] + (b + [y.key] + c);
    assert InOrder(RotateLeft(t)) == (a + [t.key] + b) + [y.key] + c;
    Regroup(a, t.key, b, y.key, c);
  }

  /** A right rotation keeps the in-order key sequence. */
  lemma RotateRightKeeps(t: Tree)
    requires t.Node? && t.left.Node?
    ensures InOrder(RotateRight(t)) == InOrder(t)
  {
    var y := t.left;
    var a, b, c := InOrder(y.left), InOrder(y.right), InOrder(t.right);
    assert InOrder(t) == (a + [y.key] + b) + [t.key] + c;
    assert InOrder(RotateRight(t)) == a + [y.key] + (b + [t.key] + c);
    Regroup(a, y.key, b, t.key, c);
  }

  /** A left rotation keeps every node's key and the order of the nodes: the
      in-order sequence of (handle, key) is the same. */
  lemma RotateLeftEntries(t: Tree)
    requires t.Node? && t.right.Node?
    ensures Entries(RotateLeft(t)) == Entries(t)
  {
    var y := t.right;
    var a, b, c := Entries(t.left), Entries(y.left), Entries(y.right);
    assert Entries(t) == a + [(t.id, t.key)] + (b + [(y.id, y.key)] + c);
    assert Entries(RotateLeft(t)) == (a + [(t.id, t.key)] + b) + [(y.id, y.key)] + c;
    Regroup(a, (t.id, t.key), b, (y.id, y.key), c);
  }

  /** The same for a right rotation. */
  lemma RotateRightEntries(t: Tree)
    requires t.Node? && t.left.Node?
    ensures Entries(RotateRight(t)) == Entries(t)
  {
    var y := t.left;
    var a, b, c := Entries(y.left), Entries(y.right), Entries(t.right);
    assert Entries(t) == (a + [(y.id, y.key)] + b) + [(t.id, t.key)] + c;
    assert Entries(RotateRight(t)) == a + [(y.id, y.key)] + (b + [(t.id, t.key)] + c);
    Regroup(a, (y.id, y.key), b, (t.id, t.key), c);
  }

  /** Each rotation undoes the other. */
  lemma RotationsInverse(t: Tree)
    ensures t.Node? && t.right.Node? ==> RotateRight(RotateLeft(t)) == t
    ensures t.Node? && t.left.Node? ==> RotateLeft(RotateRight(t)) == t
  {
  }

  /** A left rotation keeps every node with its colour and key. */
  lemma RotateLeftCells(t: Tree)
    requires t.Node? && t.right.Node?
    ensures Cells(RotateLeft(t)) == Cells(t)
  {
    var y := t.right;
    assert Cells(t) == Cells(t.left) + multiset{(t.id, t.color, t.key)} + (Cells(y.left) + multiset{(y.id, y.color, y.key)} + Cells(y.right));
  }

  /** A right rotation keeps every node with its colour and key. */
  lemma RotateRightCells(t: Tree)
    requires t.Node? && t.left.Node?
    ensures Cells(RotateRight(t)) == Cells(t)
  {
    var y := t.left;
    assert Cells(t) == (Cells(y.left) + multiset{(y.id, y.color, y.key)} + Cells(y.right)) + multiset{(t.id, t.color, t.key)} + Cells(t.right);
  }

  /** Rotations neither create nor merge nodes. */
  lemma RotateLeftIds(t: Tree)
    requires t.Node? && t.right.Node?
    ensures Ids(RotateLeft(t)) == Ids(t)
    ensures Distinct(RotateLeft(t)) <==> Distinct(t)
  {
    var y := t.right;
    SwapDistinct(t.left, t.id, y.left, y.id, y.right, t.color, t.key, y.color, y.key);
  }

  lemma RotateRightIds(t: Tree)
    requires t.Node? && t.left.Node?
    ensures Ids(RotateRight(t)) == Ids(t)
    ensures Distinct(RotateRight(t)) <==> Distinct(t)
  {
    var y := t.left;
    SwapDistinct(y.left, y.id, y.right, t.id, t.right, y.color, y.key, t.color, t.key);
  }

  lemma SwapDistinct(a: Tree, x: int, b: Tree, y: int, c: Tree, cx: Color, kx: int, cy: Color, ky: int)
    ensures Distinct(Node(cy, Node(cx, a, x, kx, b), y, ky, c)) <==> Distinct(Node(cx, a, x, kx, Node(cy, b, y, ky, c)))
  {
  }
}
