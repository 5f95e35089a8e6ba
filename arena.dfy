/** The `RedBlackTree` class of main.cpp with its `Node` records. Every `new Node`
    is a record appended to the arena `nodes`; a pointer is an index into it and
    `nullptr` is `Nil`. The ghost field `shape` is the tree the records spell out. */
module Arena {
  import opened RbTree
  import opened Zipper
  import opened Rotations
  import opened Insertion
  import opened Rendering

  /** The fields of one `Node`: `data`, `color` and the three pointers. */
  datatype NodeRec = NodeRec(key: int, color: Color, left: int, right: int, parent: int)

  /** The records reachable from the pointer `Top(t)` spell out `t`, and the root
      of `t` points back to `p`. */
  ghost predicate Linked(t: Tree, p: int, nodes: seq<NodeRec>)
  {
    match t
    case Leaf => true
    case Node(c, l, i, k, r) =>
      0 <= i < |nodes| && nodes[i] == NodeRec(k, c, Top(l), Top(r), p) &&
      Linked(l, i, nodes) && Linked(r, i, nodes)
  }

  /** The record of an ancestor whose link on the path's side holds `child`. */
  function FrameRec(f: Frame, child: int, p: int): NodeRec
  {
    if f.fromLeft then NodeRec(f.key, f.color, child, Top(f.other), p)
    else NodeRec(f.key, f.color, Top(f.other), child, p)
  }

  /** The ancestors `c` of a subtree whose root pointer is `child` are in place. */
  ghost predicate LinkedCtx(c: Path, child: int, nodes: seq<NodeRec>)
    decreases |c|
  {
    c == [] ||
    (0 <= c[0].id < |nodes| && nodes[c[0].id] == FrameRec(c[0], child, ParentOf(c[1..])) &&
     Linked(c[0].other, c[0].id, nodes) && LinkedCtx(c[1..], c[0].id, nodes))
  }

  /** `b` is `a`, possibly grown, except at the handles in `avoid`. */
  ghost predicate SameOutside(a: seq<NodeRec>, b: seq<NodeRec>, avoid: set<int>)
  {
    |a| <= |b| && forall i :: 0 <= i < |a| && i !in avoid ==> b[i] == a[i]
  }

  /** Every node of a tree in place has a record. */
  lemma {:induction false} LinkedInRange(t: Tree, p: int, nodes: seq<NodeRec>)
    requires Linked(t, p, nodes)
    ensures forall i :: i in Ids(t) ==> 0 <= i < |nodes|
  {
    match t
    case Leaf =>
    case Node(_, l, i, _, r) =>
      LinkedInRange(l, i, nodes);
      LinkedInRange(r, i, nodes);
  }

  /** The arena holds exactly the tree `t`: its records spell out `t` from its
      root, every node is its own record, and every record belongs to `t`. */
  ghost predicate Spells(t: Tree, nodes: seq<NodeRec>)
  {
    Linked(t, Nil, nodes) && Distinct(t) && forall i :: i in Ids(t) <==> 0 <= i < |nodes|
  }

  /** Every record is a node of the tree: the arena holds exactly `Size(t)` records. */
  lemma SpellsSize(t: Tree, nodes: seq<NodeRec>)
    requires Spells(t, nodes)
    ensures Size(t) == |nodes|
  {
    IdsOfSize(t);
    RangeCard(Ids(t), |nodes|);
  }

  /** The handles below `n` are `n` many. */
  lemma {:induction false} RangeCard(s: set<int>, n: nat)
    requires forall i :: i in s <==> 0 <= i < n
    ensures |s| == n
    decreases n
  {
    if n == 0 {
      assert forall i :: i !in s;
      assert s == {};
    } else {
      RangeCard(s - {n - 1}, n - 1);
      assert s == (s - {n - 1}) + {n - 1};
    }
  }

  /** The whole tree is in place exactly when a subtree and its ancestors are. */
  lemma {:induction false} LinkedPlug(t: Tree, c: Path, nodes: seq<NodeRec>)
    ensures Linked(Plug(t, c), Nil, nodes) <==> Linked(t, ParentOf(c), nodes) && LinkedCtx(c, Top(t), nodes)
    decreases |c|
  {
    if c != [] {
      LinkedPlug(Fill(c[0], t), c[1..], nodes);
    }
  }

  /** Writes to records outside a subtree leave it in place. */
  lemma {:induction false} LinkedFrame(t: Tree, p: int, a: seq<NodeRec>, b: seq<NodeRec>, avoid: set<int>)
    requires Linked(t, p, a) && SameOutside(a, b, avoid) && Ids(t) !! avoid
    ensures Linked(t, p, b)
  {
    match t
    case Leaf =>
    case Node(_, l, i, _, r) =>
      LinkedFrame(l, i, a, b, avoid);
      LinkedFrame(r, i, a, b, avoid);
  }

  lemma {:induction false} LinkedCtxFrame(c: Path, child: int, a: seq<NodeRec>, b: seq<NodeRec>, avoid: set<int>)
    requires LinkedCtx(c, child, a) && SameOutside(a, b, avoid) && CtxIds(c) !! avoid
    ensures LinkedCtx(c, child, b)
    decreases |c|
  {
    if c != [] {
      LinkedFrame(c[0].other, c[0].id, a, b, avoid);
      LinkedCtxFrame(c[1..], c[0].id, a, b, avoid);
    }
  }

  /** What the records say around the root `x` of a subtree `s` with ancestors `c`:
      its own record, its parent's, and that `x` is the tree's root exactly when
      there are no ancestors. */
  lemma Local(nodes: seq<NodeRec>, s: Tree, c: Path)
    requires Linked(Plug(s, c), Nil, nodes) && Distinct(Plug(s, c)) && s.Node?
    ensures 0 <= s.id < |nodes| && nodes[s.id] == NodeRec(s.key, s.color, Top(s.left), Top(s.right), ParentOf(c))
    ensures Linked(s.left, s.id, nodes) && Linked(s.right, s.id, nodes) && LinkedCtx(c, s.id, nodes)
    ensures Distinct(s) && Ids(s) !! CtxIds(c)
    ensures c != [] ==> 0 <= c[0].id < |nodes| && nodes[c[0].id] == FrameRec(c[0], s.id, ParentOf(c[1..]))
    ensures c != [] ==> Top(c[0].other) != s.id && Linked(c[0].other, c[0].id, nodes)
    ensures (s.id == Top(Plug(s, c))) == (c == [])
    ensures forall i :: i in Ids(s) ==> 0 <= i < |nodes|
    ensures forall i :: i in CtxIds(c) ==> 0 <= i < |nodes|
  {
    LinkedInRange(Plug(s, c), Nil, nodes);
    IdsOfPlug(s, c);
    LinkedPlug(s, c, nodes);
    DistinctOfPlug(s, c);
    TopOfPlug(s, c);
    if c != [] {
      RootInCtx(c);
    }
  }

  /** The pointer writes of `leftRotate(x)` (main.cpp:41-59) with `x` the root of
      `s`, `y` its right child, `m` the left child of `y` and `p` the parent of
      `x`: each record changes only in the links the rotation sets. */
  ghost predicate LeftLinks(a: seq<NodeRec>, b: seq<NodeRec>, s: Tree, c: Path)
    requires s.Node? && s.right.Node?
  {
    var x, y, m, p := s.id, s.right.id, Top(s.right.left), ParentOf(c);
    |b| == |a| && 0 <= x < |a| && 0 <= y < |a| && (m == Nil || 0 <= m < |a|) &&
    (c == [] || 0 <= p < |a|) &&
    b[x] == a[x].(right := m, parent := y) &&
    b[y] == a[y].(left := x, parent := p) &&
    (m != Nil ==> b[m] == a[m].(parent := x)) &&
    (c != [] ==> b[p] == if c[0].fromLeft then a[p].(left := y) else a[p].(right := y)) &&
    SameOutside(a, b, {x, y, m, p})
  }

  /** The pointer writes of `rightRotate(x)` (main.cpp:62-80), the mirror image. */
  ghost predicate RightLinks(a: seq<NodeRec>, b: seq<NodeRec>, s: Tree, c: Path)
    requires s.Node? && s.left.Node?
  {
    var x, y, m, p := s.id, s.left.id, Top(s.left.right), ParentOf(c);
    |b| == |a| && 0 <= x < |a| && 0 <= y < |a| && (m == Nil || 0 <= m < |a|) &&
    (c == [] || 0 <= p < |a|) &&
    b[x] == a[x].(left := m, parent := y) &&
    b[y] == a[y].(right := x, parent := p) &&
    (m != Nil ==> b[m] == a[m].(parent := x)) &&
    (c != [] ==> b[p] == if c[0].fromLeft then a[p].(left := y) else a[p].(right := y)) &&
    SameOutside(a, b, {x, y, m, p})
  }

  /** The records `leftRotate(x)` reads, for `x` the root of `s`. */
  lemma LeftSite(a: seq<NodeRec>, s: Tree, c: Path)
    requires s.Node? && s.right.Node? && Spells(Plug(s, c), a)
    ensures var x, y, m, p := s.id, s.right.id, Top(s.right.left), ParentOf(c);
      0 <= x < |a| && 0 <= y < |a| && (m == Nil || 0 <= m < |a|) && (c == [] || 0 <= p < |a|) &&
      a[x].right == y && a[y].left == m && a[x].parent == p &&
      x != y && m != x && m != y && (c != [] ==> p != x && p != y && p != m && p != Nil) &&
      (c != [] ==> (a[p].left == x <==> c[0].fromLeft))
  {
    Local(a, s, c);
    var Y := s.right;
    assert Ids(s) == Ids(s.left) + {s.id} + (Ids(Y.left) + {Y.id} + Ids(Y.right));
    assert Distinct(Y);
    assert Linked(Y, s.id, a);
    if c != [] {
      assert c[0].id in CtxIds(c);
      if Y.left.Node? {
        assert Y.left.id in Ids(s);
      }
    }
  }

  /** The records `rightRotate(x)` reads, for `x` the root of `s`. */
  lemma RightSite(a: seq<NodeRec>, s: Tree, c: Path)
    requires s.Node? && s.left.Node? && Spells(Plug(s, c), a)
    ensures var x, y, m, p := s.id, s.left.id, Top(s.left.right), ParentOf(c);
      0 <= x < |a| && 0 <= y < |a| && (m == Nil || 0 <= m < |a|) && (c == [] || 0 <= p < |a|) &&
      a[x].left == y && a[y].right == m && a[x].parent == p &&
      x != y && m != x && m != y && (c != [] ==> p != x && p != y && p != m && p != Nil) &&
      (c != [] ==> (a[p].left == x <==> c[0].fromLeft))
  {
    Local(a, s, c);
    var Y := s.left;
    assert Ids(s) == (Ids(Y.left) + {Y.id} + Ids(Y.right)) + {s.id} + Ids(s.right);
    assert Distinct(Y);
    assert Linked(Y, s.id, a);
    if c != [] {
      assert c[0].id in CtxIds(c);
      if Y.right.Node? {
        assert Y.right.id in Ids(s);
      }
    }
  }

  lemma PlugTwo(s: Tree, p: Frame, g: Frame, rest: Path)
    ensures Plug(s, [p, g] + rest) == Plug(Fill(p, s), [g] + rest) == Plug(Fill(g, Fill(p, s)), rest)
  {
    assert ([p, g] + rest)[1..] == [g] + rest;
    assert ([g] + rest)[1..] == rest;
  }

  /** The facts the fix-up loop keeps about `x`, the root of `s`, and its parent. */
  lemma AtX(a: seq<NodeRec>, s: Tree, c: Path)
    requires s.Node? && Spells(Plug(s, c), a)
    ensures 0 <= s.id < |a| && a[s.id].color == s.color && a[s.id].parent == ParentOf(c)
    ensures c != [] ==> 0 <= c[0].id < |a| && a[c[0].id].color == c[0].color
    ensures (s.id == Top(Plug(s, c))) == (c == [])
  {
    Local(a, s, c);
  }

  /** One turn of the loop: `FixUp` goes on from the subtree `Step` builds. */
  lemma FixUpTurn(s: Tree, c: Path)
    requires s.Node? && RootBlack(c) && c != [] && s.color == Red && c[0].color == Red
    ensures |c| >= 2 && FixUp(s, c) == FixUp(Step(s, c[0], c[1]), c[2..])
  {
  }

  /** Case 1 as `Step` computes it. */
  lemma StepRecolours(s: Tree, p: Frame, g: Frame)
    requires s.Node? && IsRed(g.other)
    ensures var G := Fill(g, Fill(p, s));
      Step(s, p, g) == G.(color := Red, left := G.left.(color := Black), right := G.right.(color := Black))
  {
  }

  /** The records one iteration of `fixViolation` reads: `x` (the root of `s`),
      its parent `p`, its grandparent `g` and the uncle hanging on `g`'s other link. */
  lemma FixSite(a: seq<NodeRec>, s: Tree, p: Frame, g: Frame, rest: Path)
    requires s.Node? && Linked(Plug(s, [p, g] + rest), Nil, a) && Distinct(Plug(s, [p, g] + rest))
    ensures 0 <= s.id < |a| && 0 <= p.id < |a| && 0 <= g.id < |a|
    ensures a[s.id].parent == p.id && a[p.id].parent == g.id
    ensures a[p.id].left == (if p.fromLeft then s.id else Top(p.other))
    ensures a[p.id].right == (if p.fromLeft then Top(p.other) else s.id)
    ensures a[g.id].left == (if g.fromLeft then p.id else Top(g.other))
    ensures a[g.id].right == (if g.fromLeft then Top(g.other) else p.id)
    ensures s.id != Top(p.other) && p.id != Top(g.other)
    ensures Top(g.other) != Nil ==> 0 <= Top(g.other) < |a|
    ensures IsRed(g.other) <==> Top(g.other) != Nil && a[Top(g.other)].color == Red
  {
    PlugTwo(s, p, g, rest);
    var P := Fill(p, s);
    var G := Fill(g, P);
    LinkedPlug(G, rest, a);
    DistinctOfPlug(G, rest);
    assert Linked(G, ParentOf(rest), a) && Distinct(G);
    assert Linked(P, g.id, a) && Linked(g.other, g.id, a) && Distinct(P);
    assert Linked(s, p.id, a) && Linked(p.other, p.id, a);
    assert g.other.Node? ==> g.other.id in Ids(g.other);
    assert p.other.Node? ==> p.other.id in Ids(p.other);
    assert s.id in Ids(s);
  }

  /** A subtree `t` replaced in place by `t'` over the same nodes: when the new
      records spell out `t'` and its parent links to it, and nothing else outside
      the subtree and its parent changed, the arena holds the new whole tree. */
  lemma Replant(a: seq<NodeRec>, b: seq<NodeRec>, t: Tree, t': Tree, c: Path, avoid: set<int>)
    requires t.Node? && t'.Node? && Spells(Plug(t, c), a)
    requires Linked(t', ParentOf(c), b) && Distinct(t') && Ids(t') == Ids(t)
    requires |b| == |a| && SameOutside(a, b, avoid) && avoid <= Ids(t) + {ParentOf(c), Nil}
    requires c != [] ==> 0 <= c[0].id < |b| && b[c[0].id] == FrameRec(c[0], t'.id, ParentOf(c[1..]))
    ensures Spells(Plug(t', c), b)
  {
    Local(a, t, c);
    if c != [] {
      var p := c[0].id;
      DistinctOfPlug(Fill(c[0], t), c[1..]);
      assert CtxIds(c) == {p} + Ids(c[0].other) + CtxIds(c[1..]);
      assert Distinct(Fill(c[0], t)) && p !in Ids(c[0].other);
      LinkedFrame(c[0].other, p, a, b, avoid);
      LinkedCtxFrame(c[1..], p, a, b, avoid);
    }
    LinkedPlug(t', c, b);
    DistinctReplace(t, t', c);
    IdsOfPlug(t, c);
    IdsOfPlug(t', c);
  }

  /** The writes of `leftRotate` turn the records of a tree into those of the tree
      with the subtree rotated. */
  lemma RotateLeftRelinks(a: seq<NodeRec>, b: seq<NodeRec>, s: Tree, c: Path)
    requires s.Node? && s.right.Node?
    requires Spells(Plug(s, c), a) && LeftLinks(a, b, s, c)
    ensures Spells(Plug(RotateLeft(s), c), b)
  {
    var x, Y, p := s.id, s.right, ParentOf(c);
    var avoid := {x, Y.id, Top(Y.left), p};
    Local(a, s, c);
    assert Ids(s) == Ids(s.left) + {x} + (Ids(Y.left) + {Y.id} + Ids(Y.right));
    assert Distinct(Y) && Ids(Y.left) !! Ids(Y.right) && Y.id !in Ids(Y.left);
    assert Y.left.Node? ==> Top(Y.left) in Ids(Y.left);
    assert Nil !in Ids(s);
    if c != [] {
      assert p in CtxIds(c);
    }
    assert Linked(Y, x, a);
    LinkedFrame(s.left, x, a, b, avoid);
    if Y.left.Node? {
      assert Linked(Y.left, Y.id, a) && Distinct(Y.left);
      assert Ids(Y.left) == Ids(Y.left.left) + {Y.left.id} + Ids(Y.left.right);
      LinkedFrame(Y.left.left, Y.left.id, a, b, avoid);
      LinkedFrame(Y.left.right, Y.left.id, a, b, avoid);
    }
    LinkedFrame(Y.right, Y.id, a, b, avoid);
    assert Linked(RotateLeft(s), p, b);
    RotateLeftIds(s);
    Replant(a, b, s, RotateLeft(s), c, avoid);
  }

  lemma RotateRightRelinks(a: seq<NodeRec>, b: seq<NodeRec>, s: Tree, c: Path)
    requires s.Node? && s.left.Node?
    requires Spells(Plug(s, c), a) && RightLinks(a, b, s, c)
    ensures Spells(Plug(RotateRight(s), c), b)
  {
    var x, Y, p := s.id, s.left, ParentOf(c);
    var avoid := {x, Y.id, Top(Y.right), p};
    Local(a, s, c);
    assert Ids(s) == (Ids(Y.left) + {Y.id} + Ids(Y.right)) + {x} + Ids(s.right);
    assert Distinct(Y) && Ids(Y.left) !! Ids(Y.right) && Y.id !in Ids(Y.right);
    assert Y.right.Node? ==> Top(Y.right) in Ids(Y.right);
    assert Nil !in Ids(s);
    if c != [] {
      assert p in CtxIds(c);
    }
    assert Linked(Y, x, a);
    LinkedFrame(s.right, x, a, b, avoid);
    if Y.right.Node? {
      assert Linked(Y.right, Y.id, a) && Distinct(Y.right);
      assert Ids(Y.right) == Ids(Y.right.left) + {Y.right.id} + Ids(Y.right.right);
      LinkedFrame(Y.right.left, Y.right.id, a, b, avoid);
      LinkedFrame(Y.right.right, Y.right.id, a, b, avoid);
    }
    LinkedFrame(Y.left, Y.id, a, b, avoid);
    assert Linked(RotateRight(s), p, b);
    RotateRightIds(s);
    Replant(a, b, s, RotateRight(s), c, avoid);
  }

  /** Writing a colour into one record recolours that node of the tree. */
  lemma PaintRelinks(a: seq<NodeRec>, t: Tree, c: Path, col: Color)
    requires t.Node? && Spells(Plug(t, c), a)
    ensures 0 <= t.id < |a|
    ensures Spells(Plug(t.(color := col), c), a[t.id := a[t.id].(color := col)])
  {
    Local(a, t, c);
    var b := a[t.id := a[t.id].(color := col)];
    LinkedFrame(t.left, t.id, a, b, {t.id});
    LinkedFrame(t.right, t.id, a, b, {t.id});
    Replant(a, b, t, t.(color := col), c, {t.id});
  }

  /** Hanging a fresh node `n` on the null link its ancestors `c` end in puts
      it in place, and leaves the rest in place. */
  lemma HangNew(a: seq<NodeRec>, b: seq<NodeRec>, n: Tree, c: Path)
    requires n.Node? && Linked(n, ParentOf(c), b)
    requires LinkedCtx(c, Nil, a) && Distinct(Plug(Leaf, c)) && n.id !in CtxIds(c)
    requires c != [] ==> 0 <= c[0].id < |b| && b[c[0].id] == FrameRec(c[0], n.id, ParentOf(c[1..]))
    requires SameOutside(a, b, {n.id, ParentOf(c)})
    ensures Linked(Plug(n, c), Nil, b)
  {
    if c != [] {
      var avoid := {n.id, ParentOf(c)};
      DistinctOfPlug(Fill(c[0], Leaf), c[1..]);
      assert CtxIds(c) == {c[0].id} + Ids(c[0].other) + CtxIds(c[1..]);
      LinkedFrame(c[0].other, c[0].id, a, b, avoid);
      LinkedCtxFrame(c[1..], c[0].id, a, b, avoid);
    }
    LinkedPlug(n, c, b);
  }

  /** The fresh node `n` takes the next handle: the tree over the handles below
      `n.id` grows to the handles up to `n.id`, each still used once. */
  lemma HangNewIds(n: Tree, c: Path)
    requires n.Node? && n.left.Leaf? && n.right.Leaf? && 0 <= n.id
    requires Distinct(Plug(Leaf, c)) && forall i :: i in Ids(Plug(Leaf, c)) <==> 0 <= i < n.id
    ensures n.id !in CtxIds(c)
    ensures Distinct(Plug(n, c)) && forall i :: i in Ids(Plug(n, c)) <==> 0 <= i < n.id + 1
    ensures Top(Plug(n, c)) == if c == [] then n.id else Top(Plug(Leaf, c))
  {
    IdsOfPlug(Leaf, c);
    IdsOfPlug(n, c);
    assert Ids(n) == {n.id};
    assert n.id !in Ids(Plug(Leaf, c));
    DistinctReplace(Leaf, n, c);
    forall i ensures i in Ids(Plug(n, c)) <==> 0 <= i < n.id + 1 {
      assert i in Ids(Plug(n, c)) <==> i == n.id || i in Ids(Plug(Leaf, c));
    }
    TopOfPlug(Leaf, c);
    TopOfPlug(n, c);
  }

  class RedBlackTree {
    var nodes: seq<NodeRec>
    var root: int
    ghost var shape: Tree

    /** The arena holds exactly `shape`, whose root `root` points to. */
    ghost predicate Wf()
      reads this
    {
      Spells(shape, nodes) && root == Top(shape)
    }

    /** Between public calls the tree is a red-black search tree. */
    ghost predicate Valid()
      reads this
    {
      Wf() && IsRedBlack(shape)
    }

    /** `RedBlackTree() : root(nullptr)`. */
    constructor ()
      ensures Valid() && shape == Leaf && nodes == [] && root == Nil
    {
      nodes := [];
      root := Nil;
      shape := Leaf;
    }

    /** `node->color = col` for the root `i` of the subtree `t` with ancestors `c`. */
    method Paint(i: int, col: Color, ghost t: Tree, ghost c: Path)
      requires Wf() && shape == Plug(t, c) && t.Node? && t.id == i
      modifies this
      ensures Wf() && shape == Plug(t.(color := col), c)
      ensures |nodes| == old(|nodes|) && 0 <= i < |nodes|
      ensures nodes == old(nodes)[i := old(nodes)[i].(color := col)]
      ensures root == old(root)
    {
      PaintRelinks(nodes, t, c, col);
      nodes := nodes[i := nodes[i].(color := col)];
      shape := Plug(t.(color := col), c);
      TopOfPlug(t, c);
      TopOfPlug(t.(color := col), c);
    }

    /** `leftRotate(x)` with `x` the root of the subtree `s` and `c` its ancestors. */
    method LeftRotate(x: int, ghost s: Tree, ghost c: Path)
      requires Wf() && shape == Plug(s, c) && s.Node? && s.id == x && s.right.Node?
      modifies this
      ensures Wf() && shape == Plug(RotateLeft(s), c)
      ensures LeftLinks(old(nodes), nodes, s, c)
    {
      ghost var a := nodes;
      LeftSite(a, s, c);
      var ns := nodes;
      var y := ns[x].right;
      ns := ns[x := ns[x].(right := ns[y].left)];
      if ns[y].left != Nil {
        var m := ns[y].left;
        ns := ns[m := ns[m].(parent := x)];
      }
      ns := ns[y := ns[y].(parent := ns[x].parent)];
      if ns[x].parent == Nil {
        root := y;
      } else if x == ns[ns[x].parent].left {
        var p := ns[x].parent;
        ns := ns[p := ns[p].(left := y)];
      } else {
        var p := ns[x].parent;
        ns := ns[p := ns[p].(right := y)];
      }
      ns := ns[y := ns[y].(left := x)];
      ns := ns[x := ns[x].(parent := y)];
      assert LeftLinks(a, ns, s, c);
      nodes := ns;
      RotateLeftRelinks(a, nodes, s, c);
      shape := Plug(RotateLeft(s), c);
      TopOfPlug(s, c);
      TopOfPlug(RotateLeft(s), c);
    }

    /** `rightRotate(x)` with `x` the root of the subtree `s` and `c` its ancestors. */
    method RightRotate(x: int, ghost s: Tree, ghost c: Path)
      requires Wf() && shape == Plug(s, c) && s.Node? && s.id == x && s.left.Node?
      modifies this
      ensures Wf() && shape == Plug(RotateRight(s), c)
      ensures RightLinks(old(nodes), nodes, s, c)
    {
      ghost var a := nodes;
      RightSite(a, s, c);
      var ns := nodes;
      var y := ns[x].left;
      ns := ns[x := ns[x].(left := ns[y].right)];
      if ns[y].right != Nil {
        var m := ns[y].right;
        ns := ns[m := ns[m].(parent := x)];
      }
      ns := ns[y := ns[y].(parent := ns[x].parent)];
      if ns[x].parent == Nil {
        root := y;
      } else if x == ns[ns[x].parent].left {
        var p := ns[x].parent;
        ns := ns[p := ns[p].(left := y)];
      } else {
        var p := ns[x].parent;
        ns := ns[p := ns[p].(right := y)];
      }
      ns := ns[y := ns[y].(right := x)];
      ns := ns[x := ns[x].(parent := y)];
      assert RightLinks(a, ns, s, c);
      nodes := ns;
      RotateRightRelinks(a, nodes, s, c);
      shape := Plug(RotateRight(s), c);
      TopOfPlug(s, c);
      TopOfPlug(RotateRight(s), c);
    }

    /** Case 1 of `fixViolation`: the grandparent `G` turns red, then the parent
        and then the uncle turn black; the parent is `G`'s left child when
        `parentLeft` holds. */
    method Recolour(gp: int, par: int, uncle: int, parentLeft: bool, ghost G: Tree, ghost c: Path)
      requires Wf() && shape == Plug(G, c) && G.Node? && G.left.Node? && G.right.Node? && G.id == gp
      requires parentLeft ==> G.left.id == par && G.right.id == uncle
      requires !parentLeft ==> G.right.id == par && G.left.id == uncle
      modifies this
      ensures Wf() && shape == Plug(G.(color := Red, left := G.left.(color := Black), right := G.right.(color := Black)), c)
      ensures |nodes| == old(|nodes|)
    {
      Paint(gp, Red, G, c);
      ghost var G1 := G.(color := Red);
      if parentLeft {
        assert Plug(G1.left, [Above(G1, true)] + c) == Plug(G1, c);
        Paint(par, Black, G1.left, [Above(G1, true)] + c);
        ghost var G2 := G1.(left := G1.left.(color := Black));
        assert Plug(G2.right, [Above(G2, false)] + c) == Plug(G2, c);
        Paint(uncle, Black, G2.right, [Above(G2, false)] + c);
        assert Plug(G2.right.(color := Black), [Above(G2, false)] + c) ==
               Plug(G.(color := Red, left := G.left.(color := Black), right := G.right.(color := Black)), c);
      } else {
        assert Plug(G1.right, [Above(G1, false)] + c) == Plug(G1, c);
        Paint(par, Black, G1.right, [Above(G1, false)] + c);
        ghost var G2 := G1.(right := G1.right.(color := Black));
        assert Plug(G2.left, [Above(G2, true)] + c) == Plug(G2, c);
        Paint(uncle, Black, G2.left, [Above(G2, true)] + c);
        assert Plug(G2.left.(color := Black), [Above(G2, true)] + c) ==
               Plug(G.(color := Red, left := G.left.(color := Black), right := G.right.(color := Black)), c);
      }
    }

    /** `std::swap(parent->color, grandparent->color)` after case 3: the subtree
        root `R` (the parent) and its child on the `toLeft` side (the old
        grandparent) trade colours. */
    method SwapColors(par: int, gp: int, ghost R: Tree, ghost toLeft: bool, ghost c: Path)
      requires Wf() && shape == Plug(R, c) && R.Node? && R.id == par
      requires toLeft ==> R.left.Node? && R.left.id == gp
      requires !toLeft ==> R.right.Node? && R.right.id == gp
      modifies this
      ensures Wf() && |nodes| == old(|nodes|)
      ensures toLeft ==> shape == Plug(SwapWithLeft(R), c)
      ensures !toLeft ==> shape == Plug(SwapWithRight(R), c)
    {
      Local(nodes, R, c);
      var child := if toLeft then R.left else R.right;
      assert Linked(child, R.id, nodes);
      var pc, gc := nodes[par].color, nodes[gp].color;
      Paint(par, gc, R, c);
      ghost var R1 := R.(color := gc);
      ghost var f := Above(R1, toLeft);
      assert Plug(child, [f] + c) == Plug(R1, c);
      Paint(gp, pc, child, [f] + c);
      assert Plug(child.(color := pc), [f] + c) == if toLeft then Plug(SwapWithLeft(R), c) else Plug(SwapWithRight(R), c);
    }

    /** Cases 2 and 3 of `fixViolation` when the parent is a left child and the
        uncle is black: rotate the parent left if `x` is its right child, then the
        grandparent right, and swap the colours of the new subtree root and the
        old grandparent. Returns the new `x`. */
    method RebalanceLeft(x: int, parent: int, grandparent: int, ghost s: Tree, ghost p: Frame, ghost g: Frame, ghost rest: Path)
      returns (top: int)
      requires Wf() && s.Node? && shape == Plug(Fill(g, Fill(p, s)), rest)
      requires g.fromLeft && !IsRed(g.other)
      requires s.id == x && p.id == parent && g.id == grandparent
      modifies this
      ensures Wf() && shape == Plug(Step(s, p, g), rest) && top == Step(s, p, g).id
      ensures |nodes| == old(|nodes|)
    {
      ghost var G := Fill(g, Fill(p, s));
      PlugTwo(s, p, g, rest);
      FixSite(nodes, s, p, g, rest);
      ghost var H := G;
      var y, py := x, parent;
      if y == nodes[py].right {
        assert Plug(Fill(p, s), [g] + rest) == shape;
        LeftRotate(py, Fill(p, s), [g] + rest);
        H := G.(left := RotateLeft(G.left));
        assert shape == Plug(H, rest);
        y := py;
        py := nodes[y].parent;
      }
      assert H == G.(left := if p.fromLeft then G.left else RotateLeft(G.left));
      RightRotate(grandparent, H, rest);
      SwapColors(py, grandparent, RotateRight(H), false, rest);
      top := py;
    }

    /** The mirror image of `RebalanceLeft`, for a parent that is a right child. */
    method RebalanceRight(x: int, parent: int, grandparent: int, ghost s: Tree, ghost p: Frame, ghost g: Frame, ghost rest: Path)
      returns (top: int)
      requires Wf() && s.Node? && shape == Plug(Fill(g, Fill(p, s)), rest)
      requires !g.fromLeft && !IsRed(g.other)
      requires s.id == x && p.id == parent && g.id == grandparent
      modifies this
      ensures Wf() && shape == Plug(Step(s, p, g), rest) && top == Step(s, p, g).id
      ensures |nodes| == old(|nodes|)
    {
      ghost var G := Fill(g, Fill(p, s));
      PlugTwo(s, p, g, rest);
      FixSite(nodes, s, p, g, rest);
      ghost var H := G;
      var y, py := x, parent;
      if y == nodes[py].left {
        assert Plug(Fill(p, s), [g] + rest) == shape;
        RightRotate(py, Fill(p, s), [g] + rest);
        H := G.(right := RotateRight(G.right));
        assert shape == Plug(H, rest);
        y := py;
        py := nodes[y].parent;
      }
      assert H == G.(right := if p.fromLeft then RotateRight(G.right) else G.right);
      LeftRotate(grandparent, H, rest);
      SwapColors(py, grandparent, RotateLeft(H), true, rest);
      top := py;
    }

    /** `fixViolation(x, isInsertion)` with `x` the root of the subtree `s0` and
        `c0` its ancestors: the loop of `FixUp`, then the root painted black. */
    method FixViolation(x0: int, ghost s0: Tree, ghost c0: Path)
      requires Wf() && shape == Plug(s0, c0) && s0.Node? && s0.id == x0 && RootBlack(c0)
      modifies this
      ensures Wf() && shape == Blacken(FixUp(s0, c0))
      ensures Entries(shape) == Entries(old(shape))
      ensures |nodes| == old(|nodes|)
    {
      var x := x0;
      ghost var s, c := s0, c0;
      AtX(nodes, s, c);
      while x != root && nodes[x].color == Red && nodes[nodes[x].parent].color == Red
        invariant Wf() && shape == Plug(s, c) && s.Node? && s.id == x && RootBlack(c)
        invariant FixUp(s, c) == FixUp(s0, c0)
        invariant |nodes| == old(|nodes|)
        invariant 0 <= x < |nodes| && nodes[x].color == s.color && nodes[x].parent == ParentOf(c)
        invariant c != [] ==> 0 <= c[0].id < |nodes| && nodes[c[0].id].color == c[0].color
        invariant (x == root) == (c == [])
        decreases |c|
      {
        ghost var p, g, rest := c[0], c[1], c[2..];
        ghost var G := Fill(g, Fill(p, s));
        assert c == [p, g] + rest;
        FixUpTurn(s, c);
        PlugTwo(s, p, g, rest);
        FixSite(nodes, s, p, g, rest);
        var parent := nodes[x].parent;
        var grandparent := nodes[parent].parent;
        if parent == nodes[grandparent].left {
          var uncle := nodes[grandparent].right;
          if uncle != Nil && nodes[uncle].color == Red {
            StepRecolours(s, p, g);
            Recolour(grandparent, parent, uncle, true, G, rest);
            x := grandparent;
          } else {
            x := RebalanceLeft(x, parent, grandparent, s, p, g, rest);
          }
        } else {
          var uncle := nodes[grandparent].left;
          if uncle != Nil && nodes[uncle].color == Red {
            StepRecolours(s, p, g);
            Recolour(grandparent, parent, uncle, false, G, rest);
            x := grandparent;
          } else {
            x := RebalanceRight(x, parent, grandparent, s, p, g, rest);
          }
        }
        s, c := Step(s, p, g), rest;
        AtX(nodes, s, c);
      }
      PlugNode(s, c);
      assert Plug(shape, []) == shape;
      Paint(root, Black, shape, []);
      FixUpEntries(s0, c0);
    }

    /** `insert(value)`: a new red node is hung on the null link where the search
        for `v` leaves the tree (equal keys go right), then `fixViolation` runs. */
    method Insert(v: int)
      requires Valid()
      modifies this
      ensures Valid()
      ensures shape == Insertion.Insert(old(shape), v, old(|nodes|))
      ensures |nodes| == old(|nodes|) + 1 && Size(shape) == Size(old(shape)) + 1
      ensures shape.Node? && shape.color == Black
      ensures multiset(InOrder(shape)) == multiset(InOrder(old(shape))) + multiset{v}
      ensures InOrder(shape) == InsertSorted(InOrder(old(shape)), v)
      ensures exists a, b :: SplicedAround(Entries(old(shape)), Entries(shape), [(old(|nodes|), v)], v, a, b)
    {
      SpellsSize(shape, nodes);
      var id := |nodes|;
      var ns := nodes + [NodeRec(v, Red, Nil, Nil, Nil)];
      ghost var a := ns;
      LinkedFrame(shape, Nil, nodes, a, {});
      assert Plug(shape, []) == shape;
      var current := root;
      var parent := Nil;
      ghost var sub: Tree, c: Path := shape, [];
      while current != Nil
        invariant Plug(sub, c) == shape
        invariant current == Top(sub) && parent == ParentOf(c)
        invariant Linked(sub, parent, a) && LinkedCtx(c, current, a)
        invariant Descend(sub, v, c) == Descend(shape, v, [])
        invariant c != [] ==> (c[0].fromLeft <==> v < c[0].key)
        decreases sub
      {
        parent := current;
        ghost var f := Above(sub, v < sub.key);
        if v < ns[current].key {
          current := ns[current].left;
          sub := sub.left;
        } else {
          current := ns[current].right;
          sub := sub.right;
        }
        assert ([f] + c)[1..] == c;
        c := [f] + c;
      }
      assert sub == Leaf;
      ns := ns[id := ns[id].(parent := parent)];
      if parent == Nil {
        root := id;
      } else if v < ns[parent].key {
        ns := ns[parent := ns[parent].(left := id)];
      } else {
        ns := ns[parent := ns[parent].(right := id)];
      }
      nodes := ns;
      ghost var n := NewNode(v, id);
      HangNewIds(n, c);
      HangNew(a, nodes, n, c);
      shape := Plug(n, c);
      DescendRootBlack(old(shape), v);
      FixViolation(id, n, c);
      InsertRedBlack(old(shape), v, id);
      InsertInOrder(old(shape), v, id);
      InsertKeys(old(shape), v, id);
      InsertEntries(old(shape), v, id);
      SpellsSize(shape, nodes);
    }

    /** `inorderHelper(node, ss, indent, last)` following the pointers from `node`,
        the root of the subtree `t` whose parent is `p`: the lines it writes. */
    function InorderHelper(node: int, indent: string, last: bool, ghost t: Tree, ghost p: int): (r: seq<Line>)
      reads this
      requires Linked(t, p, nodes) && node == Top(t)
      ensures r == Render(t, indent, last)
      decreases t
    {
      if node == Nil then []
      else
        assert t.Node? && nodes[node] == NodeRec(t.key, t.color, Top(t.left), Top(t.right), p);
        assert Linked(t.left, node, nodes) && Linked(t.right, node, nodes);
        assert Top(t.right) == Nil ==> t.right == Leaf;
        assert Top(t.left) == Nil ==> t.left == Leaf;
        var n := nodes[node];
        var above := if n.right != Nil then InorderHelper(n.right, indent + "      ", false, t.right, node) else [];
        var below := if n.left != Nil then InorderHelper(n.left, indent + (if last then "   " else "|   ") + "   ", true, t.left, node) else [];
        above + [Line(indent, if last then "\\--" else "/--", n.color, n.key)] + below
    }

    /** What `printTree` hands to `std::cout`: the text `inorderHelper` writes from
        the root, then one more newline. */
    function PrintTree(): (out: string)
      reads this
      requires Wf()
      ensures out == Text(Render(shape, "", true)) + "\n"
    {
      Text(InorderHelper(root, "", true, shape, Nil)) + "\n"
    }
  }
}
