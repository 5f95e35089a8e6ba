/** The chain of parent pointers above a node, as a path of frames. Walking up
    through `x->parent` in the source is taking one frame off the path. */
module Zipper {
  import opened RbTree

  /** One ancestor on the way up: its colour, handle and key, whether the subtree
      below hangs from its left link (`fromLeft`), and the subtree on its other link. */
  datatype Frame = Frame(color: Color, id: int, key: int, fromLeft: bool, other: Tree)

  /** The ancestors of a subtree, innermost (the parent) first, the root last. */
  type Path = seq<Frame>

  /** The ancestor's subtree, with `t` hung back on its link. */
  function Fill(f: Frame, t: Tree): (r: Tree)
    ensures r.Node? && r.color == f.color && r.id == f.id && r.key == f.key
  {
    if f.fromLeft then Node(f.color, t, f.id, f.key, f.other)
    else Node(f.color, f.other, f.id, f.key, t)
  }

  /** The frame `t` leaves when one descends into its left (or right) subtree. */
  function Above(t: Tree, toLeft: bool): (f: Frame)
    requires t.Node?
    ensures Fill(f, if toLeft then t.left else t.right) == t
  {
    Frame(t.color, t.id, t.key, toLeft, if toLeft then t.right else t.left)
  }

  /** The whole tree rebuilt from the subtree `t` and its ancestors `c`. */
  function Plug(t: Tree, c: Path): Tree
    decreases |c|
  {
    if c == [] then t else Plug(Fill(c[0], t), c[1..])
  }

  /** The handle held by the parent pointer of the subtree's root. */
  function ParentOf(c: Path): int
  {
    if c == [] then Nil else c[0].id
  }

  /** The handles of the ancestors and of the subtrees hanging beside the path. */
  function CtxIds(c: Path): set<int>
    decreases |c|
  {
    if c == [] then {} else {c[0].id} + Ids(c[0].other) + CtxIds(c[1..])
  }

  /** The root's colour when the subtree is not itself the root. */
  predicate RootBlack(c: Path)
  {
    c == [] || c[|c| - 1].color == Black
  }

  predicate ParentBlack(c: Path)
  {
    c == [] || c[0].color == Black
  }

  lemma {:induction false} TopOfPlug(t: Tree, c: Path)
    ensures Top(Plug(t, c)) == if c == [] then Top(t) else c[|c| - 1].id
    decreases |c|
  {
    if c != [] {
      TopOfPlug(Fill(c[0], t), c[1..]);
    }
  }

  lemma {:induction false} IdsOfPlug(t: Tree, c: Path)
    ensures Ids(Plug(t, c)) == Ids(t) + CtxIds(c)
    decreases |c|
  {
    if c != [] {
      IdsOfPlug(Fill(c[0], t), c[1..]);
    }
  }

  /** Replacing a subtree by one with the same in-order keys keeps the in-order
      keys of the whole tree. */
  lemma {:induction false} InOrderOfPlug(t: Tree, t': Tree, c: Path)
    requires InOrder(t') == InOrder(t)
    ensures InOrder(Plug(t', c)) == InOrder(Plug(t, c))
    decreases |c|
  {
    if c != [] {
      InOrderOfPlug(Fill(c[0], t), Fill(c[0], t'), c[1..]);
    }
  }

  /** Replacing a subtree by one with the same (handle, key) sequence keeps that
      sequence for the whole tree. */
  lemma {:induction false} EntriesOfPlug(t: Tree, t': Tree, c: Path)
    requires Entries(t') == Entries(t)
    ensures Entries(Plug(t', c)) == Entries(Plug(t, c))
    decreases |c|
  {
    if c != [] {
      EntriesOfPlug(Fill(c[0], t), Fill(c[0], t'), c[1..]);
    }
  }

  lemma {:induction false} DistinctOfPlug(t: Tree, c: Path)
    requires Distinct(Plug(t, c))
    ensures Distinct(t) && Ids(t) !! CtxIds(c)
    decreases |c|
  {
    if c != [] {
      DistinctOfPlug(Fill(c[0], t), c[1..]);
      IdsOfPlug(Fill(c[0], t), c[1..]);
    }
  }

  /** A subtree may be replaced by one whose handles are fresh to the ancestors
      without repeating a handle. */
  lemma {:induction false} DistinctReplace(t: Tree, t': Tree, c: Path)
    requires Distinct(Plug(t, c)) && Distinct(t') && Ids(t') !! CtxIds(c)
    ensures Distinct(Plug(t', c))
    decreases |c|
  {
    if c != [] {
      DistinctOfPlug(t, c);
      DistinctOfPlug(Fill(c[0], t), c[1..]);
      DistinctReplace(Fill(c[0], t), Fill(c[0], t'), c[1..]);
    }
  }

  lemma {:induction false} PlugNode(t: Tree, c: Path)
    requires t.Node?
    ensures Plug(t, c).Node?
    decreases |c|
  {
    if c != [] {
      PlugNode(Fill(c[0], t), c[1..]);
    }
  }

  lemma {:induction false} RootInCtx(c: Path)
    requires c != []
    ensures c[|c| - 1].id in CtxIds(c)
    decreases |c|
  {
    if |c| > 1 {
      RootInCtx(c[1..]);
    }
  }

  lemma {:induction false} RedOkOfPlug(t: Tree, c: Path)
    requires RedOk(Plug(t, c))
    ensures RedOk(t) && (IsRed(t) ==> ParentBlack(c))
    decreases |c|
  {
    if c != [] {
      RedOkOfPlug(Fill(c[0], t), c[1..]);
    }
  }

  /** A red-clean subtree may replace another in a red-clean tree when its root is
      black or its parent is. */
  lemma {:induction false} RedOkReplace(t: Tree, t': Tree, c: Path)
    requires RedOk(Plug(t, c)) && RedOk(t')
    requires !IsRed(t') || ParentBlack(c)
    ensures RedOk(Plug(t', c))
    decreases |c|
  {
    if c != [] {
      RedOkOfPlug(Fill(c[0], t), c[1..]);
      RedOkReplace(Fill(c[0], t), Fill(c[0], t'), c[1..]);
    }
  }

  lemma {:induction false} BalancedOfPlug(t: Tree, c: Path)
    requires Balanced(Plug(t, c))
    ensures Balanced(t)
    decreases |c|
  {
    if c != [] {
      BalancedOfPlug(Fill(c[0], t), c[1..]);
    }
  }

  /** A balanced subtree of the same black height may replace another. */
  lemma {:induction false} BalancedReplace(t: Tree, t': Tree, c: Path)
    requires Balanced(Plug(t, c)) && Balanced(t') && BlackHeight(t') == BlackHeight(t)
    ensures Balanced(Plug(t', c))
    decreases |c|
  {
    if c != [] {
      BalancedOfPlug(Fill(c[0], t), c[1..]);
      BalancedReplace(Fill(c[0], t), Fill(c[0], t'), c[1..]);
    }
  }
}
