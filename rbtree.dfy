/** Red-black trees as values: the shape that the linked `Node` records of the
    `RedBlackTree` class describe, and the invariants that class maintains. */
module RbTree {

  /** The colour of a node; a null child pointer counts as black. */
  datatype Color = Red | Black

  /** The null pointer, as a node handle. */
  const Nil: int := -1

  /** The subtree that hangs from a node pointer. `Leaf` is the null pointer;
      a `Node` carries the node's colour, its handle `id`, its key and its two
      subtrees. The parent pointer is implied by the nesting. */
  datatype Tree = Leaf | Node(color: Color, left: Tree, id: int, key: int, right: Tree)

  /** The handle the pointer to this subtree holds (Nil for the null pointer). */
  function Top(t: Tree): int
  {
    if t.Leaf? then Nil else t.id
  }

  predicate IsRed(t: Tree)
  {
    t.Node? && t.color == Red
  }

  /** The tree with its root coloured black (the last statement of the fix-up). */
  function Blacken(t: Tree): (r: Tree)
    ensures !IsRed(r)
    ensures InOrder(r) == InOrder(t) && Ids(r) == Ids(t) && Top(r) == Top(t)
    ensures Entries(r) == Entries(t)
  {
    if t.Leaf? then t else t.(color := Black)
  }

  function Size(t: Tree): nat
  {
    match t
    case Leaf => 0
    case Node(_, l, _, _, r) => Size(l) + 1 + Size(r)
  }

  /** The keys read left to right. */
  function InOrder(t: Tree): (s: seq<int>)
  {
    match t
    case Leaf => []
    case Node(_, l, _, k, r) => InOrder(l) + [k] + InOrder(r)
  }

  /** The nodes read left to right, each as its handle and the key it holds. */
  function Entries(t: Tree): seq<(int, int)>
  {
    match t
    case Leaf => []
    case Node(_, l, i, k, r) => Entries(l) + [(i, k)] + Entries(r)
  }

  /** Every entry's key is one of the tree's keys. */
  lemma {:induction false} EntryKey(t: Tree, e: (int, int))
    requires e in Entries(t)
    ensures e.1 in InOrder(t)
  {
    match t
    case Leaf =>
    case Node(_, l, _, _, r) =>
      if e in Entries(l) {
        EntryKey(l, e);
      } else if e in Entries(r) {
        EntryKey(r, e);
      }
  }

  /** The handles of all nodes of the tree. */
  function Ids(t: Tree): set<int>
  {
    match t
    case Leaf => {}
    case Node(_, l, i, _, r) => Ids(l) + {i} + Ids(r)
  }

  /** No handle occurs twice: every node is a separate allocation. */
  predicate Distinct(t: Tree)
  {
    match t
    case Leaf => true
    case Node(_, l, i, _, r) =>
      Distinct(l) && Distinct(r) && i !in Ids(l) && i !in Ids(r) && Ids(l) !! Ids(r)
  }

  predicate Sorted(s: seq<int>)
  {
    forall i, j :: 0 <= i < j < |s| ==> s[i] <= s[j]
  }

  /** Search-tree order as the insertion keeps it: every key of a left subtree is
      at most the node's key, every key of a right subtree at least that key.
      (Equal keys can end up on either side once rotations have moved them.) */
  predicate Ordered(t: Tree)
  {
    match t
    case Leaf => true
    case Node(_, l, _, k, r) =>
      Ordered(l) && Ordered(r) &&
      (forall y :: y in InOrder(l) ==> y <= k) &&
      (forall y :: y in InOrder(r) ==> k <= y)
  }

  /** No red node has a red child (equivalently: no red node has a red parent). */
  predicate RedOk(t: Tree)
  {
    match t
    case Leaf => true
    case Node(c, l, _, _, r) =>
      RedOk(l) && RedOk(r) && (c == Red ==> !IsRed(l) && !IsRed(r))
  }

  /** Number of black nodes on the leftmost path from the root to a null pointer. */
  function BlackHeight(t: Tree): nat
  {
    match t
    case Leaf => 0
    case Node(c, l, _, _, _) => BlackHeight(l) + (if c == Black then 1 else 0)
  }

  /** At every node both subtrees have the same black height. */
  predicate Balanced(t: Tree)
  {
    match t
    case Leaf => true
    case Node(_, l, _, _, r) => Balanced(l) && Balanced(r) && BlackHeight(l) == BlackHeight(r)
  }

  /** The invariants the tree keeps between public operations. */
  predicate IsRedBlack(t: Tree)
  {
    Ordered(t) && RedOk(t) && Balanced(t) && !IsRed(t)
  }

  /** The black counts of all paths from the root down to a null pointer. */
  function BlackCounts(t: Tree): (s: set<nat>)
  {
    match t
    case Leaf => {0}
    case Node(c, l, _, _, r) =>
      set n | n in BlackCounts(l) + BlackCounts(r) :: n + (if c == Black then 1 else 0)
  }

  lemma {:induction false} BlackHeightIsACount(t: Tree)
    ensures BlackHeight(t) in BlackCounts(t)
  {
    match t
    case Leaf =>
    case Node(c, l, _, _, r) =>
      BlackHeightIsACount(l);
  }

  /** Uniform black height: the tree is balanced exactly when every path from the
      root to a null pointer passes the same number of black nodes. */
  lemma {:induction false} BalancedIffUniformPaths(t: Tree)
    ensures Balanced(t) <==> BlackCounts(t) == {BlackHeight(t)}
  {
    match t
    case Leaf =>
    case Node(c, l, _, _, r) =>
      BalancedIffUniformPaths(l);
      BalancedIffUniformPaths(r);
      BlackHeightIsACount(l);
      BlackHeightIsACount(r);
      var b := if c == Black then 1 else 0;
      if Balanced(t) {
        assert BlackCounts(l) + BlackCounts(r) == {BlackHeight(l)};
        assert BlackCounts(t) == {BlackHeight(t)};
      }
      if BlackCounts(t) == {BlackHeight(t)} {
        forall n | n in BlackCounts(l) + BlackCounts(r) ensures n == BlackHeight(l) {
          assert n + b in BlackCounts(t);
        }
        assert BlackCounts(l) == {BlackHeight(l)};
        assert BlackCounts(r) == {BlackHeight(r)};
      }
  }

  /** Moves the brackets of `a + [x] + (b + [y] + c)` to the left. */
  lemma Regroup<T>(a: seq<T>, x: T, b: seq<T>, y: T, c: seq<T>)
    ensures a + [x] + (b + [y] + c) == (a + [x] + b) + [y] + c
  {
    var p, q := a + [x], b + [y];
    assert q + c == b + [y] + c;
    Assoc(p, q, c);
    Assoc(p, b, [y]);
  }

  lemma Assoc<T>(p: seq<T>, q: seq<T>, r: seq<T>)
    ensures p + (q + r) == (p + q) + r
  {
  }

  lemma SortedSplit(a: seq<int>, k: int, b: seq<int>)
    requires Sorted(a + [k] + b)
    ensures Sorted(a) && Sorted(b) && (forall y :: y in a ==> y <= k) && (forall y :: y in b ==> k <= y)
  {
    var s := a + [k] + b;
    assert forall i :: 0 <= i < |a| ==> s[i] == a[i];
    assert forall i :: 0 <= i < |b| ==> s[|a| + 1 + i] == b[i];
    assert s[|a|] == k;
    forall i, j | 0 <= i < j < |b| ensures b[i] <= b[j] {
      assert s[|a| + 1 + i] <= s[|a| + 1 + j];
    }
    forall y | y in a ensures y <= k {
      var i :| 0 <= i < |a| && a[i] == y;
      assert s[i] <= s[|a|];
    }
    forall y | y in b ensures k <= y {
      var i :| 0 <= i < |b| && b[i] == y;
      assert s[|a|] <= s[|a| + 1 + i];
    }
  }

  lemma SortedJoin(a: seq<int>, k: int, b: seq<int>)
    requires Sorted(a) && Sorted(b) && (forall y :: y in a ==> y <= k) && (forall y :: y in b ==> k <= y)
    ensures Sorted(a + [k] + b)
  {
    var s := a + [k] + b;
    forall i, j | 0 <= i < j < |s| ensures s[i] <= s[j] {
      if j < |a| {
        assert s[i] == a[i] && s[j] == a[j];
      } else if i < |a| {
        assert s[i] == a[i] && a[i] in a;
        if j > |a| { assert s[j] == b[j - |a| - 1] && b[j - |a| - 1] in b; }
      } else if i == |a| {
        assert s[j] == b[j - |a| - 1] && b[j - |a| - 1] in b;
      } else {
        assert s[i] == b[i - |a| - 1] && s[j] == b[j - |a| - 1];
      }
    }
  }

  lemma SortedConcat(a: seq<int>, k: int, b: seq<int>)
    ensures Sorted(a + [k] + b) <==>
            Sorted(a) && Sorted(b) && (forall y :: y in a ==> y <= k) && (forall y :: y in b ==> k <= y)
  {
    if Sorted(a + [k] + b) { SortedSplit(a, k, b); }
    if Sorted(a) && Sorted(b) && (forall y :: y in a ==> y <= k) && (forall y :: y in b ==> k <= y) {
      SortedJoin(a, k, b);
    }
  }

  /** The structural order and the sortedness of the in-order key sequence are the
      same property. */
  lemma {:induction false} OrderedIffSorted(t: Tree)
    ensures Ordered(t) <==> Sorted(InOrder(t))
  {
    match t
    case Leaf =>
    case Node(_, l, _, k, r) =>
      OrderedIffSorted(l);
      OrderedIffSorted(r);
      SortedConcat(InOrder(l), k, InOrder(r));
  }

  lemma {:induction false} IdsOfSize(t: Tree)
    requires Distinct(t)
    ensures |Ids(t)| == Size(t)
  {
    match t
    case Leaf =>
    case Node(_, l, i, _, r) =>
      IdsOfSize(l);
      IdsOfSize(r);
      DisjointCard(Ids(l), Ids(r), i);
      assert Ids(t) == Ids(l) + {i} + Ids(r);
  }

  lemma DisjointCard(a: set<int>, b: set<int>, i: int)
    requires a !! b && i !in a && i !in b
    ensures |a + {i} + b| == |a| + 1 + |b|
  {
    assert a + {i} + b == (a + b) + {i};
    assert a * b == {};
  }

  /** Colouring the root black keeps the colour invariants. */
  lemma BlackenKeeps(t: Tree)
    requires RedOk(t) && Balanced(t)
    ensures RedOk(Blacken(t)) && Balanced(Blacken(t))
  {
  }
}
