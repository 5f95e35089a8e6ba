/** `insert` and `fixViolation` (main.cpp:83-166) as functions on trees: the
    descent to a null link, the attached red node, and the fix-up loop, one
    iteration per `Step`. */
module Insertion {
  import opened RbTree
  import opened Zipper
  import opened Rotations

  /** `s` with `v` placed just before the first element greater than `v`: where
      the descent of `insert` puts a key, equal keys going to the right. */
  function InsertSorted(s: seq<int>, v: int): seq<int>
  {
    if s == [] then [v]
    else if v < s[0] then [v] + s
    else [s[0]] + InsertSorted(s[1..], v)
  }

  /** The index of the first element greater than `v` (`|s|` if there is none). */
  function FirstGreater(s: seq<int>, v: int): (i: nat)
    ensures i <= |s|
    ensures forall j :: 0 <= j < i ==> s[j] <= v
    ensures i < |s| ==> v < s[i]
  {
    if s == [] || v < s[0] then 0 else 1 + FirstGreater(s[1..], v)
  }

  /** The result is `s` split before its first element greater than `v`, with `v`
      in between. */
  lemma {:induction false} InsertSortedSplices(s: seq<int>, v: int)
    ensures InsertSorted(s, v) == s[..FirstGreater(s, v)] + [v] + s[FirstGreater(s, v)..]
  {
    if s != [] && v >= s[0] {
      InsertSortedSplices(s[1..], v);
      var i' := FirstGreater(s[1..], v);
      assert s[..i' + 1] == [s[0]] + s[1..][..i'];
      assert s[i' + 1..] == s[1..][i'..];
    }
  }

  /** Inserting adds exactly one `v`. */
  lemma InsertSortedAdds(s: seq<int>, v: int)
    ensures multiset(InsertSorted(s, v)) == multiset(s) + multiset{v}
  {
    InsertSortedSplices(s, v);
    var i := FirstGreater(s, v);
    var a, b := s[..i], s[i..];
    assert s == a + b;
    assert multiset(s) == multiset(a) + multiset(b);
    assert multiset(a + [v] + b) == multiset(a) + multiset{v} + multiset(b);
  }

  /** Inserting into a sorted sequence keeps it sorted. */
  lemma InsertSortedSorted(s: seq<int>, v: int)
    requires Sorted(s)
    ensures Sorted(InsertSorted(s, v))
  {
    InsertSortedSplices(s, v);
    var i := FirstGreater(s, v);
    var r := InsertSorted(s, v);
    assert |r| == |s| + 1;
    assert forall j :: 0 <= j < i ==> r[j] == s[j];
    assert r[i] == v;
    assert forall j :: i < j < |r| ==> r[j] == s[j - 1];
    forall a, b | 0 <= a < b < |r| ensures r[a] <= r[b] {
      if b < i {
      } else if b == i {
      } else if a < i {
        assert s[a] <= s[b - 1];
      } else if a == i {
        assert s[i] <= s[b - 1];
      } else {
        assert s[a - 1] <= s[b - 1];
      }
    }
  }

  lemma {:induction false} InsertSortedBefore(a: seq<int>, b: seq<int>, v: int)
    requires exists j :: 0 <= j < |a| && v < a[j]
    ensures InsertSorted(a + b, v) == InsertSorted(a, v) + b
    decreases |a|
  {
    assert (a + b)[0] == a[0];
    if v >= a[0] {
      var j :| 0 <= j < |a| && v < a[j];
      assert v < a[1..][j - 1];
      assert (a + b)[1..] == a[1..] + b;
      InsertSortedBefore(a[1..], b, v);
    }
  }

  lemma {:induction false} InsertSortedAfter(a: seq<int>, b: seq<int>, v: int)
    requires forall j :: 0 <= j < |a| ==> a[j] <= v
    ensures InsertSorted(a + b, v) == a + InsertSorted(b, v)
    decreases |a|
  {
    if a != [] {
      assert (a + b)[0] == a[0];
      assert (a + b)[1..] == a[1..] + b;
      InsertSortedAfter(a[1..], b, v);
    } else {
      assert a + b == b;
    }
  }

  /** Plain search-tree insertion: hang `n` on the null link that the descent of
      `insert` (go left when `v` is less than the node's key, else right) reaches. */
  function Attach(t: Tree, v: int, n: Tree): (r: Tree)
    ensures Size(r) == Size(t) + Size(n) && Ids(r) == Ids(t) + Ids(n)
  {
    match t
    case Leaf => n
    case Node(c, l, i, k, r) =>
      if v < k then Node(c, Attach(l, v, n), i, k, r) else Node(c, l, i, k, Attach(r, v, n))
  }

  /** The descent loop of `insert` (main.cpp:143-153): the path of ancestors of the
      null link where `v` belongs, on top of the ancestors `c` already passed. */
  function Descend(t: Tree, v: int, c: Path): (r: Path)
    ensures |c| <= |r|
  {
    match t
    case Leaf => c
    case Node(_, l, _, k, r) =>
      if v < k then Descend(l, v, [Above(t, true)] + c) else Descend(r, v, [Above(t, false)] + c)
  }

  /** The node `new Node(value)` creates: red, no children. */
  function NewNode(v: int, id: int): (r: Tree)
    ensures r.Node? && r.color == Red && Entries(r) == [(id, v)] && Size(r) == 1
  {
    Node(Red, Leaf, id, v, Leaf)
  }

  /** Swaps the colours of a node and its right child. */
  function SwapWithRight(t: Tree): (r: Tree)
    requires t.Node? && t.right.Node?
    ensures r.Node? && r.right.Node? && r.color == t.right.color && r.right.color == t.color
    ensures Entries(r) == Entries(t) && r.left == t.left && r.right.left == t.right.left && r.right.right == t.right.right
  {
    t.(color := t.right.color, right := t.right.(color := t.color))
  }

  /** Swaps the colours of a node and its left child. */
  function SwapWithLeft(t: Tree): (r: Tree)
    requires t.Node? && t.left.Node?
    ensures r.Node? && r.left.Node? && r.color == t.left.color && r.left.color == t.color
    ensures Entries(r) == Entries(t) && r.right == t.right && r.left.left == t.left.left && r.left.right == t.left.right
  {
    t.(color := t.left.color, left := t.left.(color := t.color))
  }

  /** One iteration of the fix-up loop with `x` the root of `s`, `p` its parent and
      `g` its grandparent: the new subtree in place of the grandparent's. The new
      `x` is its root. */
  function Step(s: Tree, p: Frame, g: Frame): (r: Tree)
    requires s.Node?
    ensures r.Node?
    ensures IsRed(g.other) ==> r.id == g.id && r.color == Red
    ensures !IsRed(g.other) ==> r.color == g.color && r.id == if p.fromLeft == g.fromLeft then p.id else s.id
  {
    var G := Fill(g, Fill(p, s));
    var uncle := if g.fromLeft then G.right else G.left;
    if IsRed(uncle) then
      // case 1: recolour; the grandparent becomes the new x
      G.(color := Red, left := G.left.(color := Black), right := G.right.(color := Black))
    else if g.fromLeft then
      // case 2 turns the triangle into a line; case 3 rotates at the grandparent
      var P := if p.fromLeft then G.left else RotateLeft(G.left);
      SwapWithRight(RotateRight(G.(left := P)))
    else
      var P := if p.fromLeft then RotateRight(G.right) else G.right;
      SwapWithLeft(RotateLeft(G.(right := P)))
  }

  /** One iteration changes colours and links only: the keys in order and the
      set of nodes stay. */
  lemma StepKeeps(s: Tree, p: Frame, g: Frame)
    requires s.Node?
    ensures InOrder(Step(s, p, g)) == InOrder(Fill(g, Fill(p, s)))
    ensures Ids(Step(s, p, g)) == Ids(Fill(g, Fill(p, s)))
  {
    var G := Fill(g, Fill(p, s));
    var uncle := if g.fromLeft then G.right else G.left;
    if IsRed(uncle) {
    } else if g.fromLeft {
      var P := if p.fromLeft then G.left else RotateLeft(G.left);
      if !p.fromLeft {
        RotateLeftKeeps(G.left);
        RotateLeftIds(G.left);
      }
      RotateRightKeeps(G.(left := P));
      RotateRightIds(G.(left := P));
    } else {
      var P := if p.fromLeft then RotateRight(G.right) else G.right;
      if p.fromLeft {
        RotateRightKeeps(G.right);
        RotateRightIds(G.right);
      }
      RotateLeftKeeps(G.(right := P));
      RotateLeftIds(G.(right := P));
    }
  }

  /** One iteration moves no key from one node to another and keeps the nodes in
      order: the in-order (handle, key) sequence stays. */
  lemma StepEntries(s: Tree, p: Frame, g: Frame)
    requires s.Node?
    ensures Entries(Step(s, p, g)) == Entries(Fill(g, Fill(p, s)))
  {
    var G := Fill(g, Fill(p, s));
    var uncle := if g.fromLeft then G.right else G.left;
    if IsRed(uncle) {
    } else if g.fromLeft {
      var P := if p.fromLeft then G.left else RotateLeft(G.left);
      if !p.fromLeft {
        RotateLeftEntries(G.left);
      }
      RotateRightEntries(G.(left := P));
    } else {
      var P := if p.fromLeft then RotateRight(G.right) else G.right;
      if p.fromLeft {
        RotateRightEntries(G.right);
      }
      RotateLeftEntries(G.(right := P));
    }
  }

  /** The fix-up loop (main.cpp:84-133) from `x` at the root of `s` with ancestors
      `c`: it runs while `x` is not the root and both `x` and its parent are red.
      The result is the whole tree when the loop ends, before the root is painted
      black. The requirement that the root be black whenever `x` is not the root
      is what guarantees a grandparent when the parent is red. */
  function FixUp(s: Tree, c: Path): (r: Tree)
    requires s.Node? && RootBlack(c)
    ensures InOrder(r) == InOrder(Plug(s, c))
    ensures Ids(r) == Ids(Plug(s, c))
    decreases |c|
  {
    if c == [] || s.color == Black || c[0].color == Black then
      Plug(s, c)
    else
      assert |c| >= 2;
      var s' := Step(s, c[0], c[1]);
      assert Plug(s, c) == Plug(Fill(c[1], Fill(c[0], s)), c[2..]);
      StepKeeps(s, c[0], c[1]);
      InOrderOfPlug(Fill(c[1], Fill(c[0], s)), s', c[2..]);
      IdsOfPlug(Fill(c[1], Fill(c[0], s)), c[2..]);
      IdsOfPlug(s', c[2..]);
      FixUp(s', c[2..])
  }

  /** The whole loop changes colours and links only: every node keeps its key
      and the in-order sequence of nodes is the same. */
  lemma {:induction false} FixUpEntries(s: Tree, c: Path)
    requires s.Node? && RootBlack(c)
    ensures Entries(FixUp(s, c)) == Entries(Plug(s, c))
    decreases |c|
  {
    if c == [] || s.color == Black || c[0].color == Black {
    } else {
      assert |c| >= 2;
      var s' := Step(s, c[0], c[1]);
      assert Plug(s, c) == Plug(Fill(c[1], Fill(c[0], s)), c[2..]);
      StepEntries(s, c[0], c[1]);
      EntriesOfPlug(Fill(c[1], Fill(c[0], s)), s', c[2..]);
      FixUpEntries(s', c[2..]);
    }
  }

  /** `insert(value)` with `id` the handle of the freshly allocated node: attach a
      red node where the descent ends, run the fix-up, paint the root black. */
  function Insert(t: Tree, v: int, id: int): (r: Tree)
    requires !IsRed(t)
    ensures !IsRed(r)
  {
    DescendRootBlack(t, v);
    Blacken(FixUp(NewNode(v, id), Descend(t, v, [])))
  }

  lemma {:induction false} DescendPlug(t: Tree, v: int, c: Path, n: Tree)
    ensures Plug(n, Descend(t, v, c)) == Plug(Attach(t, v, n), c)
  {
    match t
    case Leaf =>
    case Node(_, l, _, k, r) =>
      if v < k {
        DescendPlug(l, v, [Above(t, true)] + c, n);
      } else {
        DescendPlug(r, v, [Above(t, false)] + c, n);
      }
  }

  lemma {:induction false} DescendKeepsOuter(t: Tree, v: int, c: Path)
    requires c != []
    ensures Descend(t, v, c) != [] && Descend(t, v, c)[|Descend(t, v, c)| - 1] == c[|c| - 1]
  {
    match t
    case Leaf =>
    case Node(_, l, _, k, r) =>
      if v < k {
        DescendKeepsOuter(l, v, [Above(t, true)] + c);
      } else {
        DescendKeepsOuter(r, v, [Above(t, false)] + c);
      }
  }

  lemma DescendRootBlack(t: Tree, v: int)
    requires !IsRed(t)
    ensures RootBlack(Descend(t, v, []))
  {
    if t.Node? {
      if v < t.key {
        DescendKeepsOuter(t.left, v, [Above(t, true)] + []);
      } else {
        DescendKeepsOuter(t.right, v, [Above(t, false)] + []);
      }
    }
  }

  lemma {:induction false} AttachLeaf(t: Tree, v: int)
    ensures Attach(t, v, Leaf) == t
  {
    match t
    case Leaf =>
    case Node(_, l, _, k, r) =>
      AttachLeaf(l, v);
      AttachLeaf(r, v);
  }

  /** Attaching a node with key `v` adds exactly `v` to the keys. */
  lemma {:induction false} AttachKeys(t: Tree, v: int, n: Tree)
    ensures multiset(InOrder(Attach(t, v, n))) == multiset(InOrder(t)) + multiset(InOrder(n))
  {
    match t
    case Leaf =>
    case Node(_, l, _, k, r) =>
      if v < k {
        AttachKeys(l, v, n);
        assert InOrder(Attach(t, v, n)) == InOrder(Attach(l, v, n)) + [k] + InOrder(r);
        GrowLeft(InOrder(l), InOrder(Attach(l, v, n)), k, InOrder(r), multiset(InOrder(n)));
      } else {
        AttachKeys(r, v, n);
        assert InOrder(Attach(t, v, n)) == InOrder(l) + [k] + InOrder(Attach(r, v, n));
        GrowRight(InOrder(l), k, InOrder(r), InOrder(Attach(r, v, n)), multiset(InOrder(n)));
      }
  }

  lemma GrowLeft(a: seq<int>, a': seq<int>, k: int, b: seq<int>, n: multiset<int>)
    requires multiset(a') == multiset(a) + n
    ensures multiset(a' + [k] + b) == multiset(a + [k] + b) + n
  {
    MultisetJoin(a, k, b);
    MultisetJoin(a', k, b);
  }

  lemma GrowRight(a: seq<int>, k: int, b: seq<int>, b': seq<int>, n: multiset<int>)
    requires multiset(b') == multiset(b) + n
    ensures multiset(a + [k] + b') == multiset(a + [k] + b) + n
  {
    MultisetJoin(a, k, b);
    MultisetJoin(a, k, b');
  }

  lemma MultisetJoin(a: seq<int>, k: int, b: seq<int>)
    ensures multiset(a + [k] + b) == multiset(a) + multiset{k} + multiset(b)
  {
  }

  /** In an ordered tree the descent puts `v` after every key not greater than `v`
      and before every greater key. */
  lemma {:induction false} AttachInOrder(t: Tree, v: int, n: Tree)
    requires Ordered(t) && InOrder(n) == [v]
    ensures InOrder(Attach(t, v, n)) == InsertSorted(InOrder(t), v)
  {
    match t
    case Leaf =>
    case Node(_, l, _, k, r) =>
      if v < k {
        AttachInOrder(l, v, n);
        GoLeftInOrder(InOrder(l), k, InOrder(r), v);
      } else {
        AttachInOrder(r, v, n);
        GoRightInOrder(InOrder(l), k, InOrder(r), v);
      }
  }

  /** `v` goes after the entries `a` and before the entries `b`: every key in `a`
      is at most `v`, every key in `b` greater. */
  predicate Around(a: seq<(int, int)>, v: int, b: seq<(int, int)>)
  {
    (forall e :: e in a ==> e.1 <= v) && (forall e :: e in b ==> v < e.1)
  }

  /** The entries `after` are the entries `before`, split into `a` and `b` around
      `v`, with the entries `n` spliced in between. */
  predicate SplicedAround(before: seq<(int, int)>, after: seq<(int, int)>, n: seq<(int, int)>, v: int,
                          a: seq<(int, int)>, b: seq<(int, int)>)
  {
    before == a + b && after == a + n + b && Around(a, v, b)
  }

  /** The entries the descent for `v` leaves on its left: those of every left
      subtree and node it passes on the way right. */
  function Before(t: Tree, v: int): seq<(int, int)>
  {
    match t
    case Leaf => []
    case Node(_, l, i, k, r) => if v < k then Before(l, v) else Entries(l) + [(i, k)] + Before(r, v)
  }

  /** The entries the descent for `v` leaves on its right. */
  function After(t: Tree, v: int): seq<(int, int)>
  {
    match t
    case Leaf => []
    case Node(_, l, i, k, r) => if v < k then After(l, v) + [(i, k)] + Entries(r) else After(r, v)
  }

  /** In an ordered tree the descent hangs `n` between the nodes whose keys are
      at most `v` and those whose keys are greater, so an equal key goes after
      every node holding it; no other node moves or changes its key. */
  lemma {:induction false} AttachEntries(t: Tree, v: int, n: Tree)
    requires Ordered(t)
    ensures SplicedAround(Entries(t), Entries(Attach(t, v, n)), Entries(n), v, Before(t, v), After(t, v))
  {
    match t
    case Leaf =>
      assert Entries(t) == [] + [] && Entries(Attach(t, v, n)) == [] + Entries(n) + [];
    case Node(_, l, _, k, r) =>
      if v < k {
        AttachEntries(l, v, n);
        GoLeftEntries(t, v, n, Before(l, v), After(l, v));
      } else {
        AttachEntries(r, v, n);
        GoRightEntries(t, v, n, Before(r, v), After(r, v));
      }
  }

  /** The step of `AttachEntries` where the descent goes left of the root. */
  lemma GoLeftEntries(t: Tree, v: int, n: Tree, a: seq<(int, int)>, b0: seq<(int, int)>)
    requires t.Node? && Ordered(t) && v < t.key
    requires SplicedAround(Entries(t.left), Entries(Attach(t.left, v, n)), Entries(n), v, a, b0)
    ensures SplicedAround(Entries(t), Entries(Attach(t, v, n)), Entries(n), v, a, b0 + [(t.id, t.key)] + Entries(t.right))
  {
    forall e | e in Entries(t.right) ensures v < e.1 {
      EntryKey(t.right, e);
    }
    ShiftRight(a, b0, Entries(n), (t.id, t.key), Entries(t.right), v);
  }

  /** The step of `AttachEntries` where the descent goes right of the root. */
  lemma GoRightEntries(t: Tree, v: int, n: Tree, a0: seq<(int, int)>, b: seq<(int, int)>)
    requires t.Node? && Ordered(t) && t.key <= v
    requires SplicedAround(Entries(t.right), Entries(Attach(t.right, v, n)), Entries(n), v, a0, b)
    ensures SplicedAround(Entries(t), Entries(Attach(t, v, n)), Entries(n), v, Entries(t.left) + [(t.id, t.key)] + a0, b)
  {
    forall e | e in Entries(t.left) ensures e.1 <= v {
      EntryKey(t.left, e);
    }
    ShiftLeft(Entries(t.left), (t.id, t.key), a0, Entries(n), b, v);
  }

  /** Going left of the node `x`: `x` and the right subtree `R` join the greater side. */
  lemma ShiftRight(a: seq<(int, int)>, b0: seq<(int, int)>, N: seq<(int, int)>, x: (int, int), R: seq<(int, int)>, v: int)
    requires Around(a, v, b0) && v < x.1 && forall e :: e in R ==> v < e.1
    ensures (a + b0) + [x] + R == a + (b0 + [x] + R)
    ensures (a + N + b0) + [x] + R == a + N + (b0 + [x] + R)
    ensures Around(a, v, b0 + [x] + R)
  {
    Assoc(a, b0 + [x], R);
    Assoc(a, b0, [x]);
    Assoc(a + N, b0 + [x], R);
    Assoc(a + N, b0, [x]);
  }

  /** Going right of the node `x`: the left subtree `L` and `x` join the side at most `v`. */
  lemma ShiftLeft(L: seq<(int, int)>, x: (int, int), a0: seq<(int, int)>, N: seq<(int, int)>, b: seq<(int, int)>, v: int)
    requires Around(a0, v, b) && x.1 <= v && forall e :: e in L ==> e.1 <= v
    ensures L + [x] + (a0 + b) == (L + [x] + a0) + b
    ensures L + [x] + (a0 + N + b) == (L + [x] + a0) + N + b
    ensures Around(L + [x] + a0, v, b)
  {
    Assoc(L + [x], a0, b);
    Assoc(L + [x], a0 + N, b);
    Assoc(L + [x], a0, N);
  }

  /** Descending left of `k` inserts before `k`. */
  lemma GoLeftInOrder(L: seq<int>, k: int, R: seq<int>, v: int)
    requires v < k
    ensures InsertSorted(L + [k] + R, v) == InsertSorted(L, v) + [k] + R
  {
    assert L + [k] + R == L + ([k] + R);
    if exists j :: 0 <= j < |L| && v < L[j] {
      InsertSortedBefore(L, [k] + R, v);
    } else {
      InsertSortedAfter(L, [k] + R, v);
      InsertSortedAfter(L, [], v);
      assert L + [] == L;
      assert InsertSorted([k] + R, v) == [v] + ([k] + R);
    }
  }

  /** Descending right of `k` inserts after `k` and everything left of it. */
  lemma GoRightInOrder(L: seq<int>, k: int, R: seq<int>, v: int)
    requires k <= v && forall y :: y in L ==> y <= k
    ensures InsertSorted(L + [k] + R, v) == L + [k] + InsertSorted(R, v)
  {
    forall j | 0 <= j < |L + [k]| ensures (L + [k])[j] <= v {
      if j < |L| { assert L[j] in L; }
    }
    InsertSortedAfter(L + [k], R, v);
  }

  /** The local case analysis of one fix-up iteration: with `x` and its parent red
      and the rest of the red rule holding, the new subtree obeys the red rule and
      is balanced with the old subtree's black height. */
  lemma StepKeepsColours(s: Tree, p: Frame, g: Frame)
    requires s.Node? && s.color == Red && p.color == Red
    requires RedOk(s) && RedOk(Fill(g, Fill(p, Blacken(s))))
    requires Balanced(Fill(g, Fill(p, s)))
    ensures RedOk(Step(s, p, g)) && Balanced(Step(s, p, g))
    ensures BlackHeight(Step(s, p, g)) == BlackHeight(Fill(g, Fill(p, s)))
  {
    var G := Fill(g, Fill(p, s));
    var uncle := if g.fromLeft then G.right else G.left;
    if IsRed(uncle) {
      RecolourCase(s, p, g);
    } else if g.fromLeft {
      if p.fromLeft {
        LineLeftCase(s, p, g);
      } else {
        TriangleLeftCase(s, p, g);
      }
    } else {
      if p.fromLeft {
        TriangleRightCase(s, p, g);
      } else {
        LineRightCase(s, p, g);
      }
    }
  }

  lemma RecolourCase(s: Tree, p: Frame, g: Frame)
    requires s.Node? && s.color == Red && p.color == Red
    requires RedOk(s) && RedOk(Fill(g, Fill(p, Blacken(s))))
    requires Balanced(Fill(g, Fill(p, s)))
    requires IsRed(if g.fromLeft then Fill(g, Fill(p, s)).right else Fill(g, Fill(p, s)).left)
    ensures RedOk(Step(s, p, g)) && Balanced(Step(s, p, g))
    ensures BlackHeight(Step(s, p, g)) == BlackHeight(Fill(g, Fill(p, s)))
  {
    var P := Fill(p, s);
    var u := g.other;
    assert RedOk(Fill(p, Blacken(s)));
    assert RedOk(p.other) && !IsRed(p.other);
    assert RedOk(u);
    assert BlackHeight(P) == BlackHeight(u);
    assert BlackHeight(P.(color := Black)) == BlackHeight(P) + 1;
    assert BlackHeight(u.(color := Black)) == BlackHeight(u) + 1;
  }

  lemma LineLeftCase(s: Tree, p: Frame, g: Frame)
    requires s.Node? && s.color == Red && p.color == Red
    requires RedOk(s) && RedOk(Fill(g, Fill(p, Blacken(s))))
    requires Balanced(Fill(g, Fill(p, s)))
    requires g.fromLeft && p.fromLeft && !IsRed(g.other)
    ensures RedOk(Step(s, p, g)) && Balanced(Step(s, p, g))
    ensures BlackHeight(Step(s, p, g)) == BlackHeight(Fill(g, Fill(p, s)))
  {
    var P := Fill(p, s);
    var G := Fill(g, P);
    assert RedOk(Fill(p, Blacken(s)));
    assert g.color == Black;
    assert Step(s, p, g) == Node(Black, s, p.id, p.key, Node(Red, p.other, g.id, g.key, g.other));
    assert BlackHeight(P) == BlackHeight(s) == BlackHeight(p.other) == BlackHeight(g.other);
  }

  lemma TriangleLeftCase(s: Tree, p: Frame, g: Frame)
    requires s.Node? && s.color == Red && p.color == Red
    requires RedOk(s) && RedOk(Fill(g, Fill(p, Blacken(s))))
    requires Balanced(Fill(g, Fill(p, s)))
    requires g.fromLeft && !p.fromLeft && !IsRed(g.other)
    ensures RedOk(Step(s, p, g)) && Balanced(Step(s, p, g))
    ensures BlackHeight(Step(s, p, g)) == BlackHeight(Fill(g, Fill(p, s)))
  {
    var P := Fill(p, s);
    assert RedOk(Fill(p, Blacken(s)));
    assert g.color == Black;
    assert Step(s, p, g) ==
      Node(Black, Node(Red, p.other, p.id, p.key, s.left), s.id, s.key, Node(Red, s.right, g.id, g.key, g.other));
    assert BlackHeight(g.other) == BlackHeight(P) == BlackHeight(s) == BlackHeight(p.other);
    assert Balanced(P) && Balanced(s);
    assert BlackHeight(s.left) == BlackHeight(s.right) == BlackHeight(s);
  }

  lemma LineRightCase(s: Tree, p: Frame, g: Frame)
    requires s.Node? && s.color == Red && p.color == Red
    requires RedOk(s) && RedOk(Fill(g, Fill(p, Blacken(s))))
    requires Balanced(Fill(g, Fill(p, s)))
    requires !g.fromLeft && !p.fromLeft && !IsRed(g.other)
    ensures RedOk(Step(s, p, g)) && Balanced(Step(s, p, g))
    ensures BlackHeight(Step(s, p, g)) == BlackHeight(Fill(g, Fill(p, s)))
  {
    var P := Fill(p, s);
    assert RedOk(Fill(p, Blacken(s)));
    assert g.color == Black;
    assert Step(s, p, g) == Node(Black, Node(Red, g.other, g.id, g.key, p.other), p.id, p.key, s);
    assert BlackHeight(g.other) == BlackHeight(P) == BlackHeight(s) == BlackHeight(p.other);
  }

  lemma TriangleRightCase(s: Tree, p: Frame, g: Frame)
    requires s.Node? && s.color == Red && p.color == Red
    requires RedOk(s) && RedOk(Fill(g, Fill(p, Blacken(s))))
    requires Balanced(Fill(g, Fill(p, s)))
    requires !g.fromLeft && p.fromLeft && !IsRed(g.other)
    ensures RedOk(Step(s, p, g)) && Balanced(Step(s, p, g))
    ensures BlackHeight(Step(s, p, g)) == BlackHeight(Fill(g, Fill(p, s)))
  {
    var P := Fill(p, s);
    assert RedOk(Fill(p, Blacken(s)));
    assert g.color == Black;
    assert Step(s, p, g) ==
      Node(Black, Node(Red, g.other, g.id, g.key, s.left), s.id, s.key, Node(Red, s.right, p.id, p.key, p.other));
    assert BlackHeight(g.other) == BlackHeight(P) == BlackHeight(s) == BlackHeight(p.other);
    assert Balanced(P) && Balanced(s);
    assert BlackHeight(s.left) == BlackHeight(s.right) == BlackHeight(s);
  }

  /** The loop invariant of the fix-up: `x`'s subtree obeys the red rule, the whole
      tree obeys it once `x` is painted black, and the whole tree is balanced.
      Then the loop ends with the red rule holding everywhere and the tree
      still balanced. */
  lemma {:induction false} FixUpKeepsColours(s: Tree, c: Path)
    requires s.Node? && RootBlack(c)
    requires RedOk(s) && RedOk(Plug(Blacken(s), c)) && Balanced(Plug(s, c))
    ensures RedOk(FixUp(s, c)) && Balanced(FixUp(s, c))
    decreases |c|
  {
    if c == [] || s.color == Black {
    } else if c[0].color == Black {
      RedOkReplace(Blacken(s), s, c);
    } else {
      var G := Fill(c[1], Fill(c[0], s));
      var Gb := Fill(c[1], Fill(c[0], Blacken(s)));
      var rest := c[2..];
      assert Plug(s, c) == Plug(G, rest);
      assert Plug(Blacken(s), c) == Plug(Gb, rest);
      RedOkOfPlug(Gb, rest);
      BalancedOfPlug(G, rest);
      var s' := Step(s, c[0], c[1]);
      StepKeepsColours(s, c[0], c[1]);
      BalancedReplace(G, s', rest);
      BlackenKeeps(s');
      RedOkReplace(Gb, Blacken(s'), rest);
      FixUpKeepsColours(s', rest);
    }
  }

  /** Under the loop invariant, a black uncle means a black grandparent: the
      rotation cases leave a black node as the new `x`, and the loop ends right
      after that iteration. */
  lemma RotationEndsLoop(s: Tree, c: Path)
    requires s.Node? && RootBlack(c) && c != [] && s.color == Red && c[0].color == Red
    requires RedOk(Plug(Blacken(s), c)) && (|c| >= 2 ==> !IsRed(c[1].other))
    ensures |c| >= 2 && Step(s, c[0], c[1]).color == Black
    ensures FixUp(s, c) == Plug(Step(s, c[0], c[1]), c[2..])
  {
    assert |c| >= 2;
    var p, g, rest := c[0], c[1], c[2..];
    assert c == [p, g] + rest;
    assert ([p, g] + rest)[1..] == [g] + rest;
    assert ([g] + rest)[1..] == rest;
    assert Plug(Blacken(s), c) == Plug(Fill(g, Fill(p, Blacken(s))), rest);
    RedOkOfPlug(Fill(g, Fill(p, Blacken(s))), rest);
  }

  /** `insert` adds exactly the inserted key. */
  lemma InsertKeys(t: Tree, v: int, id: int)
    requires !IsRed(t)
    ensures multiset(InOrder(Insert(t, v, id))) == multiset(InOrder(t)) + multiset{v}
  {
    DescendRootBlack(t, v);
    var n := NewNode(v, id);
    var D := Descend(t, v, []);
    var r := FixUp(n, D);
    assert InOrder(Insert(t, v, id)) == InOrder(r) == InOrder(Plug(n, D));
    DescendPlug(t, v, [], n);
    assert Plug(n, D) == Attach(t, v, n);
    AttachKeys(t, v, n);
    MultisetJoin([], v, []);
  }

  /** `insert(v)` on an ordered tree adds one node, holding `v` under the new
      handle, after every node whose key is at most `v` (equal keys included) and
      before every node with a greater key; every other node keeps its key and
      the others' order is kept. */
  lemma InsertEntries(t: Tree, v: int, id: int)
    requires !IsRed(t) && Ordered(t)
    ensures exists a, b :: SplicedAround(Entries(t), Entries(Insert(t, v, id)), [(id, v)], v, a, b)
  {
    var n, D := NewNode(v, id), Descend(t, v, []);
    DescendRootBlack(t, v);
    FixUpEntries(n, D);
    DescendPlug(t, v, [], n);
    assert Plug(n, D) == Attach(t, v, n);
    assert Entries(n) == [(id, v)];
    AttachEntries(t, v, n);
    assert SplicedAround(Entries(t), Entries(Insert(t, v, id)), [(id, v)], v, Before(t, v), After(t, v));
  }

  /** `insert` on an ordered tree puts the key after all equal and smaller keys and
      before all greater ones, so the in-order sequence stays sorted. */
  lemma InsertInOrder(t: Tree, v: int, id: int)
    requires !IsRed(t) && Ordered(t)
    ensures InOrder(Insert(t, v, id)) == InsertSorted(InOrder(t), v)
    ensures Ordered(Insert(t, v, id))
  {
    DescendRootBlack(t, v);
    DescendPlug(t, v, [], NewNode(v, id));
    AttachInOrder(t, v, NewNode(v, id));
    OrderedIffSorted(t);
    InsertSortedSorted(InOrder(t), v);
    OrderedIffSorted(Insert(t, v, id));
  }

  /** `insert` allocates exactly one node: the handles grow by the new one. */
  lemma InsertIds(t: Tree, v: int, id: int)
    requires !IsRed(t)
    ensures Ids(Insert(t, v, id)) == Ids(t) + {id}
  {
    DescendRootBlack(t, v);
    var D := Descend(t, v, []);
    DescendPlug(t, v, [], NewNode(v, id));
    DescendPlug(t, v, [], Leaf);
    AttachLeaf(t, v);
    IdsOfPlug(NewNode(v, id), D);
    IdsOfPlug(Leaf, D);
  }

  /** The red-black invariants survive `insert`: search order, no red node with a red
      child, uniform black height and a black root. */
  lemma InsertRedBlack(t: Tree, v: int, id: int)
    requires IsRedBlack(t)
    ensures IsRedBlack(Insert(t, v, id))
    ensures Insert(t, v, id).Node? && Insert(t, v, id).color == Black
  {
    DescendRootBlack(t, v);
    var D := Descend(t, v, []);
    var n := NewNode(v, id);
    DescendPlug(t, v, [], Leaf);
    AttachLeaf(t, v);
    assert Plug(Leaf, D) == t;
    RedOkReplace(Leaf, Blacken(n), D);
    BalancedReplace(Leaf, n, D);
    FixUpKeepsColours(n, D);
    BlackenKeeps(FixUp(n, D));
    InsertInOrder(t, v, id);
    InsertIds(t, v, id);
  }
}
