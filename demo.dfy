/** The demonstration in `main` (main.cpp:210-230) and two small runs of the
    insertion on concrete keys. */
module Demo {
  import opened RbTree
  import opened Insertion

  /** The order the keys would have if they were unique: every key of a left
      subtree below the node's key, every key of a right subtree above it. */
  predicate StrictlyOrdered(t: Tree)
  {
    match t
    case Leaf => true
    case Node(_, l, _, k, r) =>
      StrictlyOrdered(l) && StrictlyOrdered(r) &&
      (forall y :: y in InOrder(l) ==> y < k) &&
      (forall y :: y in InOrder(r) ==> k < y)
  }

  /** Three ascending keys: the last insertion rotates at the root, which ends
      up black with two red children. */
  lemma AscendingRotates()
    ensures Insert(Insert(Insert(Leaf, 10, 0), 20, 1), 30, 2) ==
      Node(Black, Node(Red, Leaf, 0, 10, Leaf), 1, 20, Node(Red, Leaf, 2, 30, Leaf))
  {
  }

  /** A key inserted again goes right of its equal, and the rotation that follows
      moves an equal key into the left subtree: the tree stays `Ordered` but is
      not strictly ordered. */
  lemma DuplicatesReachTheLeft()
    ensures var t := Insert(Insert(Insert(Leaf, 3, 0), 3, 1), 3, 2);
      t == Node(Black, Node(Red, Leaf, 0, 3, Leaf), 1, 3, Node(Red, Leaf, 2, 3, Leaf)) &&
      Ordered(t) && !StrictlyOrdered(t) && t.left.key == t.key
  {
    var t := Node(Black, Node(Red, Leaf, 0, 3, Leaf), 1, 3, Node(Red, Leaf, 2, 3, Leaf));
    assert 3 in InOrder(t.left);
  }

  /** The keys `main` inserts, in order. */
  const DemoKeys: seq<int> := [4, 2, 1, 3, 6, 5, 7, 9, 8, 0, -1, 10]

  /** A fresh tree after inserting `keys` one after the other, the node of
      `keys[i]` taking the handle `i` (the arena slot `new` fills). */
  function Build(keys: seq<int>): (t: Tree)
    ensures !IsRed(t)
    decreases |keys|
  {
    if keys == [] then Leaf
    else Insert(Build(keys[..|keys| - 1]), keys[|keys| - 1], |keys| - 1)
  }

  /** Any sequence of insertions into an empty tree leaves a red-black tree. */
  lemma {:induction false} BuildRedBlack(keys: seq<int>)
    ensures IsRedBlack(Build(keys))
    decreases |keys|
  {
    if keys != [] {
      var init := keys[..|keys| - 1];
      BuildRedBlack(init);
      InsertRedBlack(Build(init), keys[|keys| - 1], |init|);
    }
  }

  /** The tree holds exactly the inserted keys. */
  lemma {:induction false} BuildKeys(keys: seq<int>)
    ensures multiset(InOrder(Build(keys))) == multiset(keys)
    decreases |keys|
  {
    if keys != [] {
      var init, last := keys[..|keys| - 1], keys[|keys| - 1];
      BuildKeys(init);
      BuildRedBlack(init);
      InsertKeys(Build(init), last, |init|);
      LastOff(keys);
    }
  }

  lemma LastOff(keys: seq<int>)
    requires keys != []
    ensures multiset(keys) == multiset(keys[..|keys| - 1]) + multiset{keys[|keys| - 1]}
  {
    assert keys == keys[..|keys| - 1] + [keys[|keys| - 1]];
  }

  /** Insertion sort with `InsertSorted`: the keys in the order the tree holds
      them, by a definition that never builds a tree. */
  function SortAll(keys: seq<int>): seq<int>
    decreases |keys|
  {
    if keys == [] then [] else InsertSorted(SortAll(keys[..|keys| - 1]), keys[|keys| - 1])
  }

  /** Reading the built tree in order gives the insertion sort of the keys. */
  lemma {:induction false} BuildInOrder(keys: seq<int>)
    ensures InOrder(Build(keys)) == SortAll(keys)
    decreases |keys|
  {
    if keys != [] {
      var init := keys[..|keys| - 1];
      BuildInOrder(init);
      BuildRedBlack(init);
      InsertInOrder(Build(init), keys[|keys| - 1], |init|);
    }
  }

  /** The demonstration in `main`: the tree its twelve insertions leave is a
      red-black tree with a black root that holds each demonstration key once,
      in the order insertion sort puts them. */
  lemma DemoTree()
    ensures IsRedBlack(Build(DemoKeys)) && Build(DemoKeys).Node?
    ensures multiset(InOrder(Build(DemoKeys))) == multiset(DemoKeys)
    ensures InOrder(Build(DemoKeys)) == SortAll(DemoKeys)
  {
    BuildRedBlack(DemoKeys);
    BuildKeys(DemoKeys);
    BuildInOrder(DemoKeys);
    assert 4 in multiset(DemoKeys);
  }
}
