# Red-black tree insertion, modelled in Dafny

This project models the `RedBlackTree` class of `main.cpp`: a red-black binary
search tree of `int` keys whose nodes are linked by `left`, `right` and `parent`
pointers. The model covers the left and right rotations, the insertion
fix-up loop (`fixViolation`), `insert`, and the indented text rendering
(`inorderHelper`, `getColorString`, `printTree`).

The model has two layers.

- **A value model** (modules `RbTree`, `Zipper`, `Rotations`, `Insertion`, `Rendering`).
  - A `Tree` datatype stores each node's colour, handle and key.
  - A zipper (`Frame`, `Path`) stands for the chain of parents above a node.
  - `Insertion.FixUp` performs one `Step` per iteration of the `fixViolation` loop.
  - `Insertion.Insert` is the whole of `insert`: descend, attach a red node, fix up, paint the root black.
  - On this layer the model proves these properties of insertion:
    - it keeps the tree a red-black search tree;
    - it adds exactly the inserted key to the keys;
    - it places the new node after every node whose key is at most the new key (equal keys included) and before every greater one;
    - every other node keeps its key, and the order of the other nodes is kept;
    - it adds exactly one node.
- **An imperative model** (module `Arena`, class `RedBlackTree`).
  - Nodes are records in the sequence `nodes`; an index is a pointer and `Nil` (-1) is `nullptr`.
  - The methods `LeftRotate`, `RightRotate`, `FixViolation` and `Insert` write the same pointer and colour fields as the C++ code, in the same order. `Paint` is the single colour write.
  - A ghost field `shape` holds the `Tree` that the records spell out.
  - Each method's contract ties the new records to the value model: for example, `Insert` leaves `shape == Insertion.Insert(old(shape), v, old(|nodes|))`.
  - The class invariant `Valid()` says two things:
    - the records and `parent` links describe `shape` exactly;
    - `shape` is a red-black tree.

Equal keys: `insert` sends a key equal to the current node's key to the right
(main.cpp:149-152, 159-162), and nothing prevents duplicates. A rotation can then
leave an equal key in a left subtree, so the ordering the code keeps is "left ≤ key ≤ right". A strict ordering does not hold.
`Demo.DuplicatesReachTheLeft` exhibits this with three inserts of 3. Many
red-black trees reject duplicate keys; this one inserts them, and so does the model.

## Model

| member | source | states |
|---|---|---|
| Arena.RedBlackTree.constructor | main.cpp:33 | A new tree is empty (`root == Nil`, no nodes) and satisfies the red-black invariant |
| Arena.RedBlackTree.LeftRotate | main.cpp:41-59 | The records afterwards spell the tree with the subtree at `x` rotated left. Only the links `leftRotate` assigns change: `x.right`, `x.parent`, `y.left`, `y.parent`, the moved child's parent, and the parent's or root's link to `y` |
| Arena.RedBlackTree.RightRotate | main.cpp:62-80 | Mirror image of `LeftRotate`: the subtree at `x` is rotated right and only the rotation's links change |
| Arena.RotateLeftRelinks | main.cpp:41-59 | The pointer writes of `leftRotate`, applied to consistent records, give consistent records for the rotated tree. This includes the parent links and the root |
| Arena.RotateRightRelinks | main.cpp:62-80 | The same for `rightRotate` |
| Arena.LeftLinks | main.cpp:42-58 | The record writes of `leftRotate(x)`: `x.right` and `x.parent`, `y.left` and `y.parent`, the moved child's `parent`, and the parent's link to `y`; every other record is unchanged |
| Arena.RightLinks | main.cpp:63-79 | The mirror writes of `rightRotate(x)` |
| Arena.RedBlackTree.Paint | main.cpp:93-95 | One colour write `node->color = col`: only that node's record changes, in its colour, and the tree is the same with that node recoloured |
| Arena.RedBlackTree.Recolour | main.cpp:92-96 | Case 1 (red uncle), on either side (also main.cpp:114-118): the grandparent becomes red, then the parent and then the uncle become black, and nothing else changes |
| Arena.RedBlackTree.SwapColors | main.cpp:107 | `std::swap(parent->color, grandparent->color)` exchanges the colours of the rotated top and its child, and nothing else changes |
| Arena.RedBlackTree.RebalanceLeft | main.cpp:98-108 | Cases 2 and 3 with the parent a left child: the tree becomes `Step(s, p, g)` in place, and the returned `x` is that subtree's top |
| Arena.RedBlackTree.RebalanceRight | main.cpp:120-130 | The mirror cases with the parent a right child |
| Arena.RedBlackTree.FixViolation | main.cpp:83-136 | The loop leaves the records spelling `Blacken(FixUp(s0, c0))`: the pure fix-up from the starting node, then the black root. Every node keeps its key and the in-order sequence of (handle, key) is unchanged. The node count is unchanged |
| Arena.RedBlackTree.Insert | main.cpp:139-166 | Keeps the class invariant, with one more record and one more node in the tree. The tree is `Insertion.Insert` of the old tree, and its root is a black node. The keys gain exactly `v`, and the in-order key sequence is the old one with `v` inserted in sorted position. In the in-order sequence of (handle, key), the new node `(old node count, v)` sits between the old entries with keys at most `v` and those with greater keys, so it comes after every equal key; the old entries keep their keys and order |
| Arena.HangNew | main.cpp:155-162 | Linking the fresh node under the parent where the descent stopped, or as the root, gives records that spell the tree with the node attached |
| Arena.HangNewIds | main.cpp:140 | The fresh node takes a handle no other node uses, and afterwards the handles in the tree are exactly 0 up to the node count |
| Arena.RedBlackTree.InorderHelper | main.cpp:169-195 | Following the pointers from `node` produces exactly the lines `Render` gives for the subtree |
| Arena.RedBlackTree.PrintTree | main.cpp:203-207 | The text passed to `std::cout` is the rendering of the whole tree from the root with `last = true`, followed by one newline |
| Rotations.RotateLeft | main.cpp:41-59 | The right child `y` becomes the top, `x` becomes its left child, and `y`'s old left subtree becomes `x`'s right subtree. All other subtrees stay |
| Rotations.RotateRight | main.cpp:62-80 | The mirror image |
| Rotations.RotateLeftKeeps | main.cpp:41-59 | A left rotation keeps the in-order key sequence |
| Rotations.RotateRightKeeps | main.cpp:62-80 | A right rotation keeps the in-order key sequence |
| Rotations.RotationsInverse | main.cpp:41-80 | Rotating left then right, or right then left, gives back the original tree |
| Rotations.RotateLeftCells | main.cpp:41-59 | A left rotation changes no node's colour or key: the multiset of (handle, colour, key) is kept |
| Rotations.RotateRightCells | main.cpp:62-80 | The same for a right rotation |
| Rotations.RotateLeftIds | main.cpp:41-59 | A left rotation keeps the set of nodes, and keeps them pairwise distinct |
| Rotations.RotateRightIds | main.cpp:62-80 | The same for a right rotation |
| Rotations.RotateLeftEntries | main.cpp:41-59 | A left rotation keeps the in-order sequence of (handle, key): no key moves from one node to another |
| Rotations.RotateRightEntries | main.cpp:62-80 | The same for a right rotation |
| Zipper.EntriesOfPlug | main.cpp:50-55 | Replacing a subtree in place by one with the same (handle, key) sequence keeps that sequence for the whole tree |
| Insertion.Step | main.cpp:88-131 | One loop iteration. With a red uncle, the new `x` is the grandparent, now red. Otherwise the new `x` is at the top and has the grandparent's colour. That top is the parent in the line cases and `x` itself in the triangle cases. That the colour is black and the loop then ends is `Insertion.RotationEndsLoop` |
| Insertion.RotationEndsLoop | main.cpp:97-130 | Under the loop invariant, when the parent is red and the uncle is not, there is a grandparent, the rotation case leaves a black node as the new `x`, and the loop stops right after that iteration: the whole fix-up is that one step plugged into the remaining ancestors |
| Insertion.StepKeeps | main.cpp:88-131 | One iteration keeps the in-order key sequence and the set of nodes |
| Insertion.StepEntries | main.cpp:88-131 | One iteration keeps the in-order sequence of (handle, key): it changes colours and links, never a node's key |
| Insertion.SwapWithRight | main.cpp:107 | `std::swap` of the colours of a node and its right child: the two colours are exchanged, and keys, handles and subtrees stay |
| Insertion.SwapWithLeft | main.cpp:129 | The same with the left child |
| Insertion.StepKeepsColours | main.cpp:88-131 | If only `x` and its parent break the red rule and black heights are equal, then after one iteration the subtree has no red-red edge, its paths are balanced, and its black height is unchanged |
| Insertion.RecolourCase | main.cpp:92-96 | The same for case 1 (red uncle), on both sides (also main.cpp:114-118) |
| Insertion.LineLeftCase | main.cpp:106-108 | The same for case 3 with `x` a left child of a left child |
| Insertion.TriangleLeftCase | main.cpp:99-108 | The same for case 2 followed by case 3 with `x` a right child of a left child |
| Insertion.LineRightCase | main.cpp:128-130 | The same for the mirror case 3 |
| Insertion.TriangleRightCase | main.cpp:121-130 | The same for the mirror case 2 followed by case 3 |
| Insertion.FixUp | main.cpp:84-133 | The loop keeps the whole tree's in-order key sequence and its set of nodes |
| Insertion.FixUpEntries | main.cpp:84-133 | The loop keeps the whole tree's in-order sequence of (handle, key): every node keeps its key and the nodes stay in order |
| Insertion.FixUpKeepsColours | main.cpp:84-133 | Starting from a red `x` that is the only red-red violation, the loop ends with no red-red edge and balanced black heights |
| Insertion.Insert | main.cpp:139-166 | After `insert`, the root is not red (main.cpp:135) |
| Insertion.NewNode | main.cpp:18 | `new Node(value)`: a red node with no children holding `value` under its handle |
| Insertion.Descend | main.cpp:143-153 | The descent loop: the ancestors of the null link where `v` belongs, added to the ancestors already passed, so the path never gets shorter. Where the descent ends is stated by `Insertion.DescendPlug` |
| Insertion.Attach | main.cpp:155-162 | Hanging `n` on that null link adds exactly `n`'s nodes: the size grows by `n`'s size and the handles by `n`'s |
| Insertion.DescendPlug | main.cpp:143-162 | The descent path ends at the null link where the new node is attached by key comparison, so plugging the node into the path is attaching it |
| Insertion.AttachKeys | main.cpp:155-162 | Attaching a node adds exactly its keys to the key multiset |
| Insertion.AttachInOrder | main.cpp:146-162 | In an ordered tree, attaching a node holding `v` turns the in-order key sequence into `InsertSorted` of the old one |
| Insertion.AttachEntries | main.cpp:146-162 | In an ordered tree, attaching `n` splices its entries into the in-order (handle, key) sequence between the old entries with keys at most `v` and those with greater keys. Equal keys go right (main.cpp:149-152, 159-162), so the new node comes after every node with an equal key |
| Insertion.InsertSortedAdds | main.cpp:149-162 | Sorted insertion adds exactly the new key to the multiset |
| Insertion.InsertSortedSorted | main.cpp:149-162 | Sorted insertion into a sorted sequence gives a sorted sequence |
| Insertion.InsertKeys | main.cpp:139-166 | `insert(v)` adds exactly `v` to the multiset of keys |
| Insertion.InsertInOrder | main.cpp:139-166 | `insert(v)` into an ordered tree puts `v` in sorted position in the in-order keys, and the tree stays ordered |
| Insertion.InsertEntries | main.cpp:139-166 | `insert(v)` on an ordered tree adds exactly one entry, `(id, v)`, placed after every old entry whose key is at most `v` and before every greater one; the old entries keep their keys and their order |
| Insertion.InsertIds | main.cpp:139-166 | `insert` adds exactly the new node to the set of nodes |
| Insertion.InsertRedBlack | main.cpp:139-166 | `insert` into a red-black tree gives a red-black tree whose root is a black node |
| RbTree.Blacken | main.cpp:135 | Painting the root black leaves it not red and keeps the in-order keys, the set of nodes and the root handle |
| RbTree.BlackenKeeps | main.cpp:135 | Painting the root black keeps the red rule and the balance of black heights |
| RbTree.OrderedIffSorted | main.cpp:149-162 | The search order "left ≤ key ≤ right" holds exactly when the in-order key sequence is sorted |
| RbTree.BalancedIffUniformPaths | main.cpp:82 | The balanced black-height property holds exactly when every path from the root to a null link has the same number of black nodes |
| RbTree.IdsOfSize | main.cpp:140 | In a tree with distinct nodes, the number of nodes equals the tree's size |
| Arena.SpellsSize | main.cpp:140 | An arena that spells a tree holds exactly one record per node of the tree: its length is the tree's size |
| Rendering.ColorString | main.cpp:198-200 | The colour tag is four characters: `[`, then `R` for red or `B` for black, then `]` and a space |
| Rendering.ColorStringReadsBack | main.cpp:198-200 | The tag determines the colour: reading `[R] ` gives red and `[B] ` gives black |
| Rendering.Render | main.cpp:169-195 | The lines `inorderHelper` writes for a subtree, one per node |
| Rendering.RenderBranches | main.cpp:182-188 | Every line carries the branch mark `\--` or `/--` |
| Rendering.RenderKeys | main.cpp:169-195 | The lines list the keys in reverse in-order: right subtree first, then the node, then the left subtree |
| Rendering.RenderDescending | main.cpp:169-195 | For an ordered tree, the keys in the printed lines never increase from top to bottom |
| Rendering.RenderRoot | main.cpp:180-190 | The node's own line comes right after its right subtree's lines, with the given indent and a `\--` or `/--` marker chosen by `last` |
| Rendering.RenderChildMarkers | main.cpp:176-193 | A right child's line is drawn six columns further in with `/--`; a left child's line is drawn with `\--` under the indentation the parent's branch continues with (three spaces after a last child, otherwise a bar and three spaces, then three more spaces) |
| Rendering.RenderIndents | main.cpp:176-194 | Every line of a subtree is indented at least as deeply as the subtree's own indent |
| Rendering.DecimalRoundTrip | main.cpp:174 | The decimal text of a key is a numeral that reads back as that key |
| Rendering.Decimal | main.cpp:174 | `std::to_string`: a non-empty string that starts with `-` exactly when the key is negative |
| Rendering.LineText | main.cpp:180-190 | One written line: it starts with the indent and the branch mark and ends with the newline of `std::endl` |
| Rendering.Text | main.cpp:205 | The stream contents: empty exactly when there are no lines, and otherwise ending in a newline |
| Demo.AscendingRotates | main.cpp:139-166 | Inserting 10, 20, 30 ends in a left rotation at the root: a black 20 with a red 10 on the left and a red 30 on the right |
| Demo.DuplicatesReachTheLeft | main.cpp:149-162 | Inserting 3 three times gives a black 3 with two red 3 children, so an equal key has reached the left subtree. The tree is ordered but not strictly ordered |
| Demo.Build | main.cpp:211-223 | A run of inserts into an empty tree, the node of the `i`-th key taking handle `i`; the result's root is never red |
| Demo.BuildRedBlack | main.cpp:210-223 | Any sequence of inserts into an empty tree gives a red-black tree |
| Demo.BuildKeys | main.cpp:210-223 | After any sequence of inserts, the key multiset is exactly the keys inserted |
| Demo.BuildInOrder | main.cpp:210-223 | After any sequence of inserts, the in-order keys are the inserted keys sorted by repeated sorted insertion |
| Demo.DemoTree | main.cpp:210-223 | The twelve inserts of `main` give a non-empty red-black tree. Its key multiset is exactly those twelve keys, and its in-order keys are their repeated sorted insertion |

## Left out

- Console output and input are left out: `std::cout`, `getchar()` and `main`'s driver. `PrintTree` returns the text it would write.
- `main`'s twelve inserts appear only as the `Demo.DemoTree` lemma. No concrete tree picture is evaluated.
- `Demo.DemoTree`: states invariants and contents of the demo tree, not its exact shape or printed text.
- Node lifetime is not modelled: `new Node` is an append to the `nodes` sequence, and a node's handle is its index. No node is ever freed, and the source has no destructor.
- The `isInsertion` parameter of `fixViolation` is never read, so the model drops it.
- Deletion, search and teardown are not modelled because `main.cpp` has none of them.
- Duplicate keys are not rejected. The code inserts them, and the model follows the code rather than treating a duplicate insert as a no-op.
- Keys are unbounded integers rather than 32-bit `int`. The code only compares and prints keys, so overflow cannot arise.
- `std::to_string` is modelled by `Rendering.Decimal`: an optional minus sign, then the digits without leading zeros.
- `std::stringstream` and `std::endl` are modelled as a sequence of `Line` records, and `Text` joins them with newlines.
- `Insertion.Descend`: its own contract states only that the path keeps the ancestors passed so far; where the path ends is stated by `Insertion.DescendPlug`.
- `Insertion.Insert`: its own contract states only that the root is not red. The red-black, key, order and node properties of insertion are in the `Insert*` lemmas.
