# Balanced search trees and a double-ended queue, modelled in Dafny

This project models the behaviour that three test suites of a Java
algorithms collection demand of three data structures:

- **`AVLTreeRecursive`**: an ordered set of unique integer keys kept as an
  AVL tree. Every node caches its height (an empty subtree has height -1)
  and its balance factor (right height minus left height). After each
  recursive insertion or removal, the unwinding step repairs any factor of
  ±2 with one of the four rotation cases: left-left, left-right,
  right-right or right-left.
- **`RedBlackTree`**: the same ordered-set contract kept as a red-black
  tree. After insertion and deletion, bottom-up fix-up loops recolour and
  rotate nodes. Deletion of a node with two children copies the in-order
  successor's key into it and unlinks the successor instead.
- **`Deque`**: a double-ended queue. It rejects null elements with an
  invalid-argument error, reports removal from an empty queue as a
  no-such-element error, and iterates front to back.

The classes themselves are not part of this model. It is built from what
their tests observe: the exact shapes and colours after fixed insertion
sequences, agreement with a reference set under random insertion and
removal, the height bounds and the null handling. Around that, it uses the
textbook algorithms those observations single out.

Files:

- `powers.dfy`: powers of two and their monotonicity, shared by the height
  bounds of both trees.
- `wrappers.dfy`: `Option` (Java's `null` is `None`), the exception kinds,
  and `Result`.
- `avl_tree.dfy`: the AVL tree.
  - Node operations are pure functions on a `Tree` datatype.
  - The class `AvlTreeRecursive` holds the root and the node count.
  - Lemmas prove that insertion and removal keep the AVL invariant and
    change the key set by exactly one key.
  - Further lemmas bound the height by the minimum node count of an AVL
    tree of that height.
- `rb_core.dfy`: the red-black representation.
  - A tree of coloured nodes plus a *path*: the list of frames from a
    position up to the root. Each frame holds the parent's colour and key,
    the side taken, and the sibling subtree.
  - A path plays the role of the parent links. A tree rebuilt from a
    position and its path has, by construction, consistent parent links.
  - Also defines the red-black invariants: the search order, no red node
    with a red child, equal black heights, and a black root.
- `rb_search.dfy`: the descent that finds a key or the empty child where it
  belongs.
- `rb_insert.dfy`, `rb_delete.dfy`: insertion and deletion.
  - Each fix-up case is a function whose contract states the loop
    invariant it keeps.
  - The whole fix-up is a function proved to restore every red-black rule
    without changing the keys.
- `rb_tree.dfy`: the class `RedBlackTree`.
  - Its methods run the fix-up loops as `while` loops proved equal to those
    functions.
  - Also holds the height bound, stated in integers: `h <= 2 log2(n+1) - 1`
    for height h counted in edges, which implies the tests' bound
    `h <= 2 log2(n+1)`.
- `rb_scenarios.dfy`: the fixed insertion and deletion sequences of the
  red-black tests, with the exact resulting trees.
- `rb_order_check.dfy`: the search-order check the red-black tests apply
  after random insertions (see Findings).
- `deque.dfy`: the class `Deque`.
  - A circular array that doubles when full, with the contents as a ghost
    sequence.
  - Methods modelling the test scenarios.

Both trees share one `height()` convention: the number of edges on the
longest path from the root. A single node has height 0, and an empty tree
has height -1.

## Model

| member | source | states |
|---|---|---|
| AvlTree.Update | src/test/java/com/williamfiset/algorithms/datastructures/balancedtree/AVLTreeTest.java:118-135 | the node's cached height and balance factor agree with its children again, so the node is well formed |
| AvlTree.LeftRotation | src/test/java/com/williamfiset/algorithms/datastructures/balancedtree/AVLTreeTest.java:80-97 | a left rotation of a node with a right child yields a well-formed subtree |
| AvlTree.RightRotation | src/test/java/com/williamfiset/algorithms/datastructures/balancedtree/AVLTreeTest.java:42-59 | a right rotation of a node with a left child yields a well-formed subtree |
| AvlTree.Balance | src/test/java/com/williamfiset/algorithms/datastructures/balancedtree/AVLTreeTest.java:42-116 | the four-case rebalance yields a non-empty well-formed subtree |
| AvlTree.InsertNode | src/test/java/com/williamfiset/algorithms/datastructures/balancedtree/AVLTreeTest.java:137-148 | recursive insertion yields a non-empty well-formed tree |
| AvlTree.RemoveNode | src/test/java/com/williamfiset/algorithms/datastructures/balancedtree/AVLTreeTest.java:168-191 | recursive removal yields a well-formed tree |
| AvlTree.ContainsNode | src/test/java/com/williamfiset/algorithms/datastructures/balancedtree/AVLTreeTest.java:181-188 | in a search tree the recursive search answers true exactly when the value is a key |
| AvlTree.CachedHeightIsHeight | src/test/java/com/williamfiset/algorithms/datastructures/balancedtree/AVLTreeTest.java:150-166 | in a well-formed tree the cached height is the length of the longest path (-1 when empty) |
| AvlTree.SizeIsCardinality | src/test/java/com/williamfiset/algorithms/datastructures/balancedtree/AVLTreeTest.java:137-148 | in a search tree the node count is the number of distinct keys, so size() matches the reference set |
| AvlTree.FindMinIsMinimum | src/test/java/com/williamfiset/algorithms/datastructures/balancedtree/AVLTreeTest.java:168-191 | the leftmost key is a key and no key is smaller |
| AvlTree.LeftRotationKeepsOrder | src/test/java/com/williamfiset/algorithms/datastructures/balancedtree/AVLTreeTest.java:80-97 | a left rotation keeps the set of keys and the search-tree order |
| AvlTree.RightRotationKeepsOrder | src/test/java/com/williamfiset/algorithms/datastructures/balancedtree/AVLTreeTest.java:42-59 | a right rotation keeps the set of keys and the search-tree order |
| AvlTree.LeftLeftCaseBalances | src/test/java/com/williamfiset/algorithms/datastructures/balancedtree/AVLTreeTest.java:42-59 | left-left case: all balance factors end in {-1,0,1} and the height drops by at most one |
| AvlTree.LeftRightCaseBalances | src/test/java/com/williamfiset/algorithms/datastructures/balancedtree/AVLTreeTest.java:61-78 | left-right case: all balance factors end in {-1,0,1} and the height drops by one |
| AvlTree.RightRightCaseBalances | src/test/java/com/williamfiset/algorithms/datastructures/balancedtree/AVLTreeTest.java:80-97 | right-right case: all balance factors end in {-1,0,1} and the height drops by at most one |
| AvlTree.RightLeftCaseBalances | src/test/java/com/williamfiset/algorithms/datastructures/balancedtree/AVLTreeTest.java:99-116 | right-left case: all balance factors end in {-1,0,1} and the height drops by one |
| AvlTree.BalanceKeepsOrder | src/test/java/com/williamfiset/algorithms/datastructures/balancedtree/AVLTreeTest.java:137-148 | rebalancing keeps the keys and the search-tree order |
| AvlTree.BalanceRestores | src/test/java/com/williamfiset/algorithms/datastructures/balancedtree/AVLTreeTest.java:118-135 | a node off balance by two becomes balanced; a balanced node is left as it is |
| AvlTree.RebalanceCorrect | src/test/java/com/williamfiset/algorithms/datastructures/balancedtree/AVLTreeTest.java:118-148 | rebuilding a node from two AVL subtrees whose heights differ by at most two gives an AVL tree with their keys and the node's |
| AvlTree.InsertCorrect | src/test/java/com/williamfiset/algorithms/datastructures/balancedtree/AVLTreeTest.java:118-148 | inserting an absent key keeps the AVL invariant (order, cached fields, balance factors), adds exactly that key, and grows the height by at most one |
| AvlTree.RemoveCorrect | src/test/java/com/williamfiset/algorithms/datastructures/balancedtree/AVLTreeTest.java:168-191 | removal keeps the AVL invariant, removes exactly that key, and lowers the height by at most one |
| AvlTree.AvlHeightBound | src/test/java/com/williamfiset/algorithms/datastructures/balancedtree/AVLTreeTest.java:150-166 | an AVL tree of height h has at least N(h) nodes, where N(-1)=0, N(0)=1, N(h)=N(h-1)+N(h-2)+1 |
| AvlTree.MinNodesExponential | src/test/java/com/williamfiset/algorithms/datastructures/balancedtree/AVLTreeTest.java:150-166 | N(h)+1 is at least 2^ceil((h+1)/2) |
| AvlTree.AvlHeightLogarithmic | src/test/java/com/williamfiset/algorithms/datastructures/balancedtree/AVLTreeTest.java:150-166 | an AVL tree of n nodes and height h has 2^ceil((h+1)/2) <= n+1, that is h <= 2 log2(n+1) - 1 |
| AvlTree.LeftLeftScenario | src/test/java/com/williamfiset/algorithms/datastructures/balancedtree/AVLTreeTest.java:42-59 | for any keys a<b<c, inserting c, b, a gives root b with leaves a and c and no grandchildren |
| AvlTree.LeftRightScenario | src/test/java/com/williamfiset/algorithms/datastructures/balancedtree/AVLTreeTest.java:61-78 | for any keys a<b<c, inserting c, a, b gives root b with leaves a and c |
| AvlTree.RightRightScenario | src/test/java/com/williamfiset/algorithms/datastructures/balancedtree/AVLTreeTest.java:80-97 | for any keys a<b<c, inserting a, b, c gives root b with leaves a and c |
| AvlTree.RightLeftScenario | src/test/java/com/williamfiset/algorithms/datastructures/balancedtree/AVLTreeTest.java:99-116 | for any keys a<b<c, inserting a, c, b gives root b with leaves a and c |
| AvlTree.AvlTreeRecursive.constructor | src/test/java/com/williamfiset/algorithms/datastructures/balancedtree/AVLTreeTest.java:22-25 | a new tree is empty and valid |
| AvlTree.AvlTreeRecursive.Size | src/test/java/com/williamfiset/algorithms/datastructures/balancedtree/AVLTreeTest.java:137-148 | size() is the number of distinct keys |
| AvlTree.AvlTreeRecursive.IsEmpty | src/test/java/com/williamfiset/algorithms/datastructures/balancedtree/AVLTreeTest.java:168-191 | isEmpty() holds exactly when there are no keys |
| AvlTree.AvlTreeRecursive.Height | src/test/java/com/williamfiset/algorithms/datastructures/balancedtree/AVLTreeTest.java:150-166 | height() is the longest path (-1 when empty), with at least N(h) nodes and 2^ceil((h+1)/2) <= n+1 |
| AvlTree.AvlTreeRecursive.Contains | src/test/java/com/williamfiset/algorithms/datastructures/balancedtree/AVLTreeTest.java:37-40 | contains(v) is false for null and otherwise holds exactly when v is a key |
| AvlTree.AvlTreeRecursive.Insert | src/test/java/com/williamfiset/algorithms/datastructures/balancedtree/AVLTreeTest.java:137-148 | insert(v) is true exactly when v is non-null and absent; then v is added and the tree stays AVL; otherwise (null included) nothing changes |
| AvlTree.AvlTreeRecursive.Remove | src/test/java/com/williamfiset/algorithms/datastructures/balancedtree/AVLTreeTest.java:168-191 | remove(v) is true exactly when v is non-null and present; then v is gone, the count drops by one and the tree stays AVL; otherwise nothing changes |
| DequeModel.Deque.constructor | src/test/java/com/williamfiset/algorithms/datastructures/queue/DequeTest.java:15-18 | a new deque is empty |
| DequeModel.Deque.Size | src/test/java/com/williamfiset/algorithms/datastructures/queue/DequeTest.java:49-69 | size() is the number of elements |
| DequeModel.Deque.IsEmpty | src/test/java/com/williamfiset/algorithms/datastructures/queue/DequeTest.java:40-47 | isEmpty() holds exactly when there are no elements |
| DequeModel.Deque.AddFirst | src/test/java/com/williamfiset/algorithms/datastructures/queue/DequeTest.java:30-33 | addFirst(null) fails with an invalid-argument error and changes nothing; otherwise the element becomes the front |
| DequeModel.Deque.AddLast | src/test/java/com/williamfiset/algorithms/datastructures/queue/DequeTest.java:35-38 | addLast(null) fails with an invalid-argument error and changes nothing; otherwise the element becomes the back |
| DequeModel.Deque.RemoveFirst | src/test/java/com/williamfiset/algorithms/datastructures/queue/DequeTest.java:20-23 | on an empty deque a no-such-element error; otherwise returns the front element and drops it |
| DequeModel.Deque.RemoveLast | src/test/java/com/williamfiset/algorithms/datastructures/queue/DequeTest.java:25-28 | on an empty deque a no-such-element error; otherwise returns the back element and drops it |
| DequeModel.Deque.Elements | src/test/java/com/williamfiset/algorithms/datastructures/queue/DequeTest.java:109-143 | iteration yields the elements front to back |
| DequeModel.IsEmptyScenario | src/test/java/com/williamfiset/algorithms/datastructures/queue/DequeTest.java:40-47 | isEmpty() is true, false, true along addFirst(1), removeLast() |
| DequeModel.SizeScenario | src/test/java/com/williamfiset/algorithms/datastructures/queue/DequeTest.java:49-69 | sizes 0,1,2,1,0 and emptiness along addFirst(1), addLast(2), removeFirst(), removeLast() |
| DequeModel.AddRemoveScenario | src/test/java/com/williamfiset/algorithms/datastructures/queue/DequeTest.java:71-107 | removeFirst returns 1 then 2; after addFirst(10), addFirst(20), removeLast returns 10 then 20 |
| DequeModel.ErrorScenario | src/test/java/com/williamfiset/algorithms/datastructures/queue/DequeTest.java:20-38 | removals from an empty deque and null additions are errors; the deque stays empty |
| DequeModel.AddFirstUpTo | src/test/java/com/williamfiset/algorithms/datastructures/queue/DequeTest.java:115-121 | addFirst(0..n-1) puts n-1, ..., 0 in front of the old contents |
| DequeModel.AddLastUpTo | src/test/java/com/williamfiset/algorithms/datastructures/queue/DequeTest.java:127-130 | addLast(0..n-1) appends 0, ..., n-1 |
| DequeModel.RemoveInPairs | src/test/java/com/williamfiset/algorithms/datastructures/queue/DequeTest.java:145-149 | alternating removeFirst/removeLast on an even-sized deque empties it |
| DequeModel.IteratorScenario | src/test/java/com/williamfiset/algorithms/datastructures/queue/DequeTest.java:109-155 | for any n: iteration gives n-1..0, then n-1..0,0..n-1 (2n items), and finally nothing |
| RedBlackCore.RotateKeys | src/test/java/com/williamfiset/algorithms/datastructures/balancedtree/RedBlackTreeTest.java:36-122 | a rotation, whatever the colours, keeps the keys in order |
| RedBlackSearch.Locate | src/test/java/com/williamfiset/algorithms/datastructures/balancedtree/RedBlackTreeTest.java:239-250 | the descent ends at the node holding v or at the empty child where v belongs, inside the same tree |
| RedBlackSearch.LocateSorted | src/test/java/com/williamfiset/algorithms/datastructures/balancedtree/RedBlackTreeTest.java:239-250 | in a search tree the descent finds a node exactly when v is a key, and keeps every key before the position below v and every key after it above v |
| RedBlackSearch.LocateFromRoot | src/test/java/com/williamfiset/algorithms/datastructures/balancedtree/RedBlackTreeTest.java:273-276 | from the root: found exactly when v is a key; when not found, the keys split around the empty position |
| RedBlackInsert.RecolorUp | src/test/java/com/williamfiset/algorithms/datastructures/balancedtree/RedBlackTreeTest.java:124-146 | red-uncle case: parent and uncle turn black, grandparent red and becomes z, two levels up; the fix-up state and the keys are kept |
| RedBlackInsert.Straighten | src/test/java/com/williamfiset/algorithms/datastructures/balancedtree/RedBlackTreeTest.java:58-100 | inner black-uncle case: rotating at the parent makes z an outer grandchild; the fix-up state and keys are kept |
| RedBlackInsert.Rotate | src/test/java/com/williamfiset/algorithms/datastructures/balancedtree/RedBlackTreeTest.java:36-56 | outer black-uncle case: recolour and rotate at the grandparent; no red node has a red child afterwards and the keys are kept |
| RedBlackInsert.Settle | src/test/java/com/williamfiset/algorithms/datastructures/balancedtree/RedBlackTreeTest.java:43-49 | after the loop the rebuilt tree has no red-red pair, equal black heights and a black root, with the same keys |
| RedBlackInsert.InsertFixUp | src/test/java/com/williamfiset/algorithms/datastructures/balancedtree/RedBlackTreeTest.java:124-237 | the insert fix-up from a red node under a possibly red parent ends in a tree with no red-red pair, equal black heights, a black root and the same keys |
| RedBlackInsert.InsertAtHole | src/test/java/com/williamfiset/algorithms/datastructures/balancedtree/RedBlackTreeTest.java:239-250 | a red leaf at the empty child where the search ended meets the fix-up's precondition, and the result holds the old keys plus v, in order |
| RedBlackInsert.InsertTree | src/test/java/com/williamfiset/algorithms/datastructures/balancedtree/RedBlackTreeTest.java:239-250 | insert keeps the red-black properties; a present v leaves the tree unchanged; otherwise v is added and the key count grows by one |
| RedBlackDelete.RedSiblingCase | src/test/java/com/williamfiset/algorithms/datastructures/balancedtree/RedBlackTreeTest.java:278-301 | red-sibling case: sibling black, parent red, rotate toward x; x gets a black sibling; the fix-up state and keys are kept |
| RedBlackDelete.BlackNephewsCase | src/test/java/com/williamfiset/algorithms/datastructures/balancedtree/RedBlackTreeTest.java:278-301 | black sibling with black children: sibling turns red and the parent becomes x; the fix-up state and keys are kept |
| RedBlackDelete.NearNephewCase | src/test/java/com/williamfiset/algorithms/datastructures/balancedtree/RedBlackTreeTest.java:278-301 | black sibling whose near child is red: rotate at the sibling so its far child is red; the fix-up state and keys are kept |
| RedBlackDelete.FarNephewCase | src/test/java/com/williamfiset/algorithms/datastructures/balancedtree/RedBlackTreeTest.java:278-301 | black sibling whose far child is red: recolour and rotate at the parent; the shortage is gone and the keys are kept |
| RedBlackDelete.NearNephewRotation | src/test/java/com/williamfiset/algorithms/datastructures/balancedtree/RedBlackTreeTest.java:278-301 | the sibling rotation of the near-nephew case keeps the keys, the red rule, the balance and the black height |
| RedBlackDelete.Settle | src/test/java/com/williamfiset/algorithms/datastructures/balancedtree/RedBlackTreeTest.java:278-301 | after the loop, painting x black and rebuilding gives a valid red-black shape with the same keys |
| RedBlackDelete.DeleteFixUp | src/test/java/com/williamfiset/algorithms/datastructures/balancedtree/RedBlackTreeTest.java:278-301 | the delete fix-up from a node one black short ends in a tree with no red-red pair, equal black heights, a black root and the same keys |
| RedBlackDelete.Splice | src/test/java/com/williamfiset/algorithms/datastructures/balancedtree/RedBlackTreeTest.java:252-266 | unlinking a node with at most one child leaves a valid red-black shape whose keys are the old ones without that node's |
| RedBlackDelete.SuccessorKeys | src/test/java/com/williamfiset/algorithms/datastructures/balancedtree/RedBlackTreeTest.java:278-301 | copying the successor's key into a two-child node and unlinking the successor removes exactly the original key |
| RedBlackDelete.RemoveAt | src/test/java/com/williamfiset/algorithms/datastructures/balancedtree/RedBlackTreeTest.java:278-301 | removing the node found leaves a valid red-black shape holding the keys before and after it |
| RedBlackDelete.RemoveAtKeys | src/test/java/com/williamfiset/algorithms/datastructures/balancedtree/RedBlackTreeTest.java:278-301 | removing the node holding v keeps the keys in order, removes v only, and lowers the key count by one |
| RedBlackDelete.DeleteTree | src/test/java/com/williamfiset/algorithms/datastructures/balancedtree/RedBlackTreeTest.java:278-301 | delete keeps the red-black properties; an absent v leaves the tree unchanged; otherwise exactly v is removed and the count drops by one |
| RedBlackTree.HeightByBlackHeight | src/test/java/com/williamfiset/algorithms/datastructures/balancedtree/RedBlackTreeTest.java:303-316 | in a tree with no red-red pair and equal black heights the number of nodes on the longest path (height + 1) is at most twice the black height, plus one for a red root |
| RedBlackTree.SizeByBlackHeight | src/test/java/com/williamfiset/algorithms/datastructures/balancedtree/RedBlackTreeTest.java:303-316 | a tree of black height b holds at least 2^b - 1 nodes |
| RedBlackTree.SortedCard | src/test/java/com/williamfiset/algorithms/datastructures/balancedtree/RedBlackTreeTest.java:290-298 | a strictly increasing key sequence has as many distinct keys as entries, so the node count is the size |
| RedBlackTree.HeightBound | src/test/java/com/williamfiset/algorithms/datastructures/balancedtree/RedBlackTreeTest.java:303-316 | a red-black tree of n keys and height h has 2^ceil((h+1)/2) <= n+1, that is h <= 2 log2(n+1) - 1, within the test's bound h <= 2 log2(n+1) |
| RedBlackTree.RedBlackTree.constructor | src/test/java/com/williamfiset/algorithms/datastructures/balancedtree/RedBlackTreeTest.java:21-24 | a new tree is empty and red-black |
| RedBlackTree.RedBlackTree.Size | src/test/java/com/williamfiset/algorithms/datastructures/balancedtree/RedBlackTreeTest.java:290-298 | size() is the number of keys |
| RedBlackTree.RedBlackTree.IsEmpty | src/test/java/com/williamfiset/algorithms/datastructures/balancedtree/RedBlackTreeTest.java:299 | isEmpty() holds exactly when there are no keys |
| RedBlackTree.RedBlackTree.Height | src/test/java/com/williamfiset/algorithms/datastructures/balancedtree/RedBlackTreeTest.java:303-316 | height() is the number of edges on the longest path (-1 when empty), with 2^ceil((h+1)/2) <= n+1 |
| RedBlackTree.RedBlackTree.Search | src/test/java/com/williamfiset/algorithms/datastructures/balancedtree/RedBlackTreeTest.java:239-250 | the descent loop reaches the position the search function describes |
| RedBlackTree.RedBlackTree.Contains | src/test/java/com/williamfiset/algorithms/datastructures/balancedtree/RedBlackTreeTest.java:31-34 | contains(null) is false; otherwise contains(v) holds exactly when v is a key |
| RedBlackTree.RedBlackTree.Insert | src/test/java/com/williamfiset/algorithms/datastructures/balancedtree/RedBlackTreeTest.java:239-250 | insert(null) fails with an invalid-argument error and changes nothing; otherwise the result is true exactly when v was absent, v is a key afterwards, and the tree stays red-black |
| RedBlackTree.RedBlackTree.Delete | src/test/java/com/williamfiset/algorithms/datastructures/balancedtree/RedBlackTreeTest.java:278-301 | delete(null) is false and changes nothing; otherwise the result is true exactly when v was present, v is no longer a key, the size drops by one, and the tree stays red-black |
| RedBlackTree.InsertFixUpLoop | src/test/java/com/williamfiset/algorithms/datastructures/balancedtree/RedBlackTreeTest.java:124-207 | the insert fix-up loop computes what the insert fix-up function describes |
| RedBlackTree.DeleteFixUpLoop | src/test/java/com/williamfiset/algorithms/datastructures/balancedtree/RedBlackTreeTest.java:278-301 | the delete fix-up loop computes what the delete fix-up function describes |
| RedBlackTree.RemoveNode | src/test/java/com/williamfiset/algorithms/datastructures/balancedtree/RedBlackTreeTest.java:278-301 | unlinking the found node, via its successor when it has two children, computes the specified removal |
| RedBlackTree.SpliceOut | src/test/java/com/williamfiset/algorithms/datastructures/balancedtree/RedBlackTreeTest.java:252-266 | unlinking a node with at most one child, with the fix-up when it was black, computes the specified splice |
| RedBlackTree.Successor | src/test/java/com/williamfiset/algorithms/datastructures/balancedtree/RedBlackTreeTest.java:278-301 | the leftmost-descent loop finds the successor and the path to it with the successor's key copied into the node |
| RedBlackScenarios.LeftLeftRotation | src/test/java/com/williamfiset/algorithms/datastructures/balancedtree/RedBlackTreeTest.java:36-56 | inserting 3, 2, 1 gives black 2 with red leaves 1 and 3 |
| RedBlackScenarios.LeftRightRotation | src/test/java/com/williamfiset/algorithms/datastructures/balancedtree/RedBlackTreeTest.java:58-78 | inserting 3, 1, 2 gives black 2 with red leaves 1 and 3 |
| RedBlackScenarios.RightLeftRotation | src/test/java/com/williamfiset/algorithms/datastructures/balancedtree/RedBlackTreeTest.java:80-100 | inserting 1, 3, 2 gives black 2 with red leaves 1 and 3 |
| RedBlackScenarios.RightRightRotation | src/test/java/com/williamfiset/algorithms/datastructures/balancedtree/RedBlackTreeTest.java:102-122 | inserting 1, 2, 3 gives black 2 with red leaves 1 and 3 |
| RedBlackScenarios.LeftUncleCase | src/test/java/com/williamfiset/algorithms/datastructures/balancedtree/RedBlackTreeTest.java:124-164 | inserting 1..4 gives 2 over black 1 and black 3, with red 4 right of 3; then inserting 5 gives 2 over black 1 and black 4 with red leaves 3 and 5 |
| RedBlackScenarios.RightUncleCase | src/test/java/com/williamfiset/algorithms/datastructures/balancedtree/RedBlackTreeTest.java:166-207 | inserting 2, 3, 4, 1 gives 3 over black 2 and black 4, with red 1 left of 2; then inserting 0 gives 3 over black 1 (red leaves 0, 2) and black 4 |
| RedBlackScenarios.InterestingCase | src/test/java/com/williamfiset/algorithms/datastructures/balancedtree/RedBlackTreeTest.java:209-237 | inserting 41, 44, 95, 83, 72, 66, 94, 90, 59 gives the exact shape and colours the test asserts, with black root 44 and red 83 |
| RedBlackScenarios.Removal | src/test/java/com/williamfiset/algorithms/datastructures/balancedtree/RedBlackTreeTest.java:252-266 | after inserting 5, 7, 9, deleting 5, then 7, then 9 removes each key and ends with an empty tree |
| RedBlackOrderCheck.ChildOrderMissesGrandchildren | src/test/java/com/williamfiset/algorithms/datastructures/balancedtree/RedBlackTreeTest.java:392-401 | the child-only order check accepts a tree whose keys in order are 1, 3, 2 |
| RedBlackOrderCheck.SearchOrderIsSorted | src/test/java/com/williamfiset/algorithms/datastructures/balancedtree/RedBlackTreeTest.java:392-401 | the corrected check (whole subtrees on each side) holds exactly when the keys in order are strictly increasing |
| RedBlackOrderCheck.SearchOrderChecksChildren | src/test/java/com/williamfiset/algorithms/datastructures/balancedtree/RedBlackTreeTest.java:392-401 | the corrected check implies the child-only check |

## Left out

- Parent links, the shared NIL sentinel and heap-allocated nodes are not modelled. Each red-black position carries its path to the root instead. So the parent-link checks (`assertCorrectParentLinks`, `validateParentLinksAreCorrect`) hold by construction, and in-place pointer rewiring and aliasing between nodes are not captured.
- The red-black scenario lemmas check the full resulting tree: keys, colours and the empty children of the leaves (`assertNullChildren`). They do not check parent pointers.
- Random inputs (`genRandList`, `randValue`, shuffling) are not modelled. The properties are stated for all inputs instead.
- The performance tests and any printing or timing are not modelled.
- The class implementations are not part of this model. Their behaviour follows the tests and the textbook algorithms the tests' expected shapes single out.
- Keys are mathematical integers. Java's generic `Comparable` keys and `Integer` boxing are not modelled. Sizes are unbounded, so `int` overflow of a size is not modelled.
- Java exceptions are modelled as `Failure` results, not thrown.
- A `try`/`catch` that swallows a failed assertion in the red-black parent-link helper is not modelled, because the model has no parent links to check.
- `AvlTree.AvlHeightLogarithmic`: states `2^ceil((h+1)/2) <= n+1`, that is `h <= 2 log2(n+1) - 1`. This is weaker than the test's floating-point bound `1.441 log2(n+2) - 0.329`.
  - The model proves the minimum-node recurrence that bound comes from (`AvlTree.AvlHeightBound`).
  - It does not derive the golden-ratio constant, since real arithmetic is not modelled.
- `RedBlackTree.HeightBound`: states the bound in integer form, `2^ceil((h+1)/2) <= n+1`, rather than the test's floating-point `h <= 2 log2(n+1)`. The integer form implies the test's bound.
- In the insert-against-reference-set test, the red-black suite compares the tree's size with itself, a check that always passes.
  - The model states the comparison that is evidently meant: the size after insertion equals the number of distinct keys (`RedBlackTree.RedBlackTree.Size`, `RedBlackTree.SortedCard`).
  - That test also ignores the result of its order check, and the model states the order as part of the red-black invariant.
- `DequeModel.Deque.Elements`: the iterator is modelled as one method returning the elements front to back. The `hasNext`/`next` protocol and concurrent modification are not modelled.
- The deque's storage layout is modelled as a circular array with an initial capacity of 4 that doubles when full. The source's own layout is not shown; only its observable contents are specified.
- `AVLTreeRecursiveOptimized` and the other trees of the collection are not part of this model.

## Findings

| source | as written | input that shows it | evidently intended | confidence | as-written member | corrected member |
|---|---|---|---|---|---|---|
| src/test/java/com/williamfiset/algorithms/datastructures/balancedtree/RedBlackTreeTest.java:392-401 | the search-order check compares each node only with its own children | root 2 with left child 1, and 3 as the right child of 1: every parent-child pair is ordered, yet the keys in order read 1, 3, 2 | every key in a left subtree is below the node and every key in a right subtree above it, so the keys in order are strictly increasing | not executed | RedBlackOrderCheck.ChildOrderMissesGrandchildren | RedBlackOrderCheck.SearchOrderIsSorted |
