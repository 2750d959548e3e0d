/** The recursive AVL tree: a set of unique integer keys kept in a binary search
    tree whose nodes cache their height and balance factor. Insertion and
    removal recurse down the tree and, on the way back up, recompute the cached
    fields of every node on the path and rebalance it with one of the four
    rotation cases. Nodes are exclusively owned by their parent, so a node is
    a value here and "update in place" is "return the updated node". */
module AvlTree {
  import opened Wrappers
  import opened Powers

  /** A node: its key, the cached balance factor (height of the right subtree
      minus height of the left subtree), the cached height, and its children.
      `Empty` is the Java `null` child. */
  datatype Tree = Empty | Node(value: int, bf: int, height: nat, left: Tree, right: Tree)

  function Max(a: int, b: int): int { if a < b then b else a }

  /** The cached height of a subtree; an absent subtree has height -1, so a
      leaf has height 0. */
  function HeightOf(t: Tree): int {
    if t.Empty? then -1 else t.height
  }

  /** The height computed from the shape alone (the longest path, in edges). */
  function ShapeHeight(t: Tree): int {
    if t.Empty? then -1 else 1 + Max(ShapeHeight(t.left), ShapeHeight(t.right))
  }

  function Elements(t: Tree): set<int> {
    if t.Empty? then {} else Elements(t.left) + {t.value} + Elements(t.right)
  }

  /** The number of nodes. */
  function NodeCount(t: Tree): nat {
    if t.Empty? then 0 else NodeCount(t.left) + 1 + NodeCount(t.right)
  }

  /** Every key of `t` is below `k`. */
  predicate AllBelow(t: Tree, k: int) {
    t.Node? ==> t.value < k && AllBelow(t.left, k) && AllBelow(t.right, k)
  }

  /** Every key of `t` is above `k`. */
  predicate AllAbove(t: Tree, k: int) {
    t.Node? ==> k < t.value && AllAbove(t.left, k) && AllAbove(t.right, k)
  }

  /** Search-tree ordering: every key of the left subtree is below the node's
      key and every key of the right subtree above it, at every node. */
  predicate Bst(t: Tree) {
    t.Node? ==>
      && Bst(t.left) && Bst(t.right)
      && AllBelow(t.left, t.value) && AllAbove(t.right, t.value)
  }

  /** Every node's cached height and balance factor agree with its children. */
  ghost predicate WellFormed(t: Tree) {
    t.Node? ==>
      && WellFormed(t.left) && WellFormed(t.right)
      && t.height == 1 + Max(HeightOf(t.left), HeightOf(t.right))
      && t.bf == HeightOf(t.right) - HeightOf(t.left)
  }

  /** The test suite's `validateBalanceFactorValues`: every balance factor is
      -1, 0 or +1. */
  predicate BalanceFactorsValid(t: Tree) {
    t.Node? ==> -1 <= t.bf <= 1 && BalanceFactorsValid(t.left) && BalanceFactorsValid(t.right)
  }

  /** The invariant the tree keeps between public operations. */
  ghost predicate IsAvl(t: Tree) {
    Bst(t) && WellFormed(t) && BalanceFactorsValid(t)
  }

  /** `update(node)`: recompute the node's cached height and balance factor
      from its children's. */
  function Update(node: Tree): (r: Tree)
    requires node.Node? && WellFormed(node.left) && WellFormed(node.right)
    ensures WellFormed(r)
  {
    var lh, rh := HeightOf(node.left), HeightOf(node.right);
    node.(height := 1 + Max(lh, rh), bf := rh - lh)
  }

  /** `leftRotation(node)`: the right child becomes the subtree's root and
      `node` its left child; both nodes are updated, lower one first. */
  function LeftRotation(node: Tree): (r: Tree)
    requires node.Node? && node.right.Node? && WellFormed(node.left) && WellFormed(node.right)
    ensures WellFormed(r)
  {
    var newParent := node.right;
    Update(newParent.(left := Update(node.(right := newParent.left))))
  }

  /** `rightRotation(node)`: the mirror image of `LeftRotation`. */
  function RightRotation(node: Tree): (r: Tree)
    requires node.Node? && node.left.Node? && WellFormed(node.left) && WellFormed(node.right)
    ensures WellFormed(r)
  {
    var newParent := node.left;
    Update(newParent.(right := Update(node.(left := newParent.right))))
  }

  /** `balance(node)`: pick one of the four rotation cases by the sign of the
      node's balance factor and of its heavier child's. */
  function Balance(node: Tree): (r: Tree)
    requires WellFormed(node) && node.Node?
    ensures WellFormed(r) && r.Node?
  {
    if node.bf < -1 then
      if node.left.bf <= 0 then
        // left-left case
        RightRotation(node)
      else
        // left-right case
        RightRotation(node.(left := LeftRotation(node.left)))
    else if node.bf > 1 then
      if node.right.bf >= 0 then
        // right-right case
        LeftRotation(node)
      else
        // right-left case
        LeftRotation(node.(right := RightRotation(node.right)))
    else
      node
  }

  /** The private recursive `insert(node, value)`; the public `insert` calls it
      only for a key that is absent, so an equal key goes right. */
  function InsertNode(node: Tree, v: int): (r: Tree)
    requires WellFormed(node)
    ensures WellFormed(r) && r.Node?
  {
    if node.Empty? then Node(v, 0, 0, Empty, Empty)
    else if v < node.value then Balance(Update(node.(left := InsertNode(node.left, v))))
    else Balance(Update(node.(right := InsertNode(node.right, v))))
  }

  /** The key of the leftmost node of a non-empty subtree. */
  function FindMin(node: Tree): int
    requires node.Node?
  {
    if node.left.Empty? then node.value else FindMin(node.left)
  }

  /** The private recursive `remove(node, elem)`: a node with at most one child
      is replaced by that child; a node with two children takes the key of the
      minimum of its right subtree, which is then removed from that subtree. */
  function RemoveNode(node: Tree, v: int): (r: Tree)
    requires WellFormed(node)
    ensures WellFormed(r)
  {
    if node.Empty? then Empty
    else if v < node.value then Balance(Update(node.(left := RemoveNode(node.left, v))))
    else if node.value < v then Balance(Update(node.(right := RemoveNode(node.right, v))))
    else if node.left.Empty? then node.right
    else if node.right.Empty? then node.left
    else
      var successor := FindMin(node.right);
      Balance(Update(node.(value := successor, right := RemoveNode(node.right, successor))))
  }

  /** The private recursive `contains(node, value)`. */
  function ContainsNode(node: Tree, v: int): (r: bool)
    requires Bst(node)
    ensures r <==> v in Elements(node)
  {
    if node.Empty? then false
    else if v < node.value then
      BoundsAreElementBounds(node.right, node.value);
      ContainsNode(node.left, v)
    else if node.value < v then
      BoundsAreElementBounds(node.left, node.value);
      ContainsNode(node.right, v)
    else true
  }

  // ---------------------------------------------------------------------------
  // Structural facts

  /** On a well-formed tree the cached height is the real height. */
  lemma {:induction false} CachedHeightIsHeight(t: Tree)
    requires WellFormed(t)
    ensures HeightOf(t) == ShapeHeight(t)
  {
    if t.Node? {
      CachedHeightIsHeight(t.left);
      CachedHeightIsHeight(t.right);
    }
  }

  /** The bound predicates say the same as a bound on every key. */
  lemma {:induction false} BoundsAreElementBounds(t: Tree, k: int)
    ensures AllBelow(t, k) <==> forall x | x in Elements(t) :: x < k
    ensures AllAbove(t, k) <==> forall x | x in Elements(t) :: k < x
  {
    if t.Node? {
      BoundsAreElementBounds(t.left, k);
      BoundsAreElementBounds(t.right, k);
      var L, R := Elements(t.left), Elements(t.right);
      assert Elements(t) == L + {t.value} + R;
      assert t.value in Elements(t);
      assert forall x | x in L :: x in Elements(t);
      assert forall x | x in R :: x in Elements(t);
    }
  }

  lemma {:induction false} BelowWeakens(t: Tree, a: int, b: int)
    requires AllBelow(t, a) && a <= b
    ensures AllBelow(t, b)
  {
    if t.Node? {
      BelowWeakens(t.left, a, b);
      BelowWeakens(t.right, a, b);
    }
  }

  lemma {:induction false} AboveWeakens(t: Tree, a: int, b: int)
    requires AllAbove(t, b) && a <= b
    ensures AllAbove(t, a)
  {
    if t.Node? {
      AboveWeakens(t.left, a, b);
      AboveWeakens(t.right, a, b);
    }
  }

  /** Two subtrees with the same keys meet the same bounds. */
  lemma SameKeysSameBounds(a: Tree, b: Tree, k: int)
    requires Elements(a) == Elements(b)
    ensures AllBelow(a, k) == AllBelow(b, k) && AllAbove(a, k) == AllAbove(b, k)
  {
    BoundsAreElementBounds(a, k);
    BoundsAreElementBounds(b, k);
  }

  /** A subtree whose keys are those of `b`, plus perhaps `v`, meets every
      bound that `b` and `v` meet. */
  lemma BelowByKeys(a: Tree, b: Tree, v: int, k: int)
    requires Elements(a) <= Elements(b) + {v} && AllBelow(b, k) && v < k
    ensures AllBelow(a, k)
  {
    BoundsAreElementBounds(a, k);
    BoundsAreElementBounds(b, k);
  }

  lemma AboveByKeys(a: Tree, b: Tree, v: int, k: int)
    requires Elements(a) <= Elements(b) + {v} && AllAbove(b, k) && k < v
    ensures AllAbove(a, k)
  {
    BoundsAreElementBounds(a, k);
    BoundsAreElementBounds(b, k);
  }

  /** A key on the wrong side of a bound is not in the subtree. */
  lemma {:induction false} BelowExcludes(t: Tree, k: int, x: int)
    requires AllBelow(t, k) && k <= x
    ensures x !in Elements(t)
  {
    if t.Node? {
      BelowExcludes(t.left, k, x);
      BelowExcludes(t.right, k, x);
    }
  }

  lemma {:induction false} AboveExcludes(t: Tree, k: int, x: int)
    requires AllAbove(t, k) && x <= k
    ensures x !in Elements(t)
  {
    if t.Node? {
      AboveExcludes(t.left, k, x);
      AboveExcludes(t.right, k, x);
    }
  }

  /** In a search tree the keys are distinct, so the node count is the number
      of keys. */
  lemma {:induction false} SizeIsCardinality(t: Tree)
    requires Bst(t)
    ensures NodeCount(t) == |Elements(t)|
  {
    if t.Node? {
      SizeIsCardinality(t.left);
      SizeIsCardinality(t.right);
      var L, R := Elements(t.left), Elements(t.right);
      assert L !! R by {
        forall x | x in L ensures x !in R {
          BoundsAreElementBounds(t.left, t.value);
          AboveExcludes(t.right, t.value, x);
        }
      }
      BelowExcludes(t.left, t.value, t.value);
      AboveExcludes(t.right, t.value, t.value);
      assert Elements(t) == (L + R) + {t.value};
    }
  }

  /** `FindMin` yields the least key of a search tree. */
  lemma {:induction false} FindMinIsMinimum(t: Tree)
    requires t.Node? && Bst(t)
    ensures FindMin(t) in Elements(t)
    ensures forall x | x in Elements(t) :: FindMin(t) <= x
  {
    BoundsAreElementBounds(t.left, t.value);
    BoundsAreElementBounds(t.right, t.value);
    if t.left.Node? {
      FindMinIsMinimum(t.left);
    }
  }

  // ---------------------------------------------------------------------------
  // Rebalancing

  /** Both rotations keep the keys, and keep the search-tree ordering. */
  lemma LeftRotationKeepsOrder(node: Tree)
    requires node.Node? && node.right.Node? && WellFormed(node.left) && WellFormed(node.right)
    ensures Elements(LeftRotation(node)) == Elements(node)
    ensures Bst(node) ==> Bst(LeftRotation(node))
  {
    var r := node.right;
    var inner := Update(node.(right := r.left));
    var top := LeftRotation(node);
    assert top.value == r.value && top.left == inner && top.right == r.right;
    assert inner.value == node.value && inner.left == node.left && inner.right == r.left;
    assert Elements(inner) == Elements(node.left) + {node.value} + Elements(r.left);
    assert Elements(top) == Elements(node) by {
      assert Elements(node) == Elements(node.left) + {node.value} + Elements(r);
      assert Elements(r) == Elements(r.left) + {r.value} + Elements(r.right);
    }
    if Bst(node) {
      assert Bst(r) && AllAbove(r, node.value) && node.value < r.value;
      assert AllAbove(r.left, node.value) && AllBelow(r.left, r.value);
      BelowWeakens(node.left, node.value, r.value);
      assert Bst(inner);
      assert AllBelow(inner, r.value);
      assert Bst(top);
    }
  }

  lemma RightRotationKeepsOrder(node: Tree)
    requires node.Node? && node.left.Node? && WellFormed(node.left) && WellFormed(node.right)
    ensures Elements(RightRotation(node)) == Elements(node)
    ensures Bst(node) ==> Bst(RightRotation(node))
  {
    var l := node.left;
    var inner := Update(node.(left := l.right));
    var top := RightRotation(node);
    assert top.value == l.value && top.right == inner && top.left == l.left;
    assert inner.value == node.value && inner.right == node.right && inner.left == l.right;
    assert Elements(inner) == Elements(l.right) + {node.value} + Elements(node.right);
    assert Elements(top) == Elements(node) by {
      assert Elements(node) == Elements(l) + {node.value} + Elements(node.right);
      assert Elements(l) == Elements(l.left) + {l.value} + Elements(l.right);
    }
    if Bst(node) {
      assert Bst(l) && AllBelow(l, node.value) && l.value < node.value;
      assert AllBelow(l.right, node.value) && AllAbove(l.right, l.value);
      AboveWeakens(node.right, l.value, node.value);
      assert Bst(inner);
      assert AllAbove(inner, l.value);
      assert Bst(top);
    }
  }

  /** Left-left case: one right rotation leaves every balance factor in
      {-1, 0, +1}, and the subtree at most one level shorter. */
  lemma LeftLeftCaseBalances(node: Tree)
    requires node.Node? && WellFormed(node) && node.bf == -2 && node.left.bf <= 0
    requires BalanceFactorsValid(node.left) && BalanceFactorsValid(node.right)
    ensures BalanceFactorsValid(Balance(node))
    ensures HeightOf(node) - 1 <= HeightOf(Balance(node)) <= HeightOf(node)
  {
    var l := node.left;
    assert WellFormed(l);
    var inner := Update(node.(left := l.right));
    assert Balance(node) == RightRotation(node) == Update(l.(right := inner));
  }

  /** Left-right case: a left rotation of the left child, then a right
      rotation of the node, leaves a perfectly balanced top one level shorter. */
  lemma LeftRightCaseBalances(node: Tree)
    requires node.Node? && WellFormed(node) && node.bf == -2 && node.left.bf > 0
    requires BalanceFactorsValid(node.left) && BalanceFactorsValid(node.right)
    ensures BalanceFactorsValid(Balance(node))
    ensures HeightOf(Balance(node)) == HeightOf(node) - 1
  {
    var l := node.left;
    assert WellFormed(l);
    var lr := l.right;
    assert WellFormed(lr);
    var a := Update(l.(right := lr.left));
    var b := Update(node.(left := lr.right));
    var h := HeightOf(node.right);
    assert HeightOf(l) == h + 2 && HeightOf(l.left) == h && HeightOf(lr) == h + 1;
    assert h - 1 <= HeightOf(lr.left) <= h && h - 1 <= HeightOf(lr.right) <= h;
    assert HeightOf(a) == h + 1 && HeightOf(b) == h + 1;
    var rotated := LeftRotation(l);
    assert rotated.left == a && rotated.right == lr.right;
    var top := Balance(node);
    assert top == RightRotation(node.(left := rotated));
    assert top.left == a && top.right == b;
    assert top.height == 1 + Max(HeightOf(a), HeightOf(b)) && top.bf == HeightOf(b) - HeightOf(a);
  }

  lemma RightRightCaseBalances(node: Tree)
    requires node.Node? && WellFormed(node) && node.bf == 2 && node.right.bf >= 0
    requires BalanceFactorsValid(node.left) && BalanceFactorsValid(node.right)
    ensures BalanceFactorsValid(Balance(node))
    ensures HeightOf(node) - 1 <= HeightOf(Balance(node)) <= HeightOf(node)
  {
    var r := node.right;
    assert WellFormed(r);
    var inner := Update(node.(right := r.left));
    assert Balance(node) == LeftRotation(node) == Update(r.(left := inner));
  }

  lemma RightLeftCaseBalances(node: Tree)
    requires node.Node? && WellFormed(node) && node.bf == 2 && node.right.bf < 0
    requires BalanceFactorsValid(node.left) && BalanceFactorsValid(node.right)
    ensures BalanceFactorsValid(Balance(node))
    ensures HeightOf(Balance(node)) == HeightOf(node) - 1
  {
    var r := node.right;
    assert WellFormed(r);
    var rl := r.left;
    assert WellFormed(rl);
    var a := Update(node.(right := rl.left));
    var b := Update(r.(left := rl.right));
    var h := HeightOf(node.left);
    assert HeightOf(r) == h + 2 && HeightOf(r.right) == h && HeightOf(rl) == h + 1;
    assert h - 1 <= HeightOf(rl.left) <= h && h - 1 <= HeightOf(rl.right) <= h;
    assert HeightOf(a) == h + 1 && HeightOf(b) == h + 1;
    var rotated := RightRotation(r);
    assert rotated.right == b && rotated.left == rl.left;
    var top := Balance(node);
    assert top == LeftRotation(node.(right := rotated));
    assert top.left == a && top.right == b;
    assert top.height == 1 + Max(HeightOf(a), HeightOf(b)) && top.bf == HeightOf(b) - HeightOf(a);
  }

  /** Whatever case applies, `balance` keeps the keys and the ordering. */
  lemma BalanceKeepsOrder(node: Tree)
    requires node.Node? && WellFormed(node)
    ensures Elements(Balance(node)) == Elements(node)
    ensures Bst(node) ==> Bst(Balance(node))
  {
    if node.bf < -1 {
      assert WellFormed(node.left);
      if node.left.bf <= 0 {
        RightRotationKeepsOrder(node);
      } else {
        LeftRotationKeepsOrder(node.left);
        SameKeysSameBounds(LeftRotation(node.left), node.left, node.value);
        RightRotationKeepsOrder(node.(left := LeftRotation(node.left)));
      }
    } else if node.bf > 1 {
      assert WellFormed(node.right);
      if node.right.bf >= 0 {
        LeftRotationKeepsOrder(node);
      } else {
        RightRotationKeepsOrder(node.right);
        SameKeysSameBounds(RightRotation(node.right), node.right, node.value);
        LeftRotationKeepsOrder(node.(right := RightRotation(node.right)));
      }
    }
  }

  /** One call of `balance` on a node whose subtrees are AVL trees and whose
      balance factor is at most 2 in size yields an AVL tree with the same keys.
      The height stays if no rotation was needed; otherwise it is the node's
      height or one less. */
  lemma BalanceRestores(node: Tree)
    requires node.Node? && WellFormed(node) && -2 <= node.bf <= 2
    requires BalanceFactorsValid(node.left) && BalanceFactorsValid(node.right)
    ensures BalanceFactorsValid(Balance(node))
    ensures -1 <= node.bf <= 1 ==> Balance(node) == node
    ensures HeightOf(node) - 1 <= HeightOf(Balance(node)) <= HeightOf(node)
  {
    if node.bf < -1 {
      if node.left.bf <= 0 {
        LeftLeftCaseBalances(node);
      } else {
        LeftRightCaseBalances(node);
      }
    } else if node.bf > 1 {
      if node.right.bf >= 0 {
        RightRightCaseBalances(node);
      } else {
        RightLeftCaseBalances(node);
      }
    }
  }

  /** The step every insertion and removal takes on the way back up: a node
      whose subtrees are AVL trees, ordered around its key, whose heights differ
      by at most 2, becomes an AVL tree with the same keys after `update` and
      `balance`; its height is that of the taller subtree plus at most one. */
  lemma RebalanceCorrect(n: Tree)
    requires n.Node? && IsAvl(n.left) && IsAvl(n.right)
    requires AllBelow(n.left, n.value) && AllAbove(n.right, n.value)
    requires -2 <= HeightOf(n.right) - HeightOf(n.left) <= 2
    ensures IsAvl(Balance(Update(n)))
    ensures Elements(Balance(Update(n))) == Elements(n.left) + {n.value} + Elements(n.right)
    ensures var hl, hr := HeightOf(n.left), HeightOf(n.right);
      && Max(hl, hr) <= HeightOf(Balance(Update(n))) <= Max(hl, hr) + 1
      && (-1 <= hr - hl <= 1 ==> HeightOf(Balance(Update(n))) == Max(hl, hr) + 1)
  {
    var u := Update(n);
    assert Bst(u);
    BalanceKeepsOrder(u);
    BalanceRestores(u);
  }

  // ---------------------------------------------------------------------------
  // Insertion and removal

  /** Inserting an absent key into an AVL tree gives an AVL tree holding one
      more key, at most one level taller. */
  lemma {:induction false} InsertCorrect(t: Tree, v: int)
    requires IsAvl(t) && v !in Elements(t)
    ensures IsAvl(InsertNode(t, v))
    ensures Elements(InsertNode(t, v)) == Elements(t) + {v}
    ensures HeightOf(t) <= HeightOf(InsertNode(t, v)) <= HeightOf(t) + 1
  {
    if t.Node? {
      if v < t.value {
        InsertCorrect(t.left, v);
        GrownLeftRebalances(t, InsertNode(t.left, v), v);
        assert InsertNode(t, v) == Balance(Update(t.(left := InsertNode(t.left, v))));
      } else {
        assert t.value < v;
        InsertCorrect(t.right, v);
        GrownRightRebalances(t, InsertNode(t.right, v), v);
        assert InsertNode(t, v) == Balance(Update(t.(right := InsertNode(t.right, v))));
      }
    }
  }

  /** The way back up after the left subtree of `t` became `nl` by gaining
      the key `v`, smaller than the node's key. */
  lemma GrownLeftRebalances(t: Tree, nl: Tree, v: int)
    requires IsAvl(t) && t.Node? && v < t.value
    requires IsAvl(nl) && Elements(nl) == Elements(t.left) + {v}
    requires HeightOf(t.left) <= HeightOf(nl) <= HeightOf(t.left) + 1
    ensures IsAvl(Balance(Update(t.(left := nl))))
    ensures Elements(Balance(Update(t.(left := nl)))) == Elements(t) + {v}
    ensures HeightOf(t) <= HeightOf(Balance(Update(t.(left := nl)))) <= HeightOf(t) + 1
  {
    var n := t.(left := nl);
    BelowByKeys(nl, t.left, v, t.value);
    RebalanceCorrect(n);
  }

  /** The mirror image of `GrownLeftRebalances`. */
  lemma GrownRightRebalances(t: Tree, nr: Tree, v: int)
    requires IsAvl(t) && t.Node? && t.value < v
    requires IsAvl(nr) && Elements(nr) == Elements(t.right) + {v}
    requires HeightOf(t.right) <= HeightOf(nr) <= HeightOf(t.right) + 1
    ensures IsAvl(Balance(Update(t.(right := nr))))
    ensures Elements(Balance(Update(t.(right := nr)))) == Elements(t) + {v}
    ensures HeightOf(t) <= HeightOf(Balance(Update(t.(right := nr)))) <= HeightOf(t) + 1
  {
    var n := t.(right := nr);
    AboveByKeys(nr, t.right, v, t.value);
    RebalanceCorrect(n);
  }

  /** Removing a key from an AVL tree gives an AVL tree without that key (and
      with every other key), at most one level shorter. */
  lemma {:induction false} RemoveCorrect(t: Tree, v: int)
    requires IsAvl(t)
    ensures IsAvl(RemoveNode(t, v))
    ensures Elements(RemoveNode(t, v)) == Elements(t) - {v}
    ensures HeightOf(t) - 1 <= HeightOf(RemoveNode(t, v)) <= HeightOf(t)
  {
    if t.Node? {
      if v < t.value {
        RemoveCorrect(t.left, v);
        ShrunkLeftRebalances(t, RemoveNode(t.left, v), v);
      } else if t.value < v {
        RemoveCorrect(t.right, v);
        ShrunkRightRebalances(t, RemoveNode(t.right, v), v);
      } else if t.left.Empty? {
        AboveExcludes(t.right, t.value, v);
        assert Elements(t) - {v} == Elements(t.right);
      } else if t.right.Empty? {
        BelowExcludes(t.left, t.value, v);
        assert Elements(t) - {v} == Elements(t.left);
      } else {
        var successor := FindMin(t.right);
        FindMinIsMinimum(t.right);
        RemoveCorrect(t.right, successor);
        SuccessorRebalances(t, RemoveNode(t.right, successor), successor);
      }
    }
  }

  /** The way back up after the left subtree of `t` became `nl` by losing the
      key `v`, smaller than the node's key. */
  lemma ShrunkLeftRebalances(t: Tree, nl: Tree, v: int)
    requires IsAvl(t) && t.Node? && v < t.value
    requires IsAvl(nl) && Elements(nl) == Elements(t.left) - {v}
    requires HeightOf(t.left) - 1 <= HeightOf(nl) <= HeightOf(t.left)
    ensures IsAvl(Balance(Update(t.(left := nl))))
    ensures Elements(Balance(Update(t.(left := nl)))) == Elements(t) - {v}
    ensures HeightOf(t) - 1 <= HeightOf(Balance(Update(t.(left := nl)))) <= HeightOf(t)
  {
    var n := t.(left := nl);
    BelowByKeys(nl, t.left, v, t.value);
    AboveExcludes(t.right, t.value, v);
    assert Elements(nl) + {t.value} + Elements(t.right) == Elements(t) - {v};
    RebalanceCorrect(n);
  }

  /** The mirror image of `ShrunkLeftRebalances`. */
  lemma ShrunkRightRebalances(t: Tree, nr: Tree, v: int)
    requires IsAvl(t) && t.Node? && t.value < v
    requires IsAvl(nr) && Elements(nr) == Elements(t.right) - {v}
    requires HeightOf(t.right) - 1 <= HeightOf(nr) <= HeightOf(t.right)
    ensures IsAvl(Balance(Update(t.(right := nr))))
    ensures Elements(Balance(Update(t.(right := nr)))) == Elements(t) - {v}
    ensures HeightOf(t) - 1 <= HeightOf(Balance(Update(t.(right := nr)))) <= HeightOf(t)
  {
    var n := t.(right := nr);
    AboveByKeys(nr, t.right, v, t.value);
    BelowExcludes(t.left, t.value, v);
    assert Elements(t.left) + {t.value} + Elements(nr) == Elements(t) - {v};
    RebalanceCorrect(n);
  }

  /** The way back up from a node with two children whose key was replaced by
      `s`, the least key of its right subtree, which was removed from there. */
  lemma SuccessorRebalances(t: Tree, nr: Tree, s: int)
    requires IsAvl(t) && t.Node? && t.right.Node?
    requires s in Elements(t.right) && forall x | x in Elements(t.right) :: s <= x
    requires IsAvl(nr) && Elements(nr) == Elements(t.right) - {s}
    requires HeightOf(t.right) - 1 <= HeightOf(nr) <= HeightOf(t.right)
    ensures IsAvl(Balance(Update(t.(value := s, right := nr))))
    ensures Elements(Balance(Update(t.(value := s, right := nr)))) == Elements(t) - {t.value}
    ensures HeightOf(t) - 1 <= HeightOf(Balance(Update(t.(value := s, right := nr)))) <= HeightOf(t)
  {
    var n := t.(value := s, right := nr);
    BoundsAreElementBounds(t.right, t.value);
    assert t.value < s;
    BelowWeakens(t.left, t.value, s);
    assert AllAbove(nr, s) by {
      BoundsAreElementBounds(nr, s);
    }
    BelowExcludes(t.left, t.value, t.value);
    AboveExcludes(t.right, t.value, t.value);
    assert Elements(t.left) + {s} + Elements(nr) == Elements(t) - {t.value};
    RebalanceCorrect(n);
  }

  // ---------------------------------------------------------------------------
  // Height bound

  /** The fewest nodes an AVL tree of height `h` can have:
      N(-1) = 0, N(0) = 1, N(h) = N(h - 1) + N(h - 2) + 1. */
  function MinNodes(h: int): nat
    requires h >= -1
    decreases h
  {
    if h == -1 then 0 else if h == 0 then 1 else MinNodes(h - 1) + MinNodes(h - 2) + 1
  }

  lemma {:induction false} MinNodesMonotone(a: int, b: int)
    requires -1 <= a <= b
    ensures MinNodes(a) <= MinNodes(b)
    decreases b
  {
    if a < b {
      MinNodesMonotone(a, b - 1);
    }
  }

  /** An AVL tree of height h has at least N(h) nodes, so its height is
      logarithmic in its size. */
  lemma {:induction false} AvlHeightBound(t: Tree)
    requires WellFormed(t) && BalanceFactorsValid(t)
    ensures HeightOf(t) >= -1
    ensures MinNodes(HeightOf(t)) <= NodeCount(t)
  {
    if t.Node? {
      AvlHeightBound(t.left);
      AvlHeightBound(t.right);
      var h: int := t.height;
      var hl, hr := HeightOf(t.left), HeightOf(t.right);
      if h >= 1 {
        if hl < hr {
          MinNodesMonotone(h - 2, hl);
        } else {
          MinNodesMonotone(h - 2, hr);
        }
        MinNodesMonotone(h - 1, Max(hl, hr));
      }
    }
  }

  /** N(h) + 1 >= 2^ceil((h + 1) / 2): the minimum-node recurrence grows at
      least like a power of two every second level. */
  lemma {:induction false} MinNodesExponential(h: int)
    requires h >= -1
    ensures Pow2((h + 2) / 2) <= MinNodes(h) + 1
    decreases h
  {
    if h >= 1 {
      MinNodesExponential(h - 2);
      MinNodesMonotone(h - 2, h - 1);
      assert (h + 2) / 2 == h / 2 + 1;
    }
  }

  /** Hence an AVL tree with n nodes and height h satisfies
      2^ceil((h + 1) / 2) <= n + 1, that is h <= 2 log2(n + 1) - 1. */
  lemma AvlHeightLogarithmic(t: Tree)
    requires WellFormed(t) && BalanceFactorsValid(t)
    ensures HeightOf(t) >= -1 && Pow2((HeightOf(t) + 2) / 2) <= NodeCount(t) + 1
  {
    var h := HeightOf(t);
    AvlHeightBound(t);
    MinNodesExponential(h);
    assert Pow2((h + 2) / 2) <= MinNodes(h) + 1 <= NodeCount(t) + 1;
  }

  // ---------------------------------------------------------------------------
  // The rotation-case scenarios

  /** Successive public insertions: a key already present is skipped. */
  function InsertAll(t: Tree, keys: seq<int>): (r: Tree)
    requires WellFormed(t)
    ensures WellFormed(r)
    decreases |keys|
  {
    if keys == [] then t
    else InsertAll(if keys[0] in Elements(t) then t else InsertNode(t, keys[0]), keys[1..])
  }

  function Leaf(v: int): Tree { Node(v, 0, 0, Empty, Empty) }

  /** Unfolding `InsertAll` for three distinct keys. */
  lemma InsertThree(a: int, b: int, c: int)
    requires a != b && a != c && b != c
    ensures InsertAll(Empty, [a, b, c]) == InsertNode(InsertNode(Leaf(a), b), c)
  {
    var t1 := InsertNode(Empty, a);
    assert t1 == Leaf(a);
    var t2 := InsertNode(t1, b);
    InsertCorrect(t1, b);
    assert c !in Elements(t2);
    assert [a, b, c][1..] == [b, c] && [b, c][1..] == [c] && [c][1..] == [];
    assert b !in Elements(t1);
    assert InsertAll(Empty, [a, b, c]) == InsertAll(t1, [b, c]);
    assert InsertAll(t1, [b, c]) == InsertAll(t2, [c]);
    assert InsertAll(t2, [c]) == InsertAll(InsertNode(t2, c), []);
  }

  /** The perfectly balanced tree of three keys. */
  function Triple(a: int, b: int, c: int): Tree { Node(b, 0, 1, Leaf(a), Leaf(c)) }

  /** Left-left case: inserting c, b, a (for keys a < b < c, such as 3, 2, 1)
      is repaired by one right rotation at c. */
  lemma LeftLeftScenario(a: int, b: int, c: int)
    requires a < b < c
    ensures InsertAll(Empty, [c, b, a]) == Triple(a, b, c)
  {
    InsertThree(c, b, a);
    var t2 := Node(c, -1, 1, Leaf(b), Empty);
    assert InsertNode(Leaf(c), b) == t2;
    var l := Node(b, -1, 1, Leaf(a), Empty);
    assert InsertNode(Leaf(b), a) == l;
    var u := Node(c, -2, 2, l, Empty);
    assert Update(t2.(left := l)) == u;
    assert Balance(u) == RightRotation(u) == Triple(a, b, c);
  }

  /** Left-right case: inserting c, a, b (such as 3, 1, 2) needs a left
      rotation at a, then a right rotation at c. */
  lemma LeftRightScenario(a: int, b: int, c: int)
    requires a < b < c
    ensures InsertAll(Empty, [c, a, b]) == Triple(a, b, c)
  {
    InsertThree(c, a, b);
    var t2 := Node(c, -1, 1, Leaf(a), Empty);
    assert InsertNode(Leaf(c), a) == t2;
    var l := Node(a, 1, 1, Empty, Leaf(b));
    assert InsertNode(Leaf(a), b) == l;
    var u := Node(c, -2, 2, l, Empty);
    assert Update(t2.(left := l)) == u;
    var rotated := Node(b, -1, 1, Leaf(a), Empty);
    assert LeftRotation(l) == rotated;
    assert Balance(u) == RightRotation(u.(left := rotated)) == Triple(a, b, c);
  }

  /** Right-right case: inserting a, b, c (such as 1, 2, 3) is repaired by one
      left rotation at a. */
  lemma RightRightScenario(a: int, b: int, c: int)
    requires a < b < c
    ensures InsertAll(Empty, [a, b, c]) == Triple(a, b, c)
  {
    InsertThree(a, b, c);
    var t2 := Node(a, 1, 1, Empty, Leaf(b));
    assert InsertNode(Leaf(a), b) == t2;
    var r := Node(b, 1, 1, Empty, Leaf(c));
    assert InsertNode(Leaf(b), c) == r;
    var u := Node(a, 2, 2, Empty, r);
    assert Update(t2.(right := r)) == u;
    assert Balance(u) == LeftRotation(u) == Triple(a, b, c);
  }

  /** Right-left case: inserting a, c, b (such as 1, 3, 2) needs a right
      rotation at c, then a left rotation at a. */
  lemma RightLeftScenario(a: int, b: int, c: int)
    requires a < b < c
    ensures InsertAll(Empty, [a, c, b]) == Triple(a, b, c)
  {
    InsertThree(a, c, b);
    var t2 := Node(a, 1, 1, Empty, Leaf(c));
    assert InsertNode(Leaf(a), c) == t2;
    var r := Node(c, -1, 1, Leaf(b), Empty);
    assert InsertNode(Leaf(c), b) == r;
    var u := Node(a, 2, 2, Empty, r);
    assert Update(t2.(right := r)) == u;
    var rotated := Node(b, 1, 1, Empty, Leaf(c));
    assert RightRotation(r) == rotated;
    assert Balance(u) == LeftRotation(u.(right := rotated)) == Triple(a, b, c);
  }

  // ---------------------------------------------------------------------------
  // The tree object

  /** `AVLTreeRecursive`: the root and the node count are the fields the public
      operations update. */
  class AvlTreeRecursive {
    var root: Tree
    var nodeCount: nat

    ghost predicate Valid()
      reads this
    {
      IsAvl(root) && nodeCount == |Elements(root)|
    }

    constructor ()
      ensures Valid() && root == Empty && nodeCount == 0
    {
      root := Empty;
      nodeCount := 0;
    }

    method Size() returns (n: nat)
      requires Valid()
      ensures n == |Elements(root)|
    {
      n := nodeCount;
    }

    method IsEmpty() returns (b: bool)
      requires Valid()
      ensures b <==> Elements(root) == {}
    {
      b := nodeCount == 0;
    }

    /** The root's cached height (-1 when empty); the tree is never taller
        than the minimum-node recurrence allows for its size. */
    method Height() returns (h: int)
      requires Valid()
      ensures h == ShapeHeight(root)
      ensures h >= -1 && MinNodes(h) <= nodeCount
      ensures Pow2((h + 2) / 2) <= nodeCount + 1
    {
      h := HeightOf(root);
      CachedHeightIsHeight(root);
      AvlHeightBound(root);
      AvlHeightLogarithmic(root);
      SizeIsCardinality(root);
    }

    /** `contains(value)`: `null` is never contained. */
    method Contains(v: Option<int>) returns (b: bool)
      requires Valid()
      ensures b <==> v.Some? && v.value in Elements(root)
    {
      if v.None? {
        return false;
      }
      b := ContainsNode(root, v.value);
    }

    /** `insert(value)`: `null` and present keys are refused with `false` and
        leave the tree unchanged; otherwise the key is added. */
    method Insert(v: Option<int>) returns (b: bool)
      requires Valid()
      modifies this
      ensures Valid()
      ensures b <==> v.Some? && v.value !in old(Elements(root))
      ensures b ==> Elements(root) == old(Elements(root)) + {v.value} && root == InsertNode(old(root), v.value)
      ensures !b ==> root == old(root) && nodeCount == old(nodeCount)
      ensures nodeCount == old(nodeCount) + (if b then 1 else 0)
    {
      if v.None? {
        return false;
      }
      if ContainsNode(root, v.value) {
        return false;
      }
      InsertCorrect(root, v.value);
      root := InsertNode(root, v.value);
      nodeCount := nodeCount + 1;
      b := true;
    }

    /** `remove(value)`: `null` and absent keys are refused with `false` and
        leave the tree unchanged; otherwise the key is removed. */
    method Remove(v: Option<int>) returns (b: bool)
      requires Valid()
      modifies this
      ensures Valid()
      ensures b <==> v.Some? && v.value in old(Elements(root))
      ensures b ==> Elements(root) == old(Elements(root)) - {v.value} && root == RemoveNode(old(root), v.value)
      ensures !b ==> root == old(root) && nodeCount == old(nodeCount)
      ensures nodeCount == old(nodeCount) - (if b then 1 else 0)
    {
      if v.None? {
        return false;
      }
      if !ContainsNode(root, v.value) {
        return false;
      }
      RemoveCorrect(root, v.value);
      root := RemoveNode(root, v.value);
      nodeCount := nodeCount - 1;
      b := true;
    }
  }
}
