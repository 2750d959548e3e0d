/** The search-order check the red-black tree's tests run after each random
    insertion: first as written, comparing each node with its own children
    only, then as intended, comparing it with every key below it. */
module RedBlackOrderCheck {
  import opened RedBlackCore

  /** As written: a left child's key is smaller than its parent's and a right
      child's key larger, at every node. */
  predicate ChildOrder(t: Tree) {
    t.Nil? ||
    (&& (t.left.Nil? || t.left.value < t.value)
     && (t.right.Nil? || t.right.value > t.value)
     && ChildOrder(t.left) && ChildOrder(t.right))
  }

  /** The child-only check accepts a tree that is not a search tree: 3 sits
      below the left child 1 of the root 2, so the keys in order are 1, 3, 2. */
  lemma ChildOrderMissesGrandchildren()
    ensures var t := Node(Black, Node(Red, Nil, 1, Node(Black, Nil, 3, Nil)), 2, Nil);
      ChildOrder(t) && !Sorted(Inorder(t))
  {
    var t := Node(Black, Node(Red, Nil, 1, Node(Black, Nil, 3, Nil)), 2, Nil);
    assert Inorder(t) == [1, 3, 2];
    assert Inorder(t)[1] == 3 && Inorder(t)[2] == 2;
  }

  /** As intended: every key of the left subtree is smaller than the node's
      key and every key of the right subtree larger, at every node. */
  predicate SearchOrder(t: Tree) {
    t.Nil? ||
    (&& (forall x | x in Inorder(t.left) :: x < t.value)
     && (forall x | x in Inorder(t.right) :: t.value < x)
     && SearchOrder(t.left) && SearchOrder(t.right))
  }

  /** The intended check holds exactly when the keys are in increasing order. */
  lemma {:induction false} SearchOrderIsSorted(t: Tree)
    ensures SearchOrder(t) <==> Sorted(Inorder(t))
  {
    if t.Node? {
      var l, r := Inorder(t.left), Inorder(t.right);
      SearchOrderIsSorted(t.left);
      SearchOrderIsSorted(t.right);
      if SearchOrder(t) {
        SortedJoin(l, t.value, r);
      }
      if Sorted(Inorder(t)) {
        SortedParts(l, t.value, r);
      }
    }
  }

  /** The intended check implies the written one. */
  lemma {:induction false} SearchOrderChecksChildren(t: Tree)
    requires SearchOrder(t)
    ensures ChildOrder(t)
  {
    if t.Node? {
      SearchOrderChecksChildren(t.left);
      SearchOrderChecksChildren(t.right);
      if t.left.Node? {
        assert t.left.value in Inorder(t.left);
      }
      if t.right.Node? {
        assert t.right.value in Inorder(t.right);
      }
    }
  }
}
