/** The red-black tree object: its root and node count, with `insert`,
    `delete`, `contains`, `size`, `isEmpty` and `height`. Each descent and
    each fix-up is a loop, proved to compute the functions of the insert and
    delete modules. */
module RedBlackTree {
  import opened Wrappers
  import opened RedBlackCore
  import opened RedBlackSearch
  import opened RedBlackInsert
  import opened RedBlackDelete
  import opened Powers

  /** The number of edges on the longest path from the root: 0 for a single
      node, -1 when empty. */
  function TreeHeight(t: Tree): (h: int)
    ensures h >= -1
    ensures t.Node? <==> h >= 0
  {
    if t.Nil? then -1 else 1 + (if TreeHeight(t.left) < TreeHeight(t.right) then TreeHeight(t.right) else TreeHeight(t.left))
  }

  /** No path holds more than twice as many nodes as the black nodes on it,
      plus a red root. */
  lemma {:induction false} HeightByBlackHeight(t: Tree)
    requires RedOk(t) && Balanced(t)
    ensures TreeHeight(t) + 1 <= 2 * BH(t) + (if ColorOf(t) == Red then 1 else 0)
  {
    if t.Node? {
      HeightByBlackHeight(t.left);
      HeightByBlackHeight(t.right);
    }
  }

  /** A balanced tree holds at least 2^bh - 1 nodes. */
  lemma {:induction false} SizeByBlackHeight(t: Tree)
    requires Balanced(t)
    ensures Pow2(BH(t)) <= Count(t) + 1
  {
    if t.Node? {
      SizeByBlackHeight(t.left);
      SizeByBlackHeight(t.right);
      if t.color == Black {
        assert Pow2(BH(t)) == 2 * Pow2(BH(t.left));
      }
    }
  }

  lemma {:induction false} CountIsLength(t: Tree)
    ensures Count(t) == |Inorder(t)|
  {
    if t.Node? {
      CountIsLength(t.left);
      CountIsLength(t.right);
    }
  }

  /** A sorted sequence has no repeated key. */
  lemma {:induction false} SortedCard(s: seq<int>)
    requires Sorted(s)
    ensures |set x | x in s| == |s|
  {
    if s != [] {
      var rest := s[1..];
      assert Sorted(rest) by {
        forall i, j | 0 <= i < j < |rest| ensures rest[i] < rest[j] {
          assert rest[i] == s[i + 1] && rest[j] == s[j + 1];
        }
      }
      SortedCard(rest);
      assert s[0] !in rest by {
        forall i | 0 <= i < |rest| ensures rest[i] != s[0] {
          assert rest[i] == s[i + 1];
        }
      }
      assert s == [s[0]] + rest;
      assert (set x | x in s) == (set x | x in rest) + {s[0]};
    }
  }

  /** Height bound: a red-black tree of n keys and height h (in edges) has
      n + 1 >= 2^ceil((h + 1) / 2), that is h <= 2 log2(n + 1) - 1. */
  lemma HeightBound(t: Tree)
    requires IsRedBlack(t)
    ensures TreeHeight(t) >= -1 && Pow2((TreeHeight(t) + 2) / 2) <= |Keys(t)| + 1
  {
    var h, b := TreeHeight(t), BH(t);
    HeightByBlackHeight(t);
    assert (h + 2) / 2 <= b;
    SizeByBlackHeight(t);
    CountIsLength(t);
    SortedCard(Inorder(t));
    Pow2Monotone((h + 2) / 2, b);
  }

  class RedBlackTree {
    var root: Tree
    var nodeCount: nat

    ghost predicate Valid()
      reads this
    {
      IsRedBlack(root) && nodeCount == |Inorder(root)|
    }

    constructor ()
      ensures Valid() && root == Nil
    {
      root, nodeCount := Nil, 0;
    }

    /** `size()`: the number of keys. */
    method Size() returns (n: nat)
      requires Valid()
      ensures n == |Keys(root)|
    {
      SortedCard(Inorder(root));
      n := nodeCount;
    }

    /** `isEmpty()`: no keys. */
    method IsEmpty() returns (b: bool)
      requires Valid()
      ensures b <==> Keys(root) == {}
    {
      b := nodeCount == 0;
      if !b {
        assert Inorder(root)[0] in Keys(root);
      }
    }

    /** `height()`: the number of edges on the longest path (-1 when
        empty), at most 2 log2(n + 1) - 1 for n keys. */
    method Height() returns (h: int)
      requires Valid()
      ensures h == TreeHeight(root)
      ensures h >= -1 && Pow2((h + 2) / 2) <= |Keys(root)| + 1
    {
      HeightBound(root);
      h := TreeHeight(root);
    }

    /** The descent loop: the node holding `key`, or the empty child where it
        would hang, with the path down to it. */
    method Search(key: int) returns (cur: Tree, ctx: Path)
      requires Valid()
      ensures (cur, ctx) == Locate(root, [], key)
    {
      cur, ctx := root, [];
      while cur.Node? && cur.value != key
        invariant Locate(cur, ctx, key) == Locate(root, [], key)
        decreases cur
      {
        if key < cur.value {
          ctx := [Down(cur, Left)] + ctx;
          cur := cur.left;
        } else {
          ctx := [Down(cur, Right)] + ctx;
          cur := cur.right;
        }
      }
    }

    /** `contains(value)`: false for `null`, otherwise whether the value is a
        key. */
    method Contains(v: Option<int>) returns (b: bool)
      requires Valid()
      ensures v.None? ==> !b
      ensures v.Some? ==> (b <==> v.value in Keys(root))
    {
      if v.None? {
        return false;
      }
      var cur, _ := Search(v.value);
      LocateFromRoot(root, v.value);
      b := cur.Node?;
    }

    /** `insert(value)`: `null` is refused with an invalid-argument error and
        changes nothing; a present value gives false and changes nothing;
        otherwise the value becomes a key, the result is true, and the tree
        stays red-black. */
    method Insert(v: Option<int>) returns (r: Result<bool>)
      requires Valid()
      modifies this
      ensures Valid()
      ensures v.None? ==> r == Failure(IllegalArgumentException) && root == old(root)
      ensures v.Some? ==> r == Success(v.value !in Keys(old(root)))
      ensures v.Some? ==> Keys(root) == Keys(old(root)) + {v.value}
      ensures v.Some? ==> root == InsertTree(old(root), v.value)
    {
      if v.None? {
        return Failure(IllegalArgumentException);
      }
      var key := v.value;
      var cur, ctx := Search(key);
      LocateFromRoot(root, key);
      if cur.Node? {
        return Success(false);
      }
      InsertAtHole(root, key);
      ghost var after := InsertTree(root, key);
      assert after == InsertFixUp(Node(Red, Nil, key, Nil), ctx);
      root := InsertFixUpLoop(Node(Red, Nil, key, Nil), ctx);
      nodeCount := nodeCount + 1;
      r := Success(true);
    }

    /** `delete(value)`: false for `null` or an absent value, with no change;
        otherwise the value stops being a key, the result is true, and the
        tree stays red-black. */
    method Delete(v: Option<int>) returns (b: bool)
      requires Valid()
      modifies this
      ensures Valid()
      ensures v.None? ==> !b && root == old(root)
      ensures v.Some? ==> (b <==> v.value in Keys(old(root)))
      ensures v.Some? ==> Keys(root) == Keys(old(root)) - {v.value}
      ensures v.Some? ==> root == DeleteTree(old(root), v.value)
    {
      if v.None? {
        return false;
      }
      var key := v.value;
      var z, ctx := Search(key);
      LocateFromRoot(root, key);
      if z.Nil? {
        return false;
      }
      RemoveAtKeys(root, key);
      ghost var after := DeleteTree(root, key);
      assert after == RemoveAt(z, ctx);
      root := RemoveNode(z, ctx);
      nodeCount := nodeCount - 1;
      b := true;
    }
  }

  /** The insert fix-up loop: while the parent of `z` is red, recolour when
      the uncle is red, otherwise rotate (twice for an inner grandchild);
      then blacken the root. */
  method InsertFixUpLoop(z0: Tree, ctx0: Path) returns (r: Tree)
    requires Pending(z0, ctx0)
    ensures r == InsertFixUp(z0, ctx0)
  {
    var z, ctx := z0, ctx0;
    while RedParent(ctx)
      invariant Pending(z, ctx) && InsertFixUp(z, ctx) == InsertFixUp(z0, ctx0)
      decreases |ctx|
    {
      if ColorOf(ctx[1].sibling) == Red {
        var s := RecolorUp(z, ctx);
        z, ctx := s.0, s.1;
      } else {
        var s := if ctx[0].dir == ctx[1].dir then (z, ctx) else Straighten(z, ctx);
        assert s.1[1] == ctx[1];
        var u := Rotate(s.0, s.1);
        CtxRedOkBlack(u.1, Red);
        z, ctx := u.0, u.1;
      }
    }
    r := RedBlackInsert.Settle(z, ctx);
  }

  /** The delete fix-up loop: while `x` is black and not the root, turn a red
      sibling black, then either recolour the sibling and climb, or rotate
      (twice when only the near nephew is red) and stop; finally blacken
      `x`. */
  method DeleteFixUpLoop(x0: Tree, ctx0: Path) returns (r: Tree)
    requires Short(x0, ctx0)
    ensures r == DeleteFixUp(x0, ctx0)
  {
    var x, ctx := x0, ctx0;
    while DoublyBlack(x, ctx)
      invariant Short(x, ctx) && DeleteFixUp(x, ctx) == DeleteFixUp(x0, ctx0)
      decreases |ctx| + (if ColorOf(x) == Black then 1 else 0)
    {
      var s := if ColorOf(ctx[0].sibling) == Red then RedSiblingCase(x, ctx) else (x, ctx);
      ShortFrame(s.0, s.1);
      var w, d := s.1[0].sibling, s.1[0].dir;
      if ColorOf(w.left) == Black && ColorOf(w.right) == Black {
        var u := BlackNephewsCase(s.0, s.1);
        x, ctx := u.0, u.1;
      } else {
        var n := if ColorOf(Child(w, Flip(d))) == Black then NearNephewCase(s.0, s.1) else s;
        var u := FarNephewCase(n.0, n.1);
        x, ctx := u.0, u.1;
      }
    }
    r := RedBlackDelete.Settle(x, ctx);
  }

  /** Taking out `z`: a node with two children gives up its successor's key
      and the successor node is spliced out instead. */
  method RemoveNode(z: Tree, ctx: Path) returns (r: Tree)
    requires z.Node? && Fits(z, ctx)
    ensures r == RemoveAt(z, ctx)
  {
    if z.left.Nil? || z.right.Nil? {
      r := SpliceOut(z, ctx);
    } else {
      var y, path := Successor(z, ctx);
      SuccessorFits(z, ctx);
      SuccessorKeys(z, ctx);
      r := SpliceOut(y, path);
    }
  }

  /** Replacing `y`, which has at most one child, by that child, and running
      the delete fix-up when a black node left. */
  method SpliceOut(y: Tree, ctx: Path) returns (r: Tree)
    requires y.Node? && (y.left.Nil? || y.right.Nil?) && Fits(y, ctx)
    ensures r == Splice(y, ctx)
  {
    var x := if y.left.Nil? then y.right else y.left;
    if y.color == Black {
      BlackenKeeps(x);
      r := DeleteFixUpLoop(x, ctx);
    } else {
      NoBlackHeight(x);
      r := Plug(x, ctx);
    }
  }

  /** The successor of `z`, the leftmost node of its right subtree, found by
      a loop, and the path down to it once the successor's key has been
      copied into `z`. */
  method Successor(z: Tree, ctx: Path) returns (y: Tree, path: Path)
    requires z.Node? && z.right.Node?
    ensures y == LeftmostNode(z.right) && path == SuccessorPath(z, ctx)
  {
    y, path := z.right, [Down(z, Right)] + ctx;
    while y.left.Node?
      invariant y.Node? && LeftmostNode(y) == LeftmostNode(z.right)
      invariant LeftPath(y) + path == LeftPath(z.right) + ([Down(z, Right)] + ctx)
      decreases y
    {
      assert LeftPath(y) == LeftPath(y.left) + [Down(y, Left)];
      assert LeftPath(y.left) + ([Down(y, Left)] + path) == LeftPath(y) + path;
      path := [Down(y, Left)] + path;
      y := y.left;
    }
    assert LeftPath(y) == [] && path == LeftPath(z.right) + ([Down(z, Right)] + ctx);
    var k := |LeftPath(z.right)|;
    var f := Down(Node(z.color, z.left, y.value, z.right), Right);
    CopyIntoFrame(LeftPath(z.right), Down(z, Right), f, ctx);
    path := path[k := f];
  }

  lemma CopyIntoFrame(a: Path, f: Frame, g: Frame, c: Path)
    ensures (a + ([f] + c))[|a| := g] == a + ([g] + c)
  {
  }
}
