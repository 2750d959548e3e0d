/** Insertion: the new key hangs as a red leaf where the search for it ended,
    then the bottom-up fix-up recolours and rotates until no red node has a
    red parent, and the root is painted black. */
module RedBlackInsert {
  import opened RedBlackCore
  import opened RedBlackSearch

  /** The state the fix-up loop keeps: `z` is red, its subtree keeps the red
      rule and is balanced, and its ancestors keep every rule except that
      `z`'s parent may be red as well. */
  ghost predicate Pending(z: Tree, ctx: Path) {
    && z.Node? && z.color == Red && RedOk(z) && Balanced(z)
    && CtxBalanced(ctx, BH(z)) && CtxRedOk(ctx, Black) && RootFrameBlack(ctx)
  }

  /** `z` and its parent are both red; the parent is then not the root. */
  predicate RedParent(ctx: Path) {
    |ctx| >= 2 && ctx[0].color == Red
  }

  /** What the fix-up state says about the parent's and grandparent's frames. */
  lemma PendingFrames(z: Tree, ctx: Path)
    requires Pending(z, ctx) && RedParent(ctx)
    ensures var p, g := ctx[0], ctx[1];
      && RedOk(p.sibling) && ColorOf(p.sibling) == Black && Balanced(p.sibling) && BH(p.sibling) == BH(z)
      && g.color == Black && RedOk(g.sibling) && Balanced(g.sibling) && BH(g.sibling) == BH(z)
      && CtxRedOk(ctx[2..], Black) && CtxBalanced(ctx[2..], BH(z) + 1) && RootFrameBlack(ctx[2..])
  {
    assert ctx[1..][0] == ctx[1] && ctx[1..][1..] == ctx[2..];
    assert CtxRedOk(ctx[1..], Red);
    assert CtxBalanced(ctx[1..], BH(z));
    if |ctx| > 2 {
      assert ctx[2..][|ctx[2..]| - 1] == ctx[|ctx| - 1];
    }
  }

  /** The red-uncle case: the parent and the uncle turn black, the
      grandparent red, and the grandparent becomes the new `z`. */
  function RecolorUp(z: Tree, ctx: Path): (r: (Tree, Path))
    requires Pending(z, ctx) && RedParent(ctx) && ColorOf(ctx[1].sibling) == Red
    ensures Pending(r.0, r.1) && |r.1| == |ctx| - 2
    ensures Inorder(Plug(r.0, r.1)) == Inorder(Plug(z, ctx))
  {
    var p, g := ctx[0], ctx[1];
    var parent := Attach(Frame(p.dir, Black, p.value, p.sibling), z);
    var grand := Attach(Frame(g.dir, Red, g.value, Blacken(g.sibling)), parent);
    PendingFrames(z, ctx);
    NodeOnFacts(p.dir, Black, z, p.value, p.sibling);
    NodeOnFacts(g.dir, Red, parent, g.value, Blacken(g.sibling));
    PlugTwo(z, ctx);
    SameKeysPlug(grand, Attach(g, Attach(p, z)), ctx[2..]);
    (grand, ctx[2..])
  }

  /** The black-uncle case with `z` an inner grandchild: rotating the parent
      makes the old parent the new `z`, an outer grandchild. */
  function Straighten(z: Tree, ctx: Path): (r: (Tree, Path))
    requires Pending(z, ctx) && RedParent(ctx) && ctx[0].dir != ctx[1].dir
    ensures Pending(r.0, r.1) && |r.1| == |ctx| && r.1[1..] == ctx[1..]
    ensures r.1[0].color == Red && r.1[0].dir == ctx[1].dir
    ensures Inorder(Plug(r.0, r.1)) == Inorder(Plug(z, ctx))
  {
    var p, d := ctx[0], ctx[1].dir;
    var z' := NodeOn(p.dir, Red, Child(z, d), p.value, p.sibling);
    var f := Frame(d, Red, z.value, Child(z, p.dir));
    var ctx' := [f] + ctx[1..];
    assert ctx'[0] == f && ctx'[1..] == ctx[1..];
    SameKeysPlug(Attach(f, z'), Attach(p, z), ctx[1..]);
    (z', ctx')
  }

  /** The black-uncle case with `z` an outer grandchild: the parent turns
      black, the grandparent red, and the grandparent is rotated down to the
      uncle's side; no red node has a red child any more. */
  function Rotate(z: Tree, ctx: Path): (r: (Tree, Path))
    requires Pending(z, ctx) && RedParent(ctx) && ctx[0].dir == ctx[1].dir
    requires ColorOf(ctx[1].sibling) == Black
    ensures Fits(r.0, r.1) && r.0 == z && |r.1| == |ctx| - 1 && r.1[0].color == Black
    ensures Inorder(Plug(r.0, r.1)) == Inorder(Plug(z, ctx))
  {
    var p, g := ctx[0], ctx[1];
    var f := Frame(p.dir, Black, p.value, NodeOn(p.dir, Red, p.sibling, g.value, g.sibling));
    var ctx' := [f] + ctx[2..];
    assert ctx'[0] == f && ctx'[1..] == ctx[2..];
    PendingFrames(z, ctx);
    NodeOnFacts(p.dir, Red, p.sibling, g.value, g.sibling);
    assert ctx'[|ctx'| - 1].color == if |ctx| == 2 then Black else ctx[|ctx| - 1].color;
    PlugTwo(z, ctx);
    SameKeysPlug(Attach(f, z), Attach(g, Attach(p, z)), ctx[2..]);
    (z, ctx')
  }

  /** After the loop: the tree put back together, its root painted black. */
  function Settle(z: Tree, ctx: Path): (r: Tree)
    requires Pending(z, ctx) && !RedParent(ctx)
    ensures RedOk(r) && Balanced(r) && ColorOf(r) == Black
    ensures Inorder(r) == Inorder(Plug(z, ctx))
  {
    CtxRedOkUnderBlack(ctx, Red);
    PlugRedOk(z, ctx);
    PlugBalanced(z, ctx);
    BlackenKeeps(Plug(z, ctx));
    Blacken(Plug(z, ctx))
  }

  /** The insert fix-up loop: while `z`'s parent is red, apply the case that
      matches the uncle's colour and `z`'s side; finally blacken the root. */
  function InsertFixUp(z: Tree, ctx: Path): (r: Tree)
    requires Pending(z, ctx)
    ensures RedOk(r) && Balanced(r) && ColorOf(r) == Black
    ensures Inorder(r) == Inorder(Plug(z, ctx))
    decreases |ctx|
  {
    if RedParent(ctx) then
      if ColorOf(ctx[1].sibling) == Red then
        var s := RecolorUp(z, ctx);
        InsertFixUp(s.0, s.1)
      else
        var s := if ctx[0].dir == ctx[1].dir then (z, ctx) else Straighten(z, ctx);
        assert s.1[1] == ctx[1];
        var u := Rotate(s.0, s.1);
        CtxRedOkBlack(u.1, Red);
        InsertFixUp(u.0, u.1)
    else
      Settle(z, ctx)
  }

  /** The new red leaf at the empty child where the search ended fits the
      fix-up's starting state, and the fix-up from there adds `v` to the keys
      in order. */
  lemma InsertAtHole(t: Tree, v: int)
    requires IsRedBlack(t) && Locate(t, [], v).0.Nil?
    ensures var ctx := Locate(t, [], v).1;
      && Pending(Node(Red, Nil, v, Nil), ctx)
      && var r := InsertFixUp(Node(Red, Nil, v, Nil), ctx);
      && Sorted(Inorder(r))
      && Keys(r) == Keys(t) + {v}
      && |Inorder(r)| == |Inorder(t)| + 1
  {
    var ctx := Locate(t, [], v).1;
    LocateFits(t, [], v);
    LocateFromRoot(t, v);
    var leaf := Node(Red, Nil, v, Nil);
    InorderPlug(leaf, ctx);
    assert Inorder(leaf) == [v];
    InsertedKeys(Before(ctx), v, After(ctx));
  }

  /** `insert(v)` on a red-black tree: unchanged when `v` is already a key;
      otherwise `v` joins the keys, which stay in order, and the tree stays
      red-black. */
  function InsertTree(t: Tree, v: int): (r: Tree)
    requires IsRedBlack(t)
    ensures IsRedBlack(r)
    ensures v in Keys(t) ==> r == t
    ensures v !in Keys(t) ==> |Inorder(r)| == |Inorder(t)| + 1
    ensures Keys(r) == Keys(t) + {v}
  {
    var s := Locate(t, [], v);
    LocateFromRoot(t, v);
    if s.0.Node? then t
    else
      InsertAtHole(t, v);
      InsertFixUp(Node(Red, Nil, v, Nil), s.1)
  }

  /** Putting `v` between the keys before and after its place. */
  lemma InsertedKeys(b: seq<int>, v: int, a: seq<int>)
    requires Sorted(b + a) && AllBelow(b, v) && AllAbove(a, v)
    ensures Sorted(b + [v] + a)
    ensures (set x | x in b + [v] + a) == (set x | x in b + a) + {v}
    ensures |b + [v] + a| == |b + a| + 1
  {
    SortedWith(b, v, a);
  }
}
