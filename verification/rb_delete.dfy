/** Deletion: the node to unlink is the one holding the key when it has an
    empty child, and otherwise its in-order successor, whose key is first
    copied into it. Unlinking a black node leaves its replacement `x` one
    black short; the bottom-up fix-up then recolours and rotates until the
    shortage is gone. */
module RedBlackDelete {
  import opened RedBlackCore
  import opened RedBlackSearch

  /** The state the fix-up loop keeps: every path through `x` has one black
      node fewer than its ancestors expect; painted black, `x` keeps the red
      rule; and its ancestors keep the red rule for a black subtree. */
  ghost predicate Short(x: Tree, ctx: Path) {
    && RedOk(Blacken(x)) && Balanced(x)
    && CtxBalanced(ctx, BH(x) + 1) && CtxRedOk(ctx, Black) && RootFrameBlack(ctx)
  }

  /** `x` is black and not the root: the shortage cannot be paid by painting
      `x` black. */
  predicate DoublyBlack(x: Tree, ctx: Path) {
    ctx != [] && ColorOf(x) == Black
  }

  /** What the fix-up state says about the parent's frame: the sibling is a
      node, one black higher than `x`. */
  lemma ShortFrame(x: Tree, ctx: Path)
    requires Short(x, ctx) && ctx != []
    ensures var p := ctx[0];
      && p.sibling.Node? && RedOk(p.sibling) && Balanced(p.sibling) && BH(p.sibling) == BH(x) + 1
      && (p.color == Red ==> ColorOf(p.sibling) == Black)
      && CtxRedOk(ctx[1..], p.color)
      && CtxBalanced(ctx[1..], BH(x) + 1 + (if p.color == Black then 1 else 0))
      && RootFrameBlack(ctx[1..])
  {
    if |ctx| > 1 {
      assert ctx[1..][|ctx[1..]| - 1] == ctx[|ctx| - 1];
    }
  }

  /** Case 1, red sibling: the sibling turns black, the parent red, and the
      parent is rotated down towards `x`; `x` then has a black sibling. */
  function RedSiblingCase(x: Tree, ctx: Path): (r: (Tree, Path))
    requires Short(x, ctx) && DoublyBlack(x, ctx) && ColorOf(ctx[0].sibling) == Red
    ensures Short(r.0, r.1) && DoublyBlack(r.0, r.1) && r.0 == x
    ensures |r.1| == |ctx| + 1 && r.1[0].color == Red && ColorOf(r.1[0].sibling) == Black
    ensures Inorder(Plug(r.0, r.1)) == Inorder(Plug(x, ctx))
  {
    var p, d := ctx[0], ctx[0].dir;
    var w := p.sibling;
    ShortFrame(x, ctx);
    var inner := Frame(d, Red, p.value, Child(w, d));
    var outer := Frame(d, Black, w.value, Child(w, Flip(d)));
    var ctx' := [inner, outer] + ctx[1..];
    assert ctx'[0] == inner && ctx'[1..][0] == outer && ctx'[1..][1..] == ctx[1..];
    assert ctx'[|ctx'| - 1].color == if |ctx| == 1 then Black else ctx[|ctx| - 1].color;
    PlugTwo(x, ctx');
    SameKeysPlug(Attach(outer, Attach(inner, x)), Attach(p, x), ctx[1..]);
    (x, ctx')
  }

  /** Case 2, black sibling with two black children: the sibling turns red
      and the parent becomes the new `x`. */
  function BlackNephewsCase(x: Tree, ctx: Path): (r: (Tree, Path))
    requires Short(x, ctx) && DoublyBlack(x, ctx)
    requires ctx[0].sibling.Node? && ctx[0].sibling.color == Black
    requires ColorOf(ctx[0].sibling.left) == Black && ColorOf(ctx[0].sibling.right) == Black
    ensures Short(r.0, r.1) && r.1 == ctx[1..] && ColorOf(r.0) == ctx[0].color
    ensures Inorder(Plug(r.0, r.1)) == Inorder(Plug(x, ctx))
  {
    var p, w := ctx[0], ctx[0].sibling;
    ShortFrame(x, ctx);
    var w' := Node(Red, w.left, w.value, w.right);
    var x' := NodeOn(p.dir, p.color, x, p.value, w');
    NodeOnFacts(p.dir, p.color, x, p.value, w');
    NodeOnFacts(p.dir, Black, x, p.value, w');
    CtxRedOkBlack(ctx[1..], p.color);
    SameKeysPlug(x', Attach(p, x), ctx[1..]);
    (x', ctx[1..])
  }

  /** Case 3, black sibling whose child nearer `x` is red and whose far child
      is black: the near child turns black, the sibling red, and the sibling
      is rotated away from `x`; the new sibling's far child is red. */
  function NearNephewCase(x: Tree, ctx: Path): (r: (Tree, Path))
    requires Short(x, ctx) && DoublyBlack(x, ctx)
    requires ctx[0].sibling.Node? && ctx[0].sibling.color == Black
    requires ColorOf(Child(ctx[0].sibling, ctx[0].dir)) == Red
    requires ColorOf(Child(ctx[0].sibling, Flip(ctx[0].dir))) == Black
    ensures Short(r.0, r.1) && DoublyBlack(r.0, r.1) && r.0 == x && r.1[0].dir == ctx[0].dir
    ensures r.1[0].sibling.Node? && r.1[0].sibling.color == Black
    ensures ColorOf(Child(r.1[0].sibling, Flip(r.1[0].dir))) == Red
    ensures Inorder(Plug(r.0, r.1)) == Inorder(Plug(x, ctx))
  {
    var p, d := ctx[0], ctx[0].dir;
    var w := p.sibling;
    var w' := NearNephewRotation(w, d);
    ShortFrame(x, ctx);
    SwapSibling(x, ctx, w');
    var f := Frame(d, p.color, p.value, w');
    SameKeysPlug(Attach(f, x), Attach(p, x), ctx[1..]);
    (x, [f] + ctx[1..])
  }

  /** Case 4, black sibling whose far child is red: the sibling takes the
      parent's colour, the parent and the far child turn black, and the
      parent is rotated down towards `x`; the shortage is gone and the loop
      ends at the root. */
  function FarNephewCase(x: Tree, ctx: Path): (r: (Tree, Path))
    requires Short(x, ctx) && DoublyBlack(x, ctx)
    requires ctx[0].sibling.Node? && ctx[0].sibling.color == Black
    requires ColorOf(Child(ctx[0].sibling, Flip(ctx[0].dir))) == Red
    ensures Short(r.0, r.1) && r.1 == [] && RedOk(r.0)
    ensures Inorder(Plug(r.0, r.1)) == Inorder(Plug(x, ctx))
  {
    var p, d := ctx[0], ctx[0].dir;
    var w := p.sibling;
    ShortFrame(x, ctx);
    var low := NodeOn(d, Black, x, p.value, Child(w, d));
    var top := NodeOn(d, p.color, low, w.value, Blacken(Child(w, Flip(d))));
    NodeOnFacts(d, Black, x, p.value, Child(w, d));
    NodeOnFacts(d, p.color, low, w.value, Blacken(Child(w, Flip(d))));
    PlugRedOk(top, ctx[1..]);
    PlugBalanced(top, ctx[1..]);
    FarNephewKeys(x, p, p.color);
    SameKeysPlug(top, Attach(p, x), ctx[1..]);
    (Plug(top, ctx[1..]), [])
  }

  /** The double rotation of case 3 applied to the sibling `w`: its near
      child, red, becomes a black top whose far child, `w` itself, is now red;
      the keys, the red rule, the balance and the black height stay. */
  function NearNephewRotation(w: Tree, d: Dir): (w': Tree)
    requires w.Node? && w.color == Black && RedOk(w) && Balanced(w)
    requires ColorOf(Child(w, d)) == Red && ColorOf(Child(w, Flip(d))) == Black
    ensures w'.Node? && w'.color == Black && ColorOf(Child(w', Flip(d))) == Red
    ensures RedOk(w') && Balanced(w') && BH(w') == BH(w)
    ensures Inorder(w') == Inorder(w)
  {
    var n := Child(w, d);
    var down := NodeOn(d, Red, Child(n, Flip(d)), w.value, Child(w, Flip(d)));
    NodeOnChildren(w, d);
    NodeOnChildren(n, d);
    NodeOnFacts(d, Black, n, w.value, Child(w, Flip(d)));
    NodeOnFacts(d, Red, Child(n, d), n.value, Child(n, Flip(d)));
    NodeOnFacts(d, Red, Child(n, Flip(d)), w.value, Child(w, Flip(d)));
    NodeOnFacts(d, Black, Child(n, d), n.value, down);
    RotateKeys(d, w.color, n.color, Black, Red, Child(n, d), n.value, Child(n, Flip(d)), w.value, Child(w, Flip(d)));
    NodeOn(d, Black, Child(n, d), n.value, down)
  }

  /** Giving `x`'s parent a new black sibling subtree, as valid and as
      black-high as the old one, keeps the fix-up state. */
  lemma SwapSibling(x: Tree, ctx: Path, w': Tree)
    requires Short(x, ctx) && ctx != []
    requires RedOk(w') && Balanced(w') && BH(w') == BH(ctx[0].sibling) && ColorOf(w') == Black
    ensures Short(x, [Frame(ctx[0].dir, ctx[0].color, ctx[0].value, w')] + ctx[1..])
  {
    var ctx' := [Frame(ctx[0].dir, ctx[0].color, ctx[0].value, w')] + ctx[1..];
    ShortFrame(x, ctx);
    assert ctx'[0].sibling == w' && ctx'[1..] == ctx[1..];
    assert ctx'[|ctx'| - 1].color == ctx[|ctx| - 1].color;
  }

  /** The rotation of case 4 keeps the parent's keys in order. */
  lemma FarNephewKeys(x: Tree, p: Frame, c: Color)
    requires p.sibling.Node?
    ensures var w, d := p.sibling, p.dir;
      Inorder(NodeOn(d, c, NodeOn(d, Black, x, p.value, Child(w, d)), w.value, Blacken(Child(w, Flip(d)))))
      == Inorder(Attach(p, x))
  {
    var w, d := p.sibling, p.dir;
    var far := Blacken(Child(w, Flip(d)));
    NodeOnChildren(w, d);
    BlackenKeeps(Child(w, Flip(d)));
    RotateKeys(d, c, Black, p.color, w.color, x, p.value, Child(w, d), w.value, far);
    assert Inorder(NodeOn(d, w.color, Child(w, d), w.value, far)) == Inorder(w);
  }

  /** After the loop: `x`, painted black, put back in place. */
  function Settle(x: Tree, ctx: Path): (r: Tree)
    requires Short(x, ctx) && !DoublyBlack(x, ctx)
    ensures RedOk(r) && Balanced(r) && ColorOf(r) == Black
    ensures Inorder(r) == Inorder(Plug(x, ctx))
  {
    BlackenKeeps(x);
    PlugRedOk(Blacken(x), ctx);
    PlugBalanced(Blacken(x), ctx);
    PlugColor(Blacken(x), ctx);
    SameKeysPlug(Blacken(x), x, ctx);
    Plug(Blacken(x), ctx)
  }

  /** The delete fix-up loop: while `x` is black and not the root, apply the
      case that matches the sibling and its children; finally paint `x`
      black. */
  function DeleteFixUp(x: Tree, ctx: Path): (r: Tree)
    requires Short(x, ctx)
    ensures RedOk(r) && Balanced(r) && ColorOf(r) == Black
    ensures Inorder(r) == Inorder(Plug(x, ctx))
    decreases |ctx| + (if ColorOf(x) == Black then 1 else 0)
  {
    if DoublyBlack(x, ctx) then
      var s := if ColorOf(ctx[0].sibling) == Red then RedSiblingCase(x, ctx) else (x, ctx);
      ShortFrame(s.0, s.1);
      var w, d := s.1[0].sibling, s.1[0].dir;
      if ColorOf(w.left) == Black && ColorOf(w.right) == Black then
        var u := BlackNephewsCase(s.0, s.1);
        DeleteFixUp(u.0, u.1)
      else
        var s' := if ColorOf(Child(w, Flip(d))) == Black then NearNephewCase(s.0, s.1) else s;
        var u := FarNephewCase(s'.0, s'.1);
        DeleteFixUp(u.0, u.1)
    else
      Settle(x, ctx)
  }

  // ---------------------------------------------------------------------------
  // Unlinking a node

  /** The node with the least key in `t`. */
  function LeftmostNode(t: Tree): (r: Tree)
    requires t.Node?
    ensures r.Node? && r.left.Nil?
  {
    if t.left.Nil? then t else LeftmostNode(t.left)
  }

  /** The path from `t` down to its leftmost node, nearest ancestor first. */
  function LeftPath(t: Tree): Path
    requires t.Node?
  {
    if t.left.Nil? then [] else LeftPath(t.left) + [Down(t, Left)]
  }

  lemma {:induction false} LeftmostPlug(t: Tree, ctx: Path)
    requires t.Node?
    ensures Plug(LeftmostNode(t), LeftPath(t) + ctx) == Plug(t, ctx)
  {
    if t.left.Node? {
      LeftmostPlug(t.left, [Down(t, Left)] + ctx);
      assert LeftPath(t) + ctx == LeftPath(t.left) + ([Down(t, Left)] + ctx);
      PlugDown(t, ctx, Left);
    } else {
      assert LeftPath(t) + ctx == ctx;
    }
  }

  lemma {:induction false} LeftmostFits(t: Tree, ctx: Path)
    requires t.Node? && Fits(t, ctx)
    ensures Fits(LeftmostNode(t), LeftPath(t) + ctx)
  {
    if t.left.Node? {
      FitsDown(t, ctx, Left);
      LeftmostFits(t.left, [Down(t, Left)] + ctx);
      assert LeftPath(t) + ctx == LeftPath(t.left) + ([Down(t, Left)] + ctx);
    } else {
      assert LeftPath(t) + ctx == ctx;
    }
  }

  /** No key comes before the leftmost node. */
  lemma {:induction false} LeftPathBefore(t: Tree)
    requires t.Node?
    ensures Before(LeftPath(t)) == []
  {
    if t.left.Node? {
      LeftPathBefore(t.left);
      BeforeAfterConcat(LeftPath(t.left), [Down(t, Left)]);
      DownKeys(t, [], Left);
    }
  }

  /** The keys of `t` are the leftmost key, then the keys right of it. */
  lemma LeftmostKeys(t: Tree)
    requires t.Node?
    ensures var y := LeftmostNode(t);
      Inorder(t) == [y.value] + Inorder(y.right) + After(LeftPath(t))
  {
    var y := LeftmostNode(t);
    LeftmostPlug(t, []);
    assert LeftPath(t) + [] == LeftPath(t);
    InorderPlug(y, LeftPath(t));
    LeftPathBefore(t);
    assert Inorder(y.left) == [];
    LeftmostRegroup(Inorder(t), Before(LeftPath(t)), Inorder(y), After(LeftPath(t)), y.value, Inorder(y.right));
  }

  lemma LeftmostRegroup(t: seq<int>, b: seq<int>, i: seq<int>, a: seq<int>, m: int, y: seq<int>)
    requires t == b + i + a && b == [] && i == [] + [m] + y
    ensures t == [m] + y + a
  {
  }

  /** A balanced black subtree of black height zero is empty. */
  lemma NoBlackHeight(t: Tree)
    requires Balanced(t) && BH(t) == 0 && ColorOf(t) == Black
    ensures t.Nil?
  {
  }

  /** Unlinking `y`, a node with an empty child: its other child `x` takes
      its place; when `y` was black, `x` is one black short and the fix-up
      runs from there. */
  function Splice(y: Tree, ctx: Path): (r: Tree)
    requires y.Node? && (y.left.Nil? || y.right.Nil?) && Fits(y, ctx)
    ensures RedOk(r) && Balanced(r) && ColorOf(r) == Black
    ensures Inorder(r) == Before(ctx) + (Inorder(y.left) + Inorder(y.right)) + After(ctx)
  {
    var x := if y.left.Nil? then y.right else y.left;
    assert Inorder(x) == Inorder(y.left) + Inorder(y.right);
    InorderPlug(x, ctx);
    if y.color == Black then
      BlackenKeeps(x);
      DeleteFixUp(x, ctx)
    else
      NoBlackHeight(x);
      CtxRedOkBlack(ctx, Red);
      PlugRedOk(x, ctx);
      PlugBalanced(x, ctx);
      PlugColor(x, ctx);
      Plug(x, ctx)
  }

  lemma SuccessorRegroup(b: seq<int>, l: seq<int>, m: int, y: seq<int>, al: seq<int>, a: seq<int>,
                         b': seq<int>, a': seq<int>, r: seq<int>)
    requires b' == (b + (l + [m])) + [] && a' == al + a && r == [m] + y + al
    ensures b' + ([] + y) + a' == b + (l + r) + a
  {
  }

  /** The path to the successor of `z`, with the successor's key copied into
      `z`'s frame. */
  function SuccessorPath(z: Tree, ctx: Path): Path
    requires z.Node? && z.right.Node?
  {
    var y := LeftmostNode(z.right);
    LeftPath(z.right) + ([Down(Node(z.color, z.left, y.value, z.right), Right)] + ctx)
  }

  /** Copying a key leaves the colours, and so the fit, as they were. */
  lemma SuccessorFits(z: Tree, ctx: Path)
    requires z.Node? && z.right.Node? && Fits(z, ctx)
    ensures Fits(LeftmostNode(z.right), SuccessorPath(z, ctx))
  {
    var y := LeftmostNode(z.right);
    var z' := Node(z.color, z.left, y.value, z.right);
    assert Fits(z', ctx);
    FitsDown(z', ctx, Right);
    LeftmostFits(z.right, [Down(z', Right)] + ctx);
  }

  /** Unlinking the successor after copying its key leaves the keys of `z`'s
      subtrees, without `z`'s own key. */
  lemma SuccessorKeys(z: Tree, ctx: Path)
    requires z.Node? && z.right.Node?
    ensures var y, ctx' := LeftmostNode(z.right), SuccessorPath(z, ctx);
      Before(ctx') + (Inorder(y.left) + Inorder(y.right)) + After(ctx')
        == Before(ctx) + (Inorder(z.left) + Inorder(z.right)) + After(ctx)
  {
    var y := LeftmostNode(z.right);
    var z' := Node(z.color, z.left, y.value, z.right);
    LeftPathBefore(z.right);
    LeftmostKeys(z.right);
    BeforeAfterConcat(LeftPath(z.right), [Down(z', Right)] + ctx);
    DownKeys(z', ctx, Right);
    assert Inorder(y.left) == [];
    var ctx' := SuccessorPath(z, ctx);
    SuccessorRegroup(Before(ctx), Inorder(z.left), y.value, Inorder(y.right), After(LeftPath(z.right)), After(ctx),
                     Before(ctx'), After(ctx'), Inorder(z.right));
  }

  /** Removing the node `z` under `ctx`: when it has an empty child it is
      unlinked itself; otherwise its successor's key is copied into it and
      the successor, the leftmost node of its right subtree, is unlinked. */
  function RemoveAt(z: Tree, ctx: Path): (r: Tree)
    requires z.Node? && Fits(z, ctx)
    ensures RedOk(r) && Balanced(r) && ColorOf(r) == Black
    ensures Inorder(r) == Before(ctx) + (Inorder(z.left) + Inorder(z.right)) + After(ctx)
  {
    if z.left.Nil? || z.right.Nil? then Splice(z, ctx)
    else
      SuccessorFits(z, ctx);
      SuccessorKeys(z, ctx);
      Splice(LeftmostNode(z.right), SuccessorPath(z, ctx))
  }

  /** Taking `v` out of a sorted sequence of keys. */
  lemma RemovedKeys(b: seq<int>, v: int, a: seq<int>)
    requires Sorted(b + [v] + a)
    ensures Sorted(b + a)
    ensures (set x | x in b + a) == (set x | x in b + [v] + a) - {v}
    ensures |b + a| + 1 == |b + [v] + a|
  {
    SortedParts(b, v, a);
    SortedWithout(b, v, a);
  }

  lemma RemovedRegroup(b: seq<int>, l: seq<int>, v: int, r: seq<int>, a: seq<int>, t: seq<int>)
    requires t == b + (l + [v] + r) + a
    ensures t == (b + l) + [v] + (r + a)
    ensures b + (l + r) + a == (b + l) + (r + a)
  {
  }

  /** The node removal takes `v` out of the keys, in order. */
  lemma RemoveAtKeys(t: Tree, v: int)
    requires IsRedBlack(t) && Locate(t, [], v).0.Node?
    ensures var s := Locate(t, [], v);
      && Fits(s.0, s.1)
      && var r := RemoveAt(s.0, s.1);
      && Sorted(Inorder(r))
      && Keys(r) == Keys(t) - {v}
      && |Inorder(r)| + 1 == |Inorder(t)|
  {
    var s := Locate(t, [], v);
    var z := s.0;
    LocateFits(t, [], v);
    LocateFromRoot(t, v);
    var b, l, r, a := Before(s.1), Inorder(z.left), Inorder(z.right), After(s.1);
    RemovedRegroup(b, l, v, r, a, Inorder(t));
    RemovedKeys(b + l, v, r + a);
  }

  /** `delete(v)` on a red-black tree: unchanged when `v` is not a key;
      otherwise `v` leaves the keys, which stay in order, and the tree stays
      red-black. */
  function DeleteTree(t: Tree, v: int): (r: Tree)
    requires IsRedBlack(t)
    ensures IsRedBlack(r)
    ensures v !in Keys(t) ==> r == t
    ensures v in Keys(t) ==> |Inorder(r)| + 1 == |Inorder(t)|
    ensures Keys(r) == Keys(t) - {v}
  {
    var s := Locate(t, [], v);
    LocateFromRoot(t, v);
    if s.0.Nil? then t
    else
      RemoveAtKeys(t, v);
      RemoveAt(s.0, s.1)
  }
}
