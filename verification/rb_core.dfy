/** The red-black tree's nodes, the path from the root down to a position in
    the tree, and the red-black invariants.

    A node's `parent` back-reference is represented by the path itself: the
    frames of a `Path` are the ancestors of the current position, nearest
    first, each with the subtree hanging on its other side. The shared `NIL`
    sentinel is the `Nil` variant, which is black. */
module RedBlackCore {

  datatype Color = Red | Black

  datatype Tree = Nil | Node(color: Color, left: Tree, value: int, right: Tree)

  datatype Dir = Left | Right

  /** An ancestor of the current position: its colour and key, the side `dir`
      on which the path continues below it, and its child on the other side. */
  datatype Frame = Frame(dir: Dir, color: Color, value: int, sibling: Tree)

  /** The ancestors of a position, parent first, root last. */
  type Path = seq<Frame>

  function Flip(d: Dir): Dir {
    if d == Left then Right else Left
  }

  /** `NIL` is black. */
  function ColorOf(t: Tree): Color {
    if t.Nil? then Black else t.color
  }

  /** A node of colour `c` and key `v` whose child on side `d` is `near` and
      whose child on the other side is `far`. */
  function NodeOn(d: Dir, c: Color, near: Tree, v: int, far: Tree): Tree {
    if d == Left then Node(c, near, v, far) else Node(c, far, v, near)
  }

  function Child(t: Tree, d: Dir): Tree
    requires t.Node?
  {
    if d == Left then t.left else t.right
  }

  /** The frame a descent from `t` to its child on side `d` pushes. */
  function Down(t: Tree, d: Dir): Frame
    requires t.Node?
  {
    Frame(d, t.color, t.value, Child(t, Flip(d)))
  }

  /** The ancestor `f` with `t` as its child on the side the path took. */
  function Attach(f: Frame, t: Tree): Tree {
    NodeOn(f.dir, f.color, t, f.value, f.sibling)
  }

  /** The whole tree: `t` put back in place under its ancestors. */
  function Plug(t: Tree, ctx: Path): Tree
    decreases |ctx|
  {
    if ctx == [] then t else Plug(Attach(ctx[0], t), ctx[1..])
  }

  function Blacken(t: Tree): Tree {
    if t.Nil? then Nil else t.(color := Black)
  }

  // ---------------------------------------------------------------------------
  // Keys in order

  function Inorder(t: Tree): seq<int> {
    if t.Nil? then [] else Inorder(t.left) + [t.value] + Inorder(t.right)
  }

  /** The keys that come before the current position, in order. */
  function Before(ctx: Path): seq<int>
    decreases |ctx|
  {
    if ctx == [] then []
    else Before(ctx[1..]) + (if ctx[0].dir == Right then Inorder(ctx[0].sibling) + [ctx[0].value] else [])
  }

  /** The keys that come after the current position, in order. */
  function After(ctx: Path): seq<int>
    decreases |ctx|
  {
    if ctx == [] then []
    else (if ctx[0].dir == Left then [ctx[0].value] + Inorder(ctx[0].sibling) else []) + After(ctx[1..])
  }

  function Keys(t: Tree): set<int> {
    set x | x in Inorder(t)
  }

  function Count(t: Tree): nat {
    if t.Nil? then 0 else Count(t.left) + 1 + Count(t.right)
  }

  ghost predicate Sorted(s: seq<int>) {
    forall i, j | 0 <= i < j < |s| :: s[i] < s[j]
  }

  ghost predicate AllBelow(s: seq<int>, v: int) {
    forall x | x in s :: x < v
  }

  ghost predicate AllAbove(s: seq<int>, v: int) {
    forall x | x in s :: v < x
  }

  // ---------------------------------------------------------------------------
  // The red-black properties

  /** No red node has a red child. */
  ghost predicate RedOk(t: Tree) {
    t.Node? ==>
      && RedOk(t.left) && RedOk(t.right)
      && (t.color == Red ==> ColorOf(t.left) == Black && ColorOf(t.right) == Black)
  }

  /** The number of black nodes on the leftmost path below `t`, `t` included. */
  function BH(t: Tree): nat {
    if t.Nil? then 0 else BH(t.left) + (if t.color == Black then 1 else 0)
  }

  /** Every path from a node down to `NIL` meets the same number of black nodes. */
  ghost predicate Balanced(t: Tree) {
    t.Node? ==> Balanced(t.left) && Balanced(t.right) && BH(t.left) == BH(t.right)
  }

  /** A search tree with the red-black properties: the root is black, no red
      node has a red child, and all paths have the same black height. */
  ghost predicate IsRedBlack(t: Tree) {
    Sorted(Inorder(t)) && ColorOf(t) == Black && RedOk(t) && Balanced(t)
  }

  /** The ancestors keep the red rule if the position holds a subtree whose
      root has colour `c`. */
  ghost predicate CtxRedOk(ctx: Path, c: Color)
    decreases |ctx|
  {
    ctx != [] ==>
      && RedOk(ctx[0].sibling)
      && (ctx[0].color == Red ==> c == Black && ColorOf(ctx[0].sibling) == Black)
      && CtxRedOk(ctx[1..], ctx[0].color)
  }

  /** The ancestors are balanced if the position holds a subtree of black
      height `h`. */
  ghost predicate CtxBalanced(ctx: Path, h: nat)
    decreases |ctx|
  {
    ctx != [] ==>
      && Balanced(ctx[0].sibling) && BH(ctx[0].sibling) == h
      && CtxBalanced(ctx[1..], h + (if ctx[0].color == Black then 1 else 0))
  }

  /** The root, the last ancestor, is black. */
  ghost predicate RootFrameBlack(ctx: Path) {
    ctx != [] ==> ctx[|ctx| - 1].color == Black
  }

  /** `t` under `ctx` is a position in a red-black tree. */
  ghost predicate Fits(t: Tree, ctx: Path) {
    && RedOk(t) && CtxRedOk(ctx, ColorOf(t))
    && Balanced(t) && CtxBalanced(ctx, BH(t))
    && (ctx == [] ==> ColorOf(t) == Black)
    && RootFrameBlack(ctx)
  }

  /** The rules at a node, whichever side its children are on. */
  lemma NodeOnFacts(d: Dir, c: Color, near: Tree, v: int, far: Tree)
    ensures var n := NodeOn(d, c, near, v, far);
      && n.Node? && ColorOf(n) == c && n.value == v
      && Child(n, d) == near && Child(n, Flip(d)) == far
      && (RedOk(n) <==> RedOk(near) && RedOk(far) && (c == Red ==> ColorOf(near) == Black && ColorOf(far) == Black))
      && (Balanced(n) <==> Balanced(near) && Balanced(far) && BH(near) == BH(far))
      && (BH(near) == BH(far) ==> BH(n) == BH(near) + (if c == Black then 1 else 0))
  {
  }

  /** A node seen from side `d`. */
  lemma NodeOnChildren(t: Tree, d: Dir)
    requires t.Node?
    ensures t == NodeOn(d, t.color, Child(t, d), t.value, Child(t, Flip(d)))
  {
  }

  /** A rotation keeps the keys in order, whatever the colours. */
  lemma RotateKeys(d: Dir, c1: Color, c2: Color, c3: Color, c4: Color, a: Tree, x: int, b: Tree, y: int, c: Tree)
    ensures Inorder(NodeOn(d, c1, NodeOn(d, c2, a, x, b), y, c)) == Inorder(NodeOn(d, c3, a, x, NodeOn(d, c4, b, y, c)))
  {
    var A, B, C := Inorder(a), Inorder(b), Inorder(c);
    if d == Left {
      Regroup(A, [x], B, [y], C);
    } else {
      Regroup(C, [y], B, [x], A);
    }
  }

  lemma Regroup<T>(a: seq<T>, b: seq<T>, c: seq<T>, d: seq<T>, e: seq<T>)
    ensures (a + b + c) + d + e == a + b + (c + d + e)
  {
  }

  // ---------------------------------------------------------------------------
  // Paths

  /** Going down one level and back up again gives the same tree. */
  lemma AttachDown(t: Tree, d: Dir)
    requires t.Node?
    ensures Attach(Down(t, d), Child(t, d)) == t
  {
  }

  lemma PlugDown(t: Tree, ctx: Path, d: Dir)
    requires t.Node?
    ensures Plug(Child(t, d), [Down(t, d)] + ctx) == Plug(t, ctx)
  {
    var ctx' := [Down(t, d)] + ctx;
    assert ctx'[0] == Down(t, d) && ctx'[1..] == ctx;
    AttachDown(t, d);
  }

  /** The keys of the whole tree are those before the position, those of the
      subtree there, and those after it. */
  lemma {:induction false} InorderPlug(t: Tree, ctx: Path)
    ensures Inorder(Plug(t, ctx)) == Before(ctx) + Inorder(t) + After(ctx)
    decreases |ctx|
  {
    if ctx != [] {
      InorderPlug(Attach(ctx[0], t), ctx[1..]);
    }
  }

  /** Before and after along a path made of two pieces. */
  lemma {:induction false} BeforeAfterConcat(p: Path, q: Path)
    ensures Before(p + q) == Before(q) + Before(p)
    ensures After(p + q) == After(p) + After(q)
    decreases |p|
  {
    if p == [] {
      assert p + q == q;
    } else {
      assert (p + q)[0] == p[0] && (p + q)[1..] == p[1..] + q;
      BeforeAfterConcat(p[1..], q);
    }
  }

  lemma {:induction false} PlugRedOk(t: Tree, ctx: Path)
    requires RedOk(t) && CtxRedOk(ctx, ColorOf(t))
    ensures RedOk(Plug(t, ctx))
    decreases |ctx|
  {
    if ctx != [] {
      PlugRedOk(Attach(ctx[0], t), ctx[1..]);
    }
  }

  lemma {:induction false} PlugBalanced(t: Tree, ctx: Path)
    requires Balanced(t) && CtxBalanced(ctx, BH(t))
    ensures Balanced(Plug(t, ctx))
    decreases |ctx|
  {
    if ctx != [] {
      PlugBalanced(Attach(ctx[0], t), ctx[1..]);
    }
  }

  lemma {:induction false} PlugColor(t: Tree, ctx: Path)
    ensures ColorOf(Plug(t, ctx)) == if ctx == [] then ColorOf(t) else ctx[|ctx| - 1].color
    decreases |ctx|
  {
    if ctx != [] {
      PlugColor(Attach(ctx[0], t), ctx[1..]);
    }
  }

  /** A context fit for a red subtree is fit for a black one. */
  lemma CtxRedOkBlack(ctx: Path, c: Color)
    requires CtxRedOk(ctx, c)
    ensures CtxRedOk(ctx, Black)
  {
  }

  /** A context whose first ancestor is black takes a subtree of either colour. */
  lemma CtxRedOkUnderBlack(ctx: Path, c: Color)
    requires CtxRedOk(ctx, Black) && (ctx != [] ==> ctx[0].color == Black)
    ensures CtxRedOk(ctx, c)
  {
  }

  /** A position that fits yields a red-black tree once put back. */
  lemma PlugFits(t: Tree, ctx: Path)
    requires Fits(t, ctx)
    ensures RedOk(Plug(t, ctx)) && Balanced(Plug(t, ctx)) && ColorOf(Plug(t, ctx)) == Black
  {
    PlugRedOk(t, ctx);
    PlugBalanced(t, ctx);
    PlugColor(t, ctx);
  }

  /** Going down one level keeps the position fitting. */
  lemma FitsDown(t: Tree, ctx: Path, d: Dir)
    requires t.Node? && Fits(t, ctx)
    ensures Fits(Child(t, d), [Down(t, d)] + ctx)
  {
    var ctx' := [Down(t, d)] + ctx;
    assert ctx'[0] == Down(t, d) && ctx'[1..] == ctx;
    assert ctx'[|ctx'| - 1].color == if ctx == [] then t.color else ctx[|ctx| - 1].color;
  }

  lemma PlugTwo(t: Tree, ctx: Path)
    requires |ctx| >= 2
    ensures Plug(t, ctx) == Plug(Attach(ctx[1], Attach(ctx[0], t)), ctx[2..])
  {
    assert ctx[1..][0] == ctx[1] && ctx[1..][1..] == ctx[2..];
  }

  /** Replacing a subtree by one with the same keys in order keeps the keys
      of the whole tree. */
  lemma SameKeysPlug(a: Tree, b: Tree, ctx: Path)
    requires Inorder(a) == Inorder(b)
    ensures Inorder(Plug(a, ctx)) == Inorder(Plug(b, ctx))
  {
    InorderPlug(a, ctx);
    InorderPlug(b, ctx);
  }

  lemma BlackenKeeps(t: Tree)
    ensures Inorder(Blacken(t)) == Inorder(t) && ColorOf(Blacken(t)) == Black
    ensures RedOk(t) ==> RedOk(Blacken(t))
    ensures Balanced(t) ==> Balanced(Blacken(t))
  {
  }

  // ---------------------------------------------------------------------------
  // Sorted sequences

  lemma SortedParts(a: seq<int>, x: int, b: seq<int>)
    requires Sorted(a + [x] + b)
    ensures Sorted(a) && Sorted(b) && AllBelow(a, x) && AllAbove(b, x)
  {
    var s := a + [x] + b;
    assert forall i | 0 <= i < |a| :: s[i] == a[i];
    assert forall i | 0 <= i < |b| :: s[|a| + 1 + i] == b[i];
    assert s[|a|] == x;
    forall y | y in a ensures y < x {
      var i :| 0 <= i < |a| && a[i] == y;
      assert s[i] == y;
    }
    forall y | y in b ensures x < y {
      var i :| 0 <= i < |b| && b[i] == y;
      assert s[|a| + 1 + i] == y;
    }
  }

  /** Joining two sorted sequences around a key between them. */
  lemma SortedJoin(a: seq<int>, x: int, b: seq<int>)
    requires Sorted(a) && Sorted(b) && AllBelow(a, x) && AllAbove(b, x)
    ensures Sorted(a + [x] + b)
  {
    var s := a + [x] + b;
    forall i, j | 0 <= i < j < |s| ensures s[i] < s[j] {
      if j < |a| {
        assert s[i] == a[i] && s[j] == a[j];
      } else if j == |a| {
        assert s[i] == a[i] && s[i] in a;
      } else if i > |a| {
        assert s[i] == b[i - |a| - 1] && s[j] == b[j - |a| - 1];
      } else if i == |a| {
        assert s[j] == b[j - |a| - 1] && s[j] in b;
      } else {
        assert s[i] == a[i] && s[i] in a;
        assert s[j] == b[j - |a| - 1] && s[j] in b;
      }
    }
  }

  /** Leaving one key out of a sorted sequence keeps it sorted. */
  lemma SortedWithout(a: seq<int>, x: int, b: seq<int>)
    requires Sorted(a + [x] + b)
    ensures Sorted(a + b)
  {
    var s, t := a + [x] + b, a + b;
    forall i, j | 0 <= i < j < |t| ensures t[i] < t[j] {
      var i' := if i < |a| then i else i + 1;
      var j' := if j < |a| then j else j + 1;
      assert t[i] == s[i'] && t[j] == s[j'];
    }
  }

  /** Putting a key into a sorted sequence at a place where it fits. */
  lemma SortedWith(a: seq<int>, x: int, b: seq<int>)
    requires Sorted(a + b) && AllBelow(a, x) && AllAbove(b, x)
    ensures Sorted(a + [x] + b)
  {
    var t := a + b;
    assert Sorted(a) by {
      forall i, j | 0 <= i < j < |a| ensures a[i] < a[j] {
        assert t[i] == a[i] && t[j] == a[j];
      }
    }
    assert Sorted(b) by {
      forall i, j | 0 <= i < j < |b| ensures b[i] < b[j] {
        assert t[|a| + i] == b[i] && t[|a| + j] == b[j];
      }
    }
    SortedJoin(a, x, b);
  }
}
