/** The descent shared by `insert`, `delete` and `contains`: from the root,
    left when the key sought is smaller, right when it is larger, until the
    node holding it or the `NIL` where it would hang. */
module RedBlackSearch {
  import opened RedBlackCore

  /** The position the search for `v` reaches from `cur` under `ctx`: the node
      holding `v`, or the empty child where `v` belongs. */
  function Locate(cur: Tree, ctx: Path, v: int): (r: (Tree, Path))
    ensures Plug(r.0, r.1) == Plug(cur, ctx)
    ensures r.0.Nil? || r.0.value == v
    decreases cur
  {
    if cur.Nil? || cur.value == v then (cur, ctx)
    else if v < cur.value then
      PlugDown(cur, ctx, Left);
      Locate(cur.left, [Down(cur, Left)] + ctx, v)
    else
      PlugDown(cur, ctx, Right);
      Locate(cur.right, [Down(cur, Right)] + ctx, v)
  }

  /** The keys of a node in a sorted sequence lie on the proper sides of it. */
  lemma SortedAround(B: seq<int>, cur: Tree, A: seq<int>)
    requires cur.Node? && Sorted(B + Inorder(cur) + A)
    ensures AllBelow(B + Inorder(cur.left), cur.value) && AllAbove(Inorder(cur.right) + A, cur.value)
  {
    var L, R := Inorder(cur.left), Inorder(cur.right);
    assert B + Inorder(cur) + A == (B + L) + [cur.value] + (R + A);
    SortedParts(B + L, cur.value, R + A);
  }

  /** The keys before and after the position one level below `cur`. */
  lemma DownKeys(cur: Tree, ctx: Path, d: Dir)
    requires cur.Node?
    ensures var ctx' := [Down(cur, d)] + ctx;
      && Before(ctx') == (if d == Left then Before(ctx) else Before(ctx) + (Inorder(cur.left) + [cur.value]))
      && After(ctx') == (if d == Left then ([cur.value] + Inorder(cur.right)) + After(ctx) else After(ctx))
  {
    var ctx' := [Down(cur, d)] + ctx;
    assert ctx'[0] == Down(cur, d) && ctx'[1..] == ctx;
  }

  lemma AboveCons(x: int, r: seq<int>, a: seq<int>, v: int)
    requires v < x && AllAbove(r + a, x)
    ensures AllAbove(([x] + r) + a, v)
  {
    forall y | y in ([x] + r) + a ensures v < y {
      if y != x {
        assert y in r + a;
      }
    }
  }

  lemma BelowSnoc(b: seq<int>, l: seq<int>, x: int, v: int)
    requires x < v && AllBelow(b + l, x)
    ensures AllBelow(b + (l + [x]), v)
  {
    forall y | y in b + (l + [x]) ensures y < v {
      if y != x {
        assert y in b + l;
      }
    }
  }

  /** Going left from a key larger than `v` keeps the keys after the
      position larger than `v`. */
  lemma DownLeftBounds(cur: Tree, ctx: Path, v: int)
    requires cur.Node? && v < cur.value
    requires AllAbove(Inorder(cur.right) + After(ctx), cur.value)
    requires AllBelow(Before(ctx), v) && AllAbove(After(ctx), v)
    ensures var ctx' := [Down(cur, Left)] + ctx;
      AllBelow(Before(ctx'), v) && AllAbove(After(ctx'), v)
  {
    DownKeys(cur, ctx, Left);
    AboveCons(cur.value, Inorder(cur.right), After(ctx), v);
  }

  /** Going right from a key smaller than `v` keeps the keys before the
      position smaller than `v`. */
  lemma DownRightBounds(cur: Tree, ctx: Path, v: int)
    requires cur.Node? && cur.value < v
    requires AllBelow(Before(ctx) + Inorder(cur.left), cur.value)
    requires AllBelow(Before(ctx), v) && AllAbove(After(ctx), v)
    ensures var ctx' := [Down(cur, Right)] + ctx;
      AllBelow(Before(ctx'), v) && AllAbove(After(ctx'), v)
  {
    DownKeys(cur, ctx, Right);
    BelowSnoc(Before(ctx), Inorder(cur.left), cur.value, v);
  }

  /** In a search tree the search finds `v` exactly when `v` is a key, and
      otherwise stops where every key before the position is smaller than `v`
      and every key after it larger. */
  lemma {:induction false} LocateSorted(cur: Tree, ctx: Path, v: int)
    requires Sorted(Inorder(Plug(cur, ctx)))
    requires AllBelow(Before(ctx), v) && AllAbove(After(ctx), v)
    ensures var r := Locate(cur, ctx, v);
      && AllBelow(Before(r.1), v) && AllAbove(After(r.1), v)
      && (r.0.Node? <==> v in Inorder(Plug(cur, ctx)))
    decreases cur
  {
    InorderPlug(cur, ctx);
    if cur.Nil? {
      assert v !in Before(ctx) && v !in After(ctx);
    } else if cur.value == v {
      assert v in Inorder(cur);
    } else {
      SortedAround(Before(ctx), cur, After(ctx));
      if v < cur.value {
        DownLeftBounds(cur, ctx, v);
        PlugDown(cur, ctx, Left);
        LocateSorted(cur.left, [Down(cur, Left)] + ctx, v);
      } else {
        DownRightBounds(cur, ctx, v);
        PlugDown(cur, ctx, Right);
        LocateSorted(cur.right, [Down(cur, Right)] + ctx, v);
      }
    }
  }

  /** The search ends at a position of the same red-black tree. */
  lemma {:induction false} LocateFits(cur: Tree, ctx: Path, v: int)
    requires Fits(cur, ctx)
    ensures Fits(Locate(cur, ctx, v).0, Locate(cur, ctx, v).1)
    decreases cur
  {
    if cur.Node? && cur.value != v {
      var d := if v < cur.value then Left else Right;
      FitsDown(cur, ctx, d);
      LocateFits(Child(cur, d), [Down(cur, d)] + ctx, v);
    }
  }

  /** The search from the root of a search tree. */
  lemma LocateFromRoot(t: Tree, v: int)
    requires Sorted(Inorder(t))
    ensures var r := Locate(t, [], v);
      && Before(r.1) + Inorder(r.0) + After(r.1) == Inorder(t)
      && AllBelow(Before(r.1), v) && AllAbove(After(r.1), v)
      && (r.0.Node? <==> v in Keys(t))
      && (r.0.Nil? ==> Before(r.1) + After(r.1) == Inorder(t))
  {
    var r := Locate(t, [], v);
    LocateSorted(t, [], v);
    InorderPlug(r.0, r.1);
    if r.0.Nil? {
      var b, a := Before(r.1), After(r.1);
      assert Inorder(r.0) == [] && b + [] == b;
    }
  }
}
