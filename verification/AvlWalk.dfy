/** Walks from the root of an exact tree: what is known of the path taken and of the subtree reached. */
module AvlWalk {
  import opened Common
  import opened AvlTree
  import opened AvlPath
  import opened AvlMemory

  /** ctx is a path through tree to its subtree t, with cnt nodes before the subtree in key order. */
  predicate Trail(tree: Tree, ctx: Path, t: Tree, cnt: int) {
    && Plug(ctx, t) == tree && |Pre(ctx)| == cnt
    && Balanced(t) && BalancedPath(ctx, 0, Height(t))
    && Sized(t) && SizedPath(ctx, 0, Count(t))
    && |ctx| + Height(t) <= 45
  }

  /** The same for a search: the key looked for lies between what is before and after the subtree. */
  predicate Walk(tree: Tree, ctx: Path, t: Tree, k: int, cnt: int) {
    Trail(tree, ctx, t, cnt) && Sorted(Items(tree)) && Brackets(ctx, k)
  }

  lemma WalkStart(tree: Tree, k: int)
    requires Avl(tree) && Count(tree) < WRAP
    ensures Trail(tree, [], tree, 0) && Walk(tree, [], tree, k, 0)
  {
    DepthBound(tree);
  }

  /** What was left behind on the way down is counted. */
  lemma TrailCount(ctx: Path, t: Tree, d: bool)
    requires t.Node?
    ensures |Pre(ctx + [Crumb(t.i, d, Kid(t, !d))])| == |Pre(ctx)| + if d then Count(t.l) + 1 else 0
  {
    hide Pre, Items;
    PrePostDown(ctx, Crumb(t.i, d, Kid(t, !d)));
    ItemsCount(t.l);
  }

  lemma TrailKid(t: Tree, d: bool)
    requires t.Node? && Balanced(t) && Sized(t)
    ensures Balanced(Kid(t, d)) && Sized(Kid(t, d)) && Height(Kid(t, d)) + 1 <= Height(t)
  {
  }

  lemma TrailDown(tree: Tree, ctx: Path, t: Tree, cnt: int, d: bool)
    requires Trail(tree, ctx, t, cnt) && t.Node?
    ensures Trail(tree, ctx + [Crumb(t.i, d, Kid(t, !d))], Kid(t, d), cnt + (if d then Count(t.l) + 1 else 0))
  {
    hide Plug, Pre, Items, BalancedPath, SizedPath, Balanced, Sized, Height, Count;
    PlugDown(ctx, t, d);
    TrailCount(ctx, t, d);
    TrailKid(t, d);
    ExactDown(ctx, 0, t, d);
  }

  lemma WalkDown(tree: Tree, ctx: Path, t: Tree, k: int, cnt: int)
    requires Walk(tree, ctx, t, k, cnt) && t.Node? && t.i.key != k
    ensures var d := t.i.key < k;
      Walk(tree, ctx + [Crumb(t.i, d, Kid(t, !d))], Kid(t, d), k, cnt + (if d then Count(t.l) + 1 else 0))
  {
    TrailDown(tree, ctx, t, cnt, t.i.key < k);
    BracketsDown(ctx, t, k);
  }

  /** cnt is the number of items of the walk s that are not above key. */
  predicate RankOf(s: seq<Item>, key: int, cnt: int) {
    0 <= cnt <= |s| && forall a :: 0 <= a < |s| ==> (a < cnt <==> s[a].key <= key)
  }

  predicate HasKey(t: Tree, k: int) {
    exists a :: 0 <= a < |Items(t)| && Items(t)[a].key == k
  }

  /** The rank of the node a trail has reached. */
  lemma TrailAt(tree: Tree, ctx: Path, t: Tree, cnt: int)
    requires Trail(tree, ctx, t, cnt) && t.Node?
    ensures 0 <= cnt + Count(t.l) < |Items(tree)| && Items(tree)[cnt + Count(t.l)] == ItemOf(t.i)
    ensures Sized(t.l) && |ctx| < 45
  {
    ItemsPlug(ctx, t);
    ItemsCount(t.l);
  }

  /** A walk that meets its key has counted the key's rank. */
  lemma WalkFound(tree: Tree, ctx: Path, t: Tree, k: int, cnt: int)
    requires Walk(tree, ctx, t, k, cnt) && t.Node?
    ensures 0 <= cnt + Count(t.l) < |Items(tree)| && Items(tree)[cnt + Count(t.l)] == ItemOf(t.i)
    ensures Sized(t.l) && |ctx| < 45
    ensures t.i.key == k ==> RankOf(Items(tree), k, cnt + Count(t.l) + 1) && HasKey(tree, k)
  {
    TrailAt(tree, ctx, t, cnt);
  }

  /** A walk that ends in a null pointer has seen that its key is absent, and where it belongs. */
  lemma WalkAbsent(tree: Tree, ctx: Path, k: int, cnt: int)
    requires Walk(tree, ctx, Leaf, k, cnt)
    ensures RankOf(Items(tree), k, cnt) && !HasKey(tree, k)
  {
    ItemsPlug(ctx, Leaf);
    var s, p, q := Items(tree), Pre(ctx), Post(ctx);
    assert s == p + q;
    assert forall a :: 0 <= a < |s| ==> s[a] == if a < cnt then p[a] else q[a - cnt];
  }

  /** A node whose key is absent is not one of the tree's nodes. */
  lemma AbsentRef(m: Memory, tree: Tree, x: Ref)
    requires Holds(m, tree) && x in m
    requires !HasKey(tree, m[x].key)
    ensures x !in Refs(tree)
  {
    if x in Refs(tree) {
      var k := RefIndex(tree, x);
      HoldsKeys(m, tree, k);
    }
  }
}
