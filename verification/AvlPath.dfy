/** A tree opened along the path an operation walked: the nodes passed, outermost first, each with
    the direction taken and the sibling left behind. Filling the hole at the end gives a tree. */
module AvlPath {
  import opened Common
  import opened AvlTree

  datatype Crumb = Crumb(i: Info, d: bool, sib: Tree)

  type Path = seq<Crumb>

  function Fill(c: Crumb, t: Tree): Tree { Bin(c.d, t, c.i, c.sib) }

  function Plug(ctx: Path, t: Tree): Tree {
    if |ctx| == 0 then t else Plug(ctx[..|ctx| - 1], Fill(ctx[|ctx| - 1], t))
  }

  lemma {:induction false} PlugSplit(ctx: Path, t: Tree, k: nat)
    requires k <= |ctx|
    ensures Plug(ctx, t) == Plug(ctx[..k], Plug(ctx[k..], t))
  {
    if k == |ctx| {
      assert ctx[..k] == ctx;
    } else {
      var n := |ctx| - 1;
      PlugSplit(ctx[..n], Fill(ctx[n], t), k);
      assert ctx[..n][..k] == ctx[..k];
      assert ctx[..n][k..] == ctx[k..][..|ctx[k..]| - 1];
    }
  }

  lemma PlugDown(ctx: Path, t: Tree, d: bool)
    requires t.Node?
    ensures Plug(ctx + [Crumb(t.i, d, Kid(t, !d))], Kid(t, d)) == Plug(ctx, t)
  {
    assert (ctx + [Crumb(t.i, d, Kid(t, !d))])[..|ctx|] == ctx;
  }

  // ---------------------------------------------------------------- order

  /** The part of the in-order walk before the hole. */
  function Pre(ctx: Path): seq<Item> {
    if |ctx| == 0 then [] else
      var c := ctx[|ctx| - 1];
      Pre(ctx[..|ctx| - 1]) + (if c.d then Items(c.sib) + [ItemOf(c.i)] else [])
  }

  /** The part of the in-order walk after the hole. */
  function Post(ctx: Path): seq<Item> {
    if |ctx| == 0 then [] else
      var c := ctx[|ctx| - 1];
      (if c.d then [] else [ItemOf(c.i)] + Items(c.sib)) + Post(ctx[..|ctx| - 1])
  }

  lemma {:induction false} ItemsPlug(ctx: Path, t: Tree)
    ensures Items(Plug(ctx, t)) == Pre(ctx) + Items(t) + Post(ctx)
  {
    if |ctx| > 0 {
      var n := |ctx| - 1;
      var c := ctx[n];
      ItemsPlug(ctx[..n], Fill(c, t));
      WidenWalk(Pre(ctx[..n]), Items(c.sib) + [ItemOf(c.i)], Items(t), Post(ctx[..n]));
      WidenWalk(Pre(ctx[..n]), Items(t), [ItemOf(c.i)] + Items(c.sib), Post(ctx[..n]));
      assert Items(Fill(c, t)) == if c.d then Items(c.sib) + [ItemOf(c.i)] + Items(t) else Items(t) + ([ItemOf(c.i)] + Items(c.sib));
    }
  }

  lemma WidenWalk(p: seq<Item>, a: seq<Item>, b: seq<Item>, q: seq<Item>)
    ensures p + (a + b) + q == (p + a) + b + q == p + a + (b + q)
    ensures p + [] == p && [] + q == q
  {
  }

  lemma ItemsAround(ctx: Path, t: Tree)
    requires t.Node?
    ensures Items(Plug(ctx, t)) == (Pre(ctx) + Items(t.l)) + [ItemOf(t.i)] + (Items(t.r) + Post(ctx))
  {
    hide Pre, Post, Plug;
    ItemsPlug(ctx, t);
  }

  predicate AllBelow(s: seq<Item>, k: int) { forall a :: 0 <= a < |s| ==> s[a].key < k }

  predicate AllAbove(s: seq<Item>, k: int) { forall a :: 0 <= a < |s| ==> k < s[a].key }

  /** Everything before the hole is below k, everything after it is above. */
  predicate Brackets(ctx: Path, k: int) {
    AllBelow(Pre(ctx), k) && AllAbove(Post(ctx), k)
  }

  lemma PrePostDown(ctx: Path, c: Crumb)
    ensures Pre(ctx + [c]) == Pre(ctx) + (if c.d then Items(c.sib) + [ItemOf(c.i)] else [])
    ensures Post(ctx + [c]) == (if c.d then [] else [ItemOf(c.i)] + Items(c.sib)) + Post(ctx)
  {
    assert (ctx + [c])[..|ctx|] == ctx;
  }

  /** In a sorted walk, all up to x is below a key above x, and all from x on is above a key below x. */
  lemma SortedCut(p: seq<Item>, x: Item, q: seq<Item>, k: int)
    requires Sorted(p + [x] + q)
    ensures x.key < k ==> AllBelow(p + [x], k)
    ensures k < x.key ==> AllAbove([x] + q, k)
  {
    var s := p + [x] + q;
    assert s[|p|] == x;
    assert forall a :: 0 <= a < |p| ==> (p + [x])[a] == s[a];
    assert forall a :: 0 < a < |[x] + q| ==> ([x] + q)[a] == s[|p| + a];
  }

  /** Taking the comparison's branch keeps the searched key bracketed. */
  lemma BracketsDown(ctx: Path, t: Tree, k: int)
    requires Sorted(Items(Plug(ctx, t))) && Brackets(ctx, k)
    requires t.Node? && t.i.key != k
    ensures var d := t.i.key < k;
            var ctx' := ctx + [Crumb(t.i, d, Kid(t, !d))];
            && Brackets(ctx', k)
            && |Pre(ctx')| == |Pre(ctx)| + (if d then Count(t.l) + 1 else 0)
  {
    hide Pre, Post, Items, Plug, AllBelow, AllAbove, Sorted;
    var d := t.i.key < k;
    var c := Crumb(t.i, d, Kid(t, !d));
    PrePostDown(ctx, c);
    ItemsAround(ctx, t);
    ItemsCount(t.l);
    var x, p, q := ItemOf(t.i), Pre(ctx) + Items(t.l), Items(t.r) + Post(ctx);
    SortedCut(p, x, q, k);
    if d {
      assert Pre(ctx + [c]) == p + [x];
      assert Post(ctx + [c]) == Post(ctx);
    } else {
      assert Pre(ctx + [c]) == Pre(ctx);
      assert Post(ctx + [c]) == [x] + q;
    }
  }

  // ---------------------------------------------------------------- balance and size

  /** The crumbs from index b on carry exact balances for a hole of height h. */
  predicate BalancedPath(ctx: Path, b: nat, h: nat) {
    |ctx| <= b ||
    var c := ctx[|ctx| - 1];
    && c.i.balance == (if c.d then h - Height(c.sib) else Height(c.sib) - h)
    && -1 <= c.i.balance <= 1 && Balanced(c.sib)
    && BalancedPath(ctx[..|ctx| - 1], b, 1 + Max(h, Height(c.sib)))
  }

  /** The crumbs from index b on carry exact sizes for a hole of n nodes. */
  predicate SizedPath(ctx: Path, b: nat, n: nat) {
    |ctx| <= b ||
    var c := ctx[|ctx| - 1];
    && c.i.size == n + 1 + Count(c.sib) && Sized(c.sib)
    && SizedPath(ctx[..|ctx| - 1], b, n + 1 + Count(c.sib))
  }

  lemma {:induction false} BalancedPlug(ctx: Path, t: Tree)
    requires BalancedPath(ctx, 0, Height(t)) && Balanced(t)
    ensures Balanced(Plug(ctx, t))
  {
    if |ctx| > 0 {
      var n := |ctx| - 1;
      BinUnfold(ctx[n].d, t, ctx[n].i, ctx[n].sib);
      BalancedPlug(ctx[..n], Fill(ctx[n], t));
    }
  }

  lemma {:induction false} SizedPlug(ctx: Path, t: Tree)
    requires SizedPath(ctx, 0, Count(t)) && Sized(t)
    ensures Sized(Plug(ctx, t))
  {
    if |ctx| > 0 {
      var n := |ctx| - 1;
      BinUnfold(ctx[n].d, t, ctx[n].i, ctx[n].sib);
      SizedPlug(ctx[..n], Fill(ctx[n], t));
    }
  }

  /** Exactness of a node moves into the crumb when the walk passes it. */
  lemma ExactDown(ctx: Path, b: nat, t: Tree, d: bool)
    requires t.Node? && Balanced(t) && Sized(t) && b <= |ctx|
    requires BalancedPath(ctx, b, Height(t)) && SizedPath(ctx, b, Count(t))
    ensures var ctx' := ctx + [Crumb(t.i, d, Kid(t, !d))];
            && BalancedPath(ctx', b, Height(Kid(t, d))) && SizedPath(ctx', b, Count(Kid(t, d)))
  {
    hide Height, Count, Balanced, Sized, Refs, Distinct;
    assert (ctx + [Crumb(t.i, d, Kid(t, !d))])[..|ctx|] == ctx;
    BinUnfold(d, Kid(t, d), t.i, Kid(t, !d));
  }

  /** The height that filling the hole with a tree of height h gives. */
  function HeightUp(ctx: Path, h: nat): nat {
    if |ctx| == 0 then h else HeightUp(ctx[..|ctx| - 1], 1 + Max(h, Height(ctx[|ctx| - 1].sib)))
  }

  /** Cutting the path in two keeps what each part says of its own hole. */
  lemma {:induction false} BalancedCut(ctx: Path, h: nat, k: nat)
    requires BalancedPath(ctx, 0, h) && k <= |ctx|
    ensures BalancedPath(ctx[k..], 0, h)
    ensures BalancedPath(ctx[..k], 0, HeightUp(ctx[k..], h))
  {
    hide Balanced, Height;
    if k == |ctx| {
      assert ctx[..k] == ctx;
    } else {
      var n := |ctx| - 1;
      var h' := 1 + Max(h, Height(ctx[n].sib));
      BalancedCut(ctx[..n], h', k);
      assert ctx[..n][..k] == ctx[..k];
      assert ctx[..n][k..] == ctx[k..][..|ctx[k..]| - 1];
      assert ctx[k..][|ctx[k..]| - 1] == ctx[n];
    }
  }

  lemma {:induction false} HeightUpSplit(ctx: Path, h: nat, k: nat)
    requires k <= |ctx|
    ensures HeightUp(ctx, h) == HeightUp(ctx[..k], HeightUp(ctx[k..], h))
  {
    if k == |ctx| {
      assert ctx[..k] == ctx;
    } else {
      var n := |ctx| - 1;
      HeightUpSplit(ctx[..n], 1 + Max(h, Height(ctx[n].sib)), k);
      assert ctx[..n][..k] == ctx[..k];
      assert ctx[..n][k..] == ctx[k..][..|ctx[k..]| - 1];
    }
  }

  /** A sized tree stays sized around any of its subtrees. */
  lemma {:induction false} SizedAround(ctx: Path, t: Tree)
    requires Sized(Plug(ctx, t))
    ensures Sized(t) && SizedPath(ctx, 0, Count(t))
  {
    if |ctx| > 0 {
      var c := ctx[|ctx| - 1];
      SizedAround(ctx[..|ctx| - 1], Fill(c, t));
      BinUnfold(c.d, t, c.i, c.sib);
    }
  }

  lemma {:induction false} PtrPlug(ctx: Path, t: Tree)
    ensures Ptr(Plug(ctx, t)) == if |ctx| > 0 then ctx[0].i.at else Ptr(t)
  {
    if |ctx| > 0 {
      PtrPlug(ctx[..|ctx| - 1], Fill(ctx[|ctx| - 1], t));
    }
  }

  /** The height of every path is at most the height of the tree. */
  lemma {:induction false} PathDepth(ctx: Path, t: Tree)
    ensures |ctx| + Height(t) <= Height(Plug(ctx, t))
  {
    if |ctx| > 0 {
      var n := |ctx| - 1;
      BinUnfold(ctx[n].d, t, ctx[n].i, ctx[n].sib);
      PathDepth(ctx[..n], Fill(ctx[n], t));
    }
  }

  /** The path with each size field from index b up to e changed by s. */
  function Resize(ctx: Path, b: nat, e: nat, s: int): Path {
    seq(|ctx|, k requires 0 <= k < |ctx| =>
      if b <= k < e then ctx[k].(i := ctx[k].i.(size := ctx[k].i.size + s)) else ctx[k])
  }

  /** One node more or fewer in the hole is one more or fewer in each size on the path. */
  lemma {:induction false} ResizeExact(ctx: Path, b: nat, n: nat, s: int)
    requires SizedPath(ctx, b, n) && n + s >= 0
    ensures SizedPath(Resize(ctx, b, |ctx|, s), b, n + s)
  {
    if |ctx| > b {
      var m := |ctx| - 1;
      ResizeExact(ctx[..m], b, n + 1 + Count(ctx[m].sib), s);
      assert Resize(ctx, b, |ctx|, s)[..m] == Resize(ctx[..m], b, m, s);
    }
  }

  /** Neither order nor balance looks at sizes. */
  lemma {:induction false} ResizeOrder(ctx: Path, b: nat, e: nat, s: int)
    ensures Pre(Resize(ctx, b, e, s)) == Pre(ctx) && Post(Resize(ctx, b, e, s)) == Post(ctx)
  {
    if |ctx| > 0 {
      hide Items;
      ResizeOrder(ctx[..|ctx| - 1], b, e, s);
      assert Resize(ctx, b, e, s)[..|ctx| - 1] == Resize(ctx[..|ctx| - 1], b, e, s);
    }
  }

  lemma {:induction false} ResizeBalance(ctx: Path, b: nat, e: nat, s: int, q: nat, h: nat)
    ensures BalancedPath(Resize(ctx, b, e, s), q, h) == BalancedPath(ctx, q, h)
  {
    if |ctx| > 0 {
      hide Height, Balanced;
      var m := |ctx| - 1;
      ResizeBalance(ctx[..m], b, e, s, q, 1 + Max(h, Height(ctx[m].sib)));
      assert Resize(ctx, b, e, s)[..m] == Resize(ctx[..m], b, e, s);
    }
  }

  // ---------------------------------------------------------------- insertion

  /** The balance after the child in direction d grew by one. */
  function LeanBalance(i: Info, d: bool): int { if d then i.balance + 1 else i.balance - 1 }

  /** The path with each balance from index b up to e tipped towards the hole. */
  function Lean(ctx: Path, b: nat, e: nat): Path {
    seq(|ctx|, k requires 0 <= k < |ctx| =>
      if b <= k < e then ctx[k].(i := ctx[k].i.(balance := LeanBalance(ctx[k].i, ctx[k].d))) else ctx[k])
  }

  lemma {:induction false} LeanKeeps(ctx: Path, b: nat, e: nat, n: nat)
    ensures Pre(Lean(ctx, b, e)) == Pre(ctx) && Post(Lean(ctx, b, e)) == Post(ctx)
    ensures SizedPath(Lean(ctx, b, e), 0, n) == SizedPath(ctx, 0, n)
  {
    if |ctx| > 0 {
      var m := |ctx| - 1;
      LeanKeeps(ctx[..m], b, e, n + 1 + Count(ctx[m].sib));
      assert Lean(ctx, b, e)[..m] == Lean(ctx[..m], b, e);
    }
  }

  /** Below the last unbalanced ancestor every node was level, so each tips by one and grows by one. */
  lemma {:induction false} GrowLevel(ctx: Path, h: nat, t: Tree)
    requires BalancedPath(ctx, 0, h)
    requires forall k :: 0 <= k < |ctx| ==> ctx[k].i.balance == 0
    requires Balanced(t) && Height(t) == h + 1
    ensures var u := Plug(Lean(ctx, 0, |ctx|), t);
            Balanced(u) && Height(u) == HeightUp(ctx, h) + 1 && (|ctx| > 0 ==> u.Node? && u.i.balance != 0)
  {
    hide Balanced, Height, Lean, LeanBalance;
    if |ctx| > 0 {
      var m := |ctx| - 1;
      var c := ctx[m].(i := ctx[m].i.(balance := LeanBalance(ctx[m].i, ctx[m].d)));
      LeanLast(ctx);
      GrowStep(ctx[m], h, t);
      GrowLevel(ctx[..m], 1 + Max(h, Height(ctx[m].sib)), Fill(c, t));
    } else {
      LeanNone(ctx);
    }
  }

  lemma LeanNone(ctx: Path)
    requires |ctx| == 0
    ensures Lean(ctx, 0, 0) == []
  {
  }

  lemma LeanLast(ctx: Path)
    requires |ctx| > 0
    ensures var m := |ctx| - 1;
      && |Lean(ctx, 0, |ctx|)| == |ctx| && Lean(ctx, 0, |ctx|)[..m] == Lean(ctx[..m], 0, m)
      && Lean(ctx, 0, |ctx|)[m] == ctx[m].(i := ctx[m].i.(balance := LeanBalance(ctx[m].i, ctx[m].d)))
  {
  }

  /** One level node over a subtree that has grown. */
  lemma GrowStep(c: Crumb, h: nat, t: Tree)
    requires c.i.balance == 0 == (if c.d then h - Height(c.sib) else Height(c.sib) - h) && Balanced(c.sib)
    requires Balanced(t) && Height(t) == h + 1
    ensures var u := Fill(c.(i := c.i.(balance := LeanBalance(c.i, c.d))), t);
      Balanced(u) && Height(u) == h + 2 && 1 + Max(h, Height(c.sib)) == h + 1 && u.Node? && u.i.balance != 0
  {
    BinUnfold(c.d, t, c.i.(balance := LeanBalance(c.i, c.d)), c.sib);
  }

  /** What kavl_insert does at the node whose balance left -1..1. */
  function InsertFix(t: Tree): Tree
    requires t.Node? && (t.i.balance < -1 || t.i.balance > 1)
    requires Kid(t, t.i.balance > 0).Node?
    requires var w := t.i.balance < 0; var q := Kid(t, !w);
             q.i.balance == (if w then -1 else 1) || Kid(q, w).Node?
  {
    var w := t.i.balance < 0;
    var q := Kid(t, !w);
    if q.i.balance == (if w then -1 else 1) then Level(Rotate1(t, w), w) else Rotate2(t, w)
  }

  /** Both balances of a single rotation set to 0. */
  function Level(t: Tree, d: bool): Tree
    requires t.Node? && Kid(t, d).Node?
  {
    var p := Kid(t, d);
    Bin(d, Bin(d, Kid(p, d), p.i.(balance := 0), Kid(p, !d)), t.i.(balance := 0), Kid(t, !d))
  }

  /** The node at the top of the leaning part: the heights of its children, the taller grown by one. */
  predicate Overloaded(t: Tree) {
    t.Node? && (t.i.balance == 2 || t.i.balance == -2) && t.i.balance == Height(t.r) - Height(t.l)
    && Balanced(t.l) && Balanced(t.r)
  }

  lemma LeafHeight(t: Tree)
    ensures t == Leaf <==> Height(t) == 0
  {
  }

  /** One rotation restores balance and the height before the insertion, in either case. */
  lemma InsertFixBalances(t: Tree)
    requires Overloaded(t)
    requires Kid(t, t.i.balance > 0).Node? && Kid(t, t.i.balance > 0).i.balance != 0
    ensures var w := t.i.balance < 0; var q := Kid(t, !w);
            q.i.balance == (if w then -1 else 1) || Kid(q, w).Node?
    ensures Balanced(InsertFix(t)) && Height(InsertFix(t)) == Height(t) - 1
  {
    hide Refs, Height, Count, Distinct, Sized, Balanced;
    var w := t.i.balance < 0;
    var q := Kid(t, !w);
    BinUnfold(w, Kid(t, w), t.i, q);
    BinUnfold(w, Kid(q, w), q.i, Kid(q, !w));
    if q.i.balance == (if w then -1 else 1) {
      var u := InsertFix(t);
      BinUnfold(w, Kid(t, w), Kid(u, w).i, Kid(q, w));
      BinUnfold(w, Kid(u, w), u.i, Kid(q, !w));
    } else {
      Rotate2Balances(t, w);
    }
  }

  /** A double rotation levels a node overloaded on the far side of an inward-leaning child. */
  lemma Rotate2Balances(t: Tree, w: bool)
    requires Overloaded(t) && w == (t.i.balance < 0)
    requires Kid(t, !w).Node? && Kid(t, !w).i.balance == (if w then 1 else -1)
    ensures Kid(Kid(t, !w), w).Node?
    ensures Balanced(Rotate2(t, w)) && Height(Rotate2(t, w)) == Height(t) - 1
  {
    hide Refs, Height, Count, Distinct, Sized, Balanced;
    var q := Kid(t, !w);
    BinUnfold(w, Kid(t, w), t.i, q);
    BinUnfold(w, Kid(q, w), q.i, Kid(q, !w));
    LeafHeight(Kid(q, w));
    var r := Kid(q, w);
    var u := Rotate2(t, w);
    BinUnfold(w, Kid(r, w), r.i, Kid(r, !w));
    BinUnfold(w, Kid(t, w), Kid(u, w).i, Kid(r, w));
    BinUnfold(w, Kid(r, !w), Kid(u, !w).i, Kid(q, !w));
    BinUnfold(w, Kid(u, w), u.i, Kid(u, !w));
  }

  lemma InsertFixKeeps(t: Tree)
    requires InsertFix.requires(t)
    ensures Items(InsertFix(t)) == Items(t) && Refs(InsertFix(t)) == Refs(t)
    ensures Sized(t) ==> Sized(InsertFix(t)) && Count(InsertFix(t)) == Count(t)
  {
    var w := t.i.balance < 0;
    var q := Kid(t, !w);
    if q.i.balance == (if w then -1 else 1) {
      Rotate1Items(t, w);
      Rotate1Keeps(t, w);
      LevelKeeps(Rotate1(t, w), w);
    } else {
      Rotate2Items(t, w);
      Rotate2Keeps(t, w);
    }
  }

  lemma LevelKeeps(t: Tree, d: bool)
    requires t.Node? && Kid(t, d).Node?
    ensures Items(Level(t, d)) == Items(t) && Refs(Level(t, d)) == Refs(t)
    ensures Sized(t) ==> Sized(Level(t, d)) && Count(Level(t, d)) == Count(t)
  {
    var p, u := Kid(t, d), Level(t, d);
    BinUnfold(d, p, t.i, Kid(t, !d));
    BinUnfold(d, Kid(p, d), p.i, Kid(p, !d));
    BinUnfold(d, Kid(p, d), Kid(u, d).i, Kid(p, !d));
    BinUnfold(d, Kid(u, d), u.i, Kid(t, !d));
  }

  /** The subtree at the last unbalanced ancestor once its balance has been checked and fixed. */
  function Fixed(u: Tree): Tree
    requires u.Node?
    requires -2 < u.i.balance < 2 || InsertFix.requires(u)
  {
    if -2 < u.i.balance < 2 then u else InsertFix(u)
  }

  function Tipped(c: Crumb): Crumb { c.(i := c.i.(balance := LeanBalance(c.i, c.d))) }

  lemma LeanSplit(ctx: Path, b: nat, t: Tree)
    requires b < |ctx|
    ensures var rest := ctx[b + 1..];
      Plug(Lean(ctx, b, |ctx|)[b..], t) == Fill(Tipped(ctx[b]), Plug(Lean(rest, 0, |rest|), t))
  {
    var rest := ctx[b + 1..];
    var c, l := Tipped(ctx[b]), Lean(rest, 0, |rest|);
    var tail := Lean(ctx, b, |ctx|)[b..];
    assert tail == [c] + l;
    PlugSplit(tail, t, 1);
    assert tail[..1] == [c] && tail[1..] == l;
    assert [c][..0] == [];
    assert Plug([c], Plug(l, t)) == Fill(c, Plug(l, t));
  }

  lemma BalancedAt(ctx: Path, b: nat, h: nat)
    requires b < |ctx| && BalancedPath(ctx, 0, h)
    ensures var c, rest := ctx[b], ctx[b + 1..];
      var g := HeightUp(rest, h);
      && BalancedPath(rest, 0, h)
      && c.i.balance == (if c.d then g - Height(c.sib) else Height(c.sib) - g)
      && -1 <= c.i.balance <= 1 && Balanced(c.sib)
      && BalancedPath(ctx[..b], 0, 1 + Max(g, Height(c.sib)))
  {
    hide Height, Balanced;
    BalancedCut(ctx, h, b + 1);
    assert ctx[..b + 1][..b] == ctx[..b];
  }

  /** The node at index b over its grown child: still in range, or overloaded on a leaning child. */
  lemma TopNode(c: Crumb, h: nat, g: Tree)
    requires c.i.balance == (if c.d then h - Height(c.sib) else Height(c.sib) - h)
    requires -1 <= c.i.balance <= 1 && Balanced(c.sib)
    requires Balanced(g) && Height(g) == h + 1 && g.Node? && (h > 0 ==> g.i.balance != 0)
    ensures var u := Fill(Tipped(c), g);
      && (-2 < u.i.balance < 2 || (InsertFix.requires(u) && (u.i.balance == 2 || u.i.balance == -2)))
      && Balanced(Fixed(u))
      && (c.i.balance != 0 ==> Height(Fixed(u)) == 1 + Max(h, Height(c.sib)))
  {
    hide Height, Balanced, Count, Refs, Sized, Distinct, InsertFix;
    var u := Fill(Tipped(c), g);
    BinUnfold(c.d, g, Tipped(c).i, c.sib);
    if !(-2 < u.i.balance < 2) {
      InsertFixBalances(u);
    }
  }

  /** Tipping the balances from index b on, where only the node at b may have been unbalanced, leaves one
      node to check; checking it restores balance and the height that the path above b expects. */
  lemma InsertRestores(ctx: Path, b: nat, t: Tree)
    requires b < |ctx| && BalancedPath(ctx, 0, 0)
    requires b > 0 ==> ctx[b].i.balance != 0
    requires forall k :: b < k < |ctx| ==> ctx[k].i.balance == 0
    requires Balanced(t) && Height(t) == 1
    ensures var u := Plug(Lean(ctx, b, |ctx|)[b..], t);
      && u.Node? && u.i.at == ctx[b].i.at
      && (-2 < u.i.balance < 2 || (InsertFix.requires(u) && (u.i.balance == 2 || u.i.balance == -2)))
      && Balanced(Fixed(u)) && BalancedPath(ctx[..b], 0, Height(Fixed(u)))
  {
    hide Balanced, Fixed, InsertFix, Plug, Lean;
    var rest := ctx[b + 1..];
    BalancedAt(ctx, b, 0);
    GrowLevel(rest, 0, t);
    LeanSplit(ctx, b, t);
    var g := Plug(Lean(rest, 0, |rest|), t);
    assert |rest| == 0 ==> HeightUp(rest, 0) == 0;
    TopNode(ctx[b], HeightUp(rest, 0), g);
  }
}
