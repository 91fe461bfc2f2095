/** The steps of kavl_erase after the node to remove has been found: the three splice cases and the
    retracing of balances up to the stack-allocated anchor node that stands above the root. */
module AvlErase {
  import opened Common
  import opened AvlTree
  import opened AvlPath
  import opened AvlMemory
  import opened AvlWalk

  /** Address of the anchor node; its p[0] is the root. */
  const FAKE: Ref := -1

  const ANCHOR := Crumb(Info(FAKE, 0, 0, 0), false, Leaf)

  // ---------------------------------------------------------------- retracing one node

  /** A rotated node with the balances of its root and of the node moved down set. */
  function Relevel(t: Tree, d: bool, bt: int, bp: int): Tree
    requires t.Node? && Kid(t, d).Node?
  {
    var p := Kid(t, d);
    Bin(d, Bin(d, Kid(p, d), p.i.(balance := bp), Kid(p, !d)), t.i.(balance := bt), Kid(t, !d))
  }

  function Sign(d: bool): int { if d then -1 else 1 }

  /** The node of crumb c over a child in direction c.d that lost one level. */
  function Sunk(c: Crumb, sub: Tree): Tree {
    Fill(c.(i := c.i.(balance := c.i.balance + Sign(c.d))), sub)
  }

  predicate CanRetrace(c: Crumb, sub: Tree) {
    c.i.balance + Sign(c.d) == 2 * Sign(c.d) ==>
      c.sib.Node? && (c.sib.i.balance == -Sign(c.d) ==> Kid(c.sib, c.d).Node?)
  }

  predicate CanRotate(u: Tree, d: bool) {
    u.Node? && Kid(u, !d).Node? && (Kid(u, !d).i.balance == -Sign(d) ==> Kid(Kid(u, !d), d).Node?)
  }

  /** The rotation for a node overloaded away from d, and whether it keeps the height. */
  function Rotated(u: Tree, d: bool): (Tree, bool)
    requires CanRotate(u, d)
  {
    var b := Kid(u, !d).i.balance;
    if b == -Sign(d) then (Rotate2(u, d), false)
    else if b == 0 then (Relevel(Rotate1(u, d), d, -Sign(d), Sign(d)), true)
    else (Relevel(Rotate1(u, d), d, 0, 0), false)
  }

  /** What the loop body of kavl_erase makes of one path entry, and whether it leaves the loop. */
  function Retraced(c: Crumb, sub: Tree): (Tree, bool)
    requires CanRetrace(c, sub)
  {
    var u := Sunk(c, sub);
    if u.i.balance == Sign(c.d) then (u, true)
    else if u.i.balance == 2 * Sign(c.d) then Rotated(u, c.d)
    else (u, false)
  }

  /** The entry's balance was exact before its child in direction d lost a level. */
  predicate WasExact(c: Crumb, sub: Tree) {
    && c.i.balance == (if c.d then Height(sub) + 1 - Height(c.sib) else Height(c.sib) - Height(sub) - 1)
    && -1 <= c.i.balance <= 1 && Balanced(c.sib) && Balanced(sub)
  }

  lemma WasExactCan(c: Crumb, sub: Tree)
    requires WasExact(c, sub)
    ensures CanRetrace(c, sub)
  {
    if c.i.balance + Sign(c.d) == 2 * Sign(c.d) && c.sib.Node? {
      BinUnfold(c.d, Kid(c.sib, c.d), c.sib.i, Kid(c.sib, !c.d));
    }
  }

  /** Leaving the loop means the old height is back; going on means the subtree is one lower again. */
  lemma RetracedBalances(c: Crumb, sub: Tree)
    requires WasExact(c, sub) && CanRetrace(c, sub)
    ensures Balanced(Retraced(c, sub).0)
    ensures Height(Retraced(c, sub).0) ==
      1 + Max(Height(sub) + 1, Height(c.sib)) - (if Retraced(c, sub).1 then 0 else 1)
  {
    hide Height, Balanced, Count, Refs, Sized, Distinct, Rotate1, Rotate2;
    var d, b1, u, s := c.d, Sign(c.d), Sunk(c, sub), c.sib;
    BinUnfold(d, sub, u.i, s);
    if u.i.balance == 2 * b1 {
      BinUnfold(d, Kid(s, d), s.i, Kid(s, !d));
      assert Overloaded(u) by { SunkOverloaded(c, sub); }
      if s.i.balance == -b1 {
        Rotate2Balances(u, d);
      } else {
        RelevelBalances(u, d, if s.i.balance == 0 then b1 else 0);
      }
    }
  }

  lemma SunkOverloaded(c: Crumb, sub: Tree)
    requires WasExact(c, sub) && c.i.balance + Sign(c.d) == 2 * Sign(c.d)
    ensures Overloaded(Sunk(c, sub))
  {
  }

  /** A single rotation of a node overloaded on a level or outward-leaning child. */
  lemma RelevelBalances(u: Tree, d: bool, b: int)
    requires Overloaded(u) && d == (u.i.balance < 0) && Kid(u, !d).Node?
    requires Kid(u, !d).i.balance == (if b == 0 then Sign(d) else 0)
    requires b == 0 || b == Sign(d)
    ensures var v := Relevel(Rotate1(u, d), d, -b, b);
      Balanced(v) && Height(v) == (if b == 0 then Height(u) - 1 else Height(u))
  {
    var q, v := Kid(u, !d), Relevel(Rotate1(u, d), d, -b, b);
    BinUnfold(d, Kid(u, d), u.i, q);
    BinUnfold(d, Kid(q, d), q.i, Kid(q, !d));
    hide Height, Balanced, Count, Refs, Sized, Distinct;
    BinUnfold(d, Kid(u, d), Kid(v, d).i, Kid(q, d));
    BinUnfold(d, Kid(v, d), v.i, Kid(q, !d));
  }

  lemma RelevelKeeps(t: Tree, d: bool, bt: int, bp: int)
    requires t.Node? && Kid(t, d).Node?
    ensures var u := Relevel(t, d, bt, bp);
      && Items(u) == Items(t) && Refs(u) == Refs(t) && (Distinct(t) ==> Distinct(u))
      && (Sized(t) ==> Sized(u) && Count(u) == Count(t))
  {
    var p, u := Kid(t, d), Relevel(t, d, bt, bp);
    BinUnfold(d, p, t.i, Kid(t, !d));
    BinUnfold(d, Kid(p, d), p.i, Kid(p, !d));
    BinUnfold(d, Kid(p, d), Kid(u, d).i, Kid(p, !d));
    BinUnfold(d, Kid(u, d), u.i, Kid(t, !d));
    hide Height, Balanced, Count, Refs, Sized, Distinct;
    BinItems(d, p, t.i, Kid(t, !d));
    BinItems(d, Kid(p, d), p.i, Kid(p, !d));
    BinItems(d, Kid(p, d), Kid(u, d).i, Kid(p, !d));
    BinItems(d, Kid(u, d), u.i, Kid(t, !d));
  }

  lemma RotatedKeeps(u: Tree, d: bool)
    requires CanRotate(u, d)
    ensures var v := Rotated(u, d).0;
      && Items(v) == Items(u) && Refs(v) == Refs(u) && (Distinct(u) ==> Distinct(v))
      && (Sized(u) ==> Sized(v) && Count(v) == Count(u))
  {
    hide Height, Balanced, Count, Refs, Sized, Distinct, Items, Rotate1, Rotate2, Relevel;
    var b := Kid(u, !d).i.balance;
    if b == -Sign(d) {
      Rotate2Items(u, d);
      Rotate2Keeps(u, d);
    } else {
      Rotate1Items(u, d);
      Rotate1Keeps(u, d);
      Rotate1Kids(u, d);
      if b == 0 {
        RelevelKeeps(Rotate1(u, d), d, -Sign(d), Sign(d));
      } else {
        RelevelKeeps(Rotate1(u, d), d, 0, 0);
      }
    }
  }

  /** Whatever the loop body does, order, addresses and sizes are those of the refilled entry. */
  lemma RetracedKeeps(c: Crumb, sub: Tree)
    requires CanRetrace(c, sub)
    ensures var v := Retraced(c, sub).0; var u := Fill(c, sub);
      && Items(v) == Items(u) && Refs(v) == Refs(u) && (Distinct(u) ==> Distinct(v))
      && (Sized(u) ==> Sized(v) && Count(v) == Count(u))
  {
    var d, u := c.d, Sunk(c, sub);
    BinUnfold(d, sub, u.i, c.sib);
    BinUnfold(d, sub, c.i, c.sib);
    BinItems(d, sub, u.i, c.sib);
    BinItems(d, sub, c.i, c.sib);
    hide Height, Balanced, Count, Refs, Sized, Distinct, Items, Rotated;
    if CanRotate(u, d) {
      RotatedKeeps(u, d);
    }
  }

  lemma Rotate1Kids(u: Tree, d: bool)
    requires u.Node? && Kid(u, !d).Node?
    ensures Rotate1(u, d).Node? && Kid(Rotate1(u, d), d).Node?
    ensures Rotate1(u, d).i.at == Kid(u, !d).i.at && Kid(Rotate1(u, d), d).i.at == u.i.at
  {
  }

  // ---------------------------------------------------------------- the retracing loop

  /** The in-order walk of the plugged tree. */
  function Whole(ctx: Path, t: Tree): seq<Item> { Pre(ctx) + Items(t) + Post(ctx) }

  /** What holds when the first d entries of the path are still to be retraced: only the anchor and these
      entries lie above sub, which is exact but one level lower than they expect. */
  predicate Sinking(ctx: Path, sub: Tree, s: seq<Item>) {
    && |ctx| > 0 && ctx[0] == ANCHOR
    && Balanced(sub) && BalancedPath(ctx, 1, Height(sub) + 1)
    && Sized(sub) && SizedPath(ctx, 1, Count(sub))
    && Whole(ctx, sub) == s
  }

  /** The same with the expected height restored. */
  predicate Settled(ctx: Path, sub: Tree, s: seq<Item>) {
    && |ctx| > 0 && ctx[0] == ANCHOR
    && Balanced(sub) && BalancedPath(ctx, 1, Height(sub))
    && Sized(sub) && SizedPath(ctx, 1, Count(sub))
    && Whole(ctx, sub) == s
  }

  lemma RetraceStep(ctx: Path, sub: Tree, s: seq<Item>)
    requires Sinking(ctx, sub, s) && |ctx| > 1
    ensures var n := |ctx| - 1; var c := ctx[n];
      && CanRetrace(c, sub)
      && var (v, done) := Retraced(c, sub);
      && (done ==> Settled(ctx[..n], v, s)) && (!done ==> Sinking(ctx[..n], v, s))
  {
    var n := |ctx| - 1;
    var c := ctx[n];
    hide Balanced, Sized, Items, Height, Count, Pre, Post, Retraced, Refs, Distinct;
    hide BalancedPath, SizedPath, CanRetrace, Whole;
    RetraceParts(ctx, sub);
    WasExactCan(c, sub);
    RetracedBalances(c, sub);
    RetracedKeeps(c, sub);
    RetraceItems(ctx, sub, Retraced(c, sub).0);
  }

  /** What the innermost entry says, and what the rest of the path expects of it. */
  lemma RetraceParts(ctx: Path, sub: Tree)
    requires |ctx| > 1 && Balanced(sub) && BalancedPath(ctx, 1, Height(sub) + 1) && Sized(sub) && SizedPath(ctx, 1, Count(sub))
    ensures var n := |ctx| - 1; var c := ctx[n];
      && WasExact(c, sub) && Sized(Fill(c, sub))
      && BalancedPath(ctx[..n], 1, 1 + Max(Height(sub) + 1, Height(c.sib)))
      && SizedPath(ctx[..n], 1, Count(Fill(c, sub)))
  {
    var c := ctx[|ctx| - 1];
    BinUnfold(c.d, sub, c.i, c.sib);
    hide Balanced, Sized, Height, Count;
  }

  lemma RetraceItems(ctx: Path, sub: Tree, v: Tree)
    requires |ctx| > 0 && Items(v) == Items(Fill(ctx[|ctx| - 1], sub))
    ensures Whole(ctx[..|ctx| - 1], v) == Whole(ctx, sub)
  {
    ItemsPlug(ctx, sub);
    ItemsPlug(ctx[..|ctx| - 1], Fill(ctx[|ctx| - 1], sub));
  }

  /** The rotation branch of the loop body. */
  method RotateAt(m0: Memory, q: Ref, which: bool, ghost u: Tree) returns (m: Memory, v: Ref, done: bool)
    requires Holds(m0, u) && Distinct(u) && CanRotate(u, which) && q == Ptr(u)
    ensures Holds(m, Rotated(u, which).0) && v == Ptr(Rotated(u, which).0) && done == Rotated(u, which).1
    ensures SameOutside(m0, m, Refs(u))
  {
    var b1 := if which then -1 else 1;
    var r := At(m0[q], !which);
    HoldsBin(m0, which, Kid(u, which), u.i, Kid(u, !which));
    var rb := m0[r].balance;
    done := false;
    if rb == -b1 {
      m, v := RotateTwice(m0, q, which, u);
    } else {
      Rotate1Keeps(u, which);
      Rotate1Kids(u, which);
      m, v := RotateOnce(m0, q, which, u);
      hide Rotate1, Holds, Distinct, Refs;
      if rb == 0 {
        RelevelHolds(m, Rotate1(u, which), which, -b1, b1);
        m := m[r := m[r].(balance := -b1)][q := m[q].(balance := b1)];
        done := true;
      } else {
        RelevelHolds(m, Rotate1(u, which), which, 0, 0);
        m := m[r := m[r].(balance := 0)][q := m[q].(balance := 0)];
      }
    }
  }

  /** The loop body of kavl_erase on the innermost path entry, in memory. */
  method RetraceNode(m0: Memory, q: Ref, which: bool, parent: Ref, parentDir: bool, ghost ctx: Path, ghost sub: Tree)
    returns (m: Memory, done: bool)
    requires Focus(m0, ctx, sub) && |ctx| > 1 && CanRetrace(ctx[|ctx| - 1], sub)
    requires q == ctx[|ctx| - 1].i.at && which == ctx[|ctx| - 1].d
    requires parent == ctx[|ctx| - 2].i.at && parentDir == ctx[|ctx| - 2].d
    ensures var n := |ctx| - 1;
      Focus(m, ctx[..n], Retraced(ctx[n], sub).0) && done == Retraced(ctx[n], sub).1
    ensures SameOutside(m0, m, PathRefs(ctx) + Refs(sub))
  {
    hide Focus, HoldsPath, Holds, Refs, PathRefs, Distinct, Rotated;
    ghost var n := |ctx| - 1;
    ghost var c := ctx[n];
    var b1 := if which then -1 else 1;
    ghost var u := Sunk(c, sub);
    SinkFocus(m0, ctx, sub);
    m := m0[q := m0[q].(balance := m0[q].balance + b1)];
    done := false;
    if m[q].balance == b1 {
      done := true;
    } else if m[q].balance == 2 * b1 {
      ghost var m1 := m;
      FocusParts(m, ctx[..n], u);
      RotatedKeeps(u, which);
      var v;
      m, v, done := RotateAt(m, q, which, u);
      Relink(m1, m, ctx[..n], u, Rotated(u, which).0);
      m := m[parent := Put(m[parent], parentDir, v)];
    }
  }

  lemma FocusParts(m: Memory, ctx: Path, t: Tree)
    requires Focus(m, ctx, t)
    ensures Holds(m, t) && Distinct(t)
  {
  }

  /** Adding to the balance of the innermost entry, seen as a whole subtree. */
  lemma SinkFocus(m: Memory, ctx: Path, sub: Tree)
    requires Focus(m, ctx, sub) && |ctx| > 0
    ensures var n := |ctx| - 1; var c := ctx[n];
      && c.i.at in m && m[c.i.at].balance == c.i.balance
      && var m' := m[c.i.at := m[c.i.at].(balance := c.i.balance + Sign(c.d))];
      && Focus(m', ctx[..n], Sunk(c, sub))
      && SameOutside(m, m', PathRefs(ctx) + Refs(sub))
      && PathRefs(ctx[..n]) + Refs(Sunk(c, sub)) == PathRefs(ctx) + Refs(sub)
  {
    var n := |ctx| - 1;
    var c := ctx[n];
    var i := c.i.(balance := c.i.balance + Sign(c.d));
    FocusInfo(m, ctx, sub, n, i);
    InPathRefs(ctx, n);
    var ctx' := ctx[n := c.(i := i)];
    FocusUp(m[i.at := m[i.at].(balance := i.balance, size := i.size)], ctx', sub);
    assert ctx'[..n] == ctx[..n];
    BinUnfold(c.d, sub, i, c.sib);
  }

  /** Dropping the innermost entry from the arrays' meaning. */
  lemma ListsUp(path: seq<Ref>, dir: seq<bool>, ctx: Path)
    requires Lists(path, ctx) && Turns(dir, ctx, 0) && |ctx| > 0
    ensures Lists(path, ctx[..|ctx| - 1]) && Turns(dir, ctx[..|ctx| - 1], 0)
    ensures |ctx| <= MAX_DEPTH == |path| == |dir|
    ensures path[|ctx| - 1] == ctx[|ctx| - 1].i.at && dir[|ctx| - 1] == ctx[|ctx| - 1].d
    ensures |ctx| > 1 ==> path[|ctx| - 2] == ctx[|ctx| - 2].i.at && dir[|ctx| - 2] == ctx[|ctx| - 2].d
  {
    assert dir[|ctx| - 1 - 0] == ctx[|ctx| - 1].d;
    assert |ctx| > 1 ==> dir[|ctx| - 2 - 0] == ctx[|ctx| - 2].d;
  }

  /** Nothing is left to retrace when only the anchor remains. */
  lemma SinkingDone(ctx: Path, sub: Tree, s: seq<Item>)
    requires Sinking(ctx, sub, s)
    ensures |ctx| > 0 && (|ctx| == 1 ==> Settled(ctx, sub, s))
  {
  }

  lemma RetracedRefs(ctx: Path, sub: Tree)
    requires |ctx| > 0 && CanRetrace(ctx[|ctx| - 1], sub)
    ensures PathRefs(ctx[..|ctx| - 1]) + Refs(Retraced(ctx[|ctx| - 1], sub).0) == PathRefs(ctx) + Refs(sub)
  {
    var c := ctx[|ctx| - 1];
    RetracedKeeps(c, sub);
    BinUnfold(c.d, sub, c.i, c.sib);
  }

  /** The loop that walks the path back up, rotating as often as needed. */
  method Retrace(m0: Memory, path: seq<Ref>, dir: seq<bool>, d0: nat, ghost ctx0: Path, ghost sub0: Tree, ghost s: seq<Item>)
    returns (m: Memory, ghost ctx: Path, ghost sub: Tree)
    requires Focus(m0, ctx0, sub0) && Sinking(ctx0, sub0, s) && d0 == |ctx0|
    requires Lists(path, ctx0) && Turns(dir, ctx0, 0)
    ensures Focus(m, ctx, sub) && Settled(ctx, sub, s)
    ensures SameOutside(m0, m, PathRefs(ctx0) + Refs(sub0))
    ensures PathRefs(ctx) + Refs(sub) == PathRefs(ctx0) + Refs(sub0)
  {
    hide Focus, Sinking, Settled, Lists, Turns, PathRefs, Refs, Retraced, CanRetrace;
    m, ctx, sub := m0, ctx0, sub0;
    SinkingDone(ctx, sub, s);
    var d := d0 - 1;
    while d > 0
      invariant d == |ctx| - 1 >= 0
      invariant Focus(m, ctx, sub) && Sinking(ctx, sub, s) && Lists(path, ctx) && Turns(dir, ctx, 0)
      invariant SameOutside(m0, m, PathRefs(ctx0) + Refs(sub0))
      invariant PathRefs(ctx) + Refs(sub) == PathRefs(ctx0) + Refs(sub0)
    {
      RetraceStep(ctx, sub, s);
      RetracedRefs(ctx, sub);
      ListsUp(path, dir, ctx);
      var done;
      m, done := RetraceNode(m, path[d], dir[d], path[d - 1], dir[d - 1], ctx, sub);
      ctx, sub := ctx[..d], Retraced(ctx[d], sub).0;
      if done {
        return;
      }
      d := d - 1;
    }
    SinkingDone(ctx, sub, s);
  }

  // ---------------------------------------------------------------- splicing

  /** The node t at the end of the path, its left subtree put in its place. */
  lemma SpliceLeft(ctx: Path, t: Tree)
    requires t.Node? && t.r == Leaf && |ctx| > 0 && ctx[0] == ANCHOR && Balanced(t) && Sized(t)
    requires BalancedPath(ctx, 1, Height(t)) && SizedPath(ctx, 1, Count(t))
    ensures Sinking(Resize(ctx, 1, |ctx|, -1), t.l, (Pre(ctx) + Items(t.l)) + Post(ctx))
  {
    hide Pre, Post, Items, BalancedPath, SizedPath, Balanced, Sized, Height, Count, Whole, Resize;
    LeftOnly(t);
    ResizeAnchor(ctx);
    SpliceLeftBalance(ctx, t);
    SpliceLeftSize(ctx, t);
    ResizeWhole(ctx, t.l);
  }

  lemma LeftOnly(t: Tree)
    requires t.Node? && t.r == Leaf && Balanced(t) && Sized(t)
    ensures Height(t) == Height(t.l) + 1 && Count(t) == Count(t.l) + 1 && Balanced(t.l) && Sized(t.l)
  {
  }

  lemma ResizeAnchor(ctx: Path)
    requires |ctx| > 0 && ctx[0] == ANCHOR
    ensures |Resize(ctx, 1, |ctx|, -1)| == |ctx| && Resize(ctx, 1, |ctx|, -1)[0] == ANCHOR
  {
  }

  lemma SpliceLeftBalance(ctx: Path, t: Tree)
    requires t.Node? && BalancedPath(ctx, 1, Height(t)) && Height(t) == Height(t.l) + 1
    ensures BalancedPath(Resize(ctx, 1, |ctx|, -1), 1, Height(t.l) + 1)
  {
    hide BalancedPath, Height, Resize;
    ResizeBalance(ctx, 1, |ctx|, -1, 1, Height(t));
  }

  lemma SpliceLeftSize(ctx: Path, t: Tree)
    requires t.Node? && SizedPath(ctx, 1, Count(t)) && Count(t) == Count(t.l) + 1
    ensures SizedPath(Resize(ctx, 1, |ctx|, -1), 1, Count(t.l))
  {
    hide SizedPath, Count, Resize;
    ResizeExact(ctx, 1, Count(t), -1);
  }

  lemma ResizeWhole(ctx: Path, t: Tree)
    ensures Whole(Resize(ctx, 1, |ctx|, -1), t) == (Pre(ctx) + Items(t)) + Post(ctx)
  {
    hide Pre, Post, Items, Resize;
    ResizeOrder(ctx, 1, |ctx|, -1);
  }

  /** The crumb of p once the node n has taken its place, with its balance and one node fewer below. */
  function Replaced(p: Info, n: Info, l: Tree): Crumb {
    Crumb(Info(n.at, n.key, p.balance, p.size - 1), true, l)
  }

  /** The path to the hole that r leaves, with r where t was and one node fewer in every size. */
  function SplicedPath(ctx: Path, t: Tree, sp: Path, r: Tree): Path
    requires t.Node? && r.Node?
  {
    Resize(ctx, 1, |ctx|, -1) + [Replaced(t.i, r.i, t.l)] + Resize(sp, 0, |sp|, -1)
  }

  /** The paths differ in addresses and keys at most. */
  predicate SameShape(ctx: Path, ctx': Path) {
    |ctx| == |ctx'| &&
    forall k :: 0 <= k < |ctx| ==>
      && ctx'[k].d == ctx[k].d && ctx'[k].sib == ctx[k].sib
      && ctx'[k].i.balance == ctx[k].i.balance && ctx'[k].i.size == ctx[k].i.size
  }

  lemma {:induction false} SamePath(ctx: Path, ctx': Path, b: nat, h: nat, n: nat)
    requires SameShape(ctx, ctx')
    ensures BalancedPath(ctx', b, h) == BalancedPath(ctx, b, h)
    ensures SizedPath(ctx', b, n) == SizedPath(ctx, b, n)
  {
    if |ctx| > b {
      var m := |ctx| - 1;
      SamePath(ctx[..m], ctx'[..m], b, 1 + Max(h, Height(ctx[m].sib)), n + 1 + Count(ctx[m].sib));
    }
  }

  lemma Snoc(ctx: Path, sp: Path)
    requires |sp| > 0
    ensures sp == sp[..|sp| - 1] + [sp[|sp| - 1]] && ctx + sp == (ctx + sp[..|sp| - 1]) + [sp[|sp| - 1]]
  {
  }

  lemma SpineOrderStep(ctx: Path, sp: Path, c: Crumb)
    requires Pre(ctx + sp) == Pre(ctx) && Post(ctx + sp) == Post(sp) + Post(ctx) && !c.d
    ensures Pre((ctx + sp) + [c]) == Pre(ctx) && Post((ctx + sp) + [c]) == Post(sp + [c]) + Post(ctx)
  {
    hide Pre, Post, Items;
    PrePostDown(ctx + sp, c);
    PrePostDown(sp, c);
  }

  /** A left spine adds nothing before its hole. */
  lemma {:induction false} SpineOrder(ctx: Path, sp: Path)
    requires forall k :: 0 <= k < |sp| ==> !sp[k].d
    ensures Pre(ctx + sp) == Pre(ctx) && Post(ctx + sp) == Post(sp) + Post(ctx)
  {
    if |sp| == 0 {
      assert ctx + sp == ctx;
    } else {
      hide Pre, Post, Items;
      var n := |sp| - 1;
      SpineOrder(ctx, sp[..n]);
      Snoc(ctx, sp);
      SpineOrderStep(ctx, sp[..n], sp[n]);
    }
  }

  /** The node t replaced by the node r, leftmost in its right subtree at the end of the spine sp. */
  lemma SpliceNext(ctx: Path, t: Tree, sp: Path, r: Tree)
    requires t.Node? && |ctx| > 0 && ctx[0] == ANCHOR
    requires r.Node? && r.l == Leaf && Balanced(r) && Sized(r)
    requires forall k :: 0 <= k < |sp| ==> !sp[k].d
    requires var full := ctx + [Crumb(t.i, true, t.l)] + sp;
      BalancedPath(full, 1, Height(r)) && SizedPath(full, 1, Count(r))
    ensures var full' := SplicedPath(ctx, t, sp, r);
      Sinking(full', r.r, (Pre(ctx) + Items(t.l)) + (([ItemOf(r.i)] + Items(r.r)) + Post(sp) + Post(ctx)))
  {
    hide Pre, Post, Items, BalancedPath, SizedPath, Balanced, Sized, Height, Count, SplicedPath, Whole;
    SplicedHead(ctx, t, sp, r);
    LeftmostParts(r);
    SpliceNextExact(ctx, t, sp, r);
    SpliceNextItems(ctx, t, sp, r);
  }

  lemma SplicedHead(ctx: Path, t: Tree, sp: Path, r: Tree)
    requires t.Node? && r.Node? && |ctx| > 0
    ensures |SplicedPath(ctx, t, sp, r)| == |ctx| + 1 + |sp| && SplicedPath(ctx, t, sp, r)[0] == ctx[0]
  {
  }

  lemma LeftmostParts(r: Tree)
    requires r.Node? && r.l == Leaf && Balanced(r) && Sized(r)
    ensures Balanced(r.r) && Sized(r.r) && Height(r) == Height(r.r) + 1 && Count(r) == Count(r.r) + 1
  {
  }

  lemma SpliceNextExact(ctx: Path, t: Tree, sp: Path, r: Tree)
    requires t.Node? && |ctx| > 0 && r.Node? && Count(r) == Count(r.r) + 1
    requires var full := ctx + [Crumb(t.i, true, t.l)] + sp;
      BalancedPath(full, 1, Height(r)) && SizedPath(full, 1, Count(r))
    ensures var full' := SplicedPath(ctx, t, sp, r);
      BalancedPath(full', 1, Height(r)) && SizedPath(full', 1, Count(r.r))
  {
    hide BalancedPath, SizedPath, Height, Count, SameShape, Resize, SplicedPath;
    var full := ctx + [Crumb(t.i, true, t.l)] + sp;
    ResizeBalance(full, 1, |full|, -1, 1, Height(r));
    ResizeExact(full, 1, Count(r), -1);
    SpliceSame(ctx, t, sp, r);
    SamePath(Resize(full, 1, |full|, -1),
             SplicedPath(ctx, t, sp, r), 1, Height(r), Count(r.r));
  }

  lemma SpliceSame(ctx: Path, t: Tree, sp: Path, r: Tree)
    requires t.Node? && r.Node? && |ctx| > 0
    ensures var full := ctx + [Crumb(t.i, true, t.l)] + sp;
      SameShape(Resize(full, 1, |full|, -1),
                SplicedPath(ctx, t, sp, r))
  {
  }

  lemma SpliceNextItems(ctx: Path, t: Tree, sp: Path, r: Tree)
    requires t.Node? && r.Node?
    requires forall k :: 0 <= k < |sp| ==> !sp[k].d
    ensures var full' := SplicedPath(ctx, t, sp, r);
      Whole(full', r.r) == (Pre(ctx) + Items(t.l)) + (([ItemOf(r.i)] + Items(r.r)) + Post(sp) + Post(ctx))
  {
    hide Items, Pre, Post;
    var c1, sp1, c := Resize(ctx, 1, |ctx|, -1), Resize(sp, 0, |sp|, -1), Replaced(t.i, r.i, t.l);
    ResizeOrder(ctx, 1, |ctx|, -1);
    ResizeOrder(sp, 0, |sp|, -1);
    SpineOrder(c1 + [c], sp1);
    PrePostDown(c1, c);
    Reassociate(Pre(ctx), Items(t.l), [ItemOf(r.i)], Items(r.r), Post(sp), Post(ctx));
  }

  lemma Reassociate(p: seq<Item>, l: seq<Item>, x: seq<Item>, r: seq<Item>, a: seq<Item>, b: seq<Item>)
    ensures (p + (l + x)) + r + (a + ([] + b)) == (p + l) + ((x + r) + a + b)
  {
  }

  // ---------------------------------------------------------------- splicing in memory

  /** Opening a tree along a path inside it. */
  lemma {:induction false} FocusDownTo(m: Memory, ctx: Path, sp: Path, t: Tree)
    requires Focus(m, ctx, Plug(sp, t))
    ensures Focus(m, ctx + sp, t)
    decreases |sp|
  {
    if |sp| == 0 {
      assert ctx + sp == ctx;
    } else {
      hide Focus;
      var n := |sp| - 1;
      var u := Fill(sp[n], t);
      FocusDownTo(m, ctx, sp[..n], u);
      FocusDown(m, ctx + sp[..n], u, sp[n].d);
      Snoc(ctx, sp);
    }
  }

  /** The right subtree of t opened along its left spine sp down to the node rt. */
  predicate Spine(m: Memory, ctx: Path, t: Tree, sp: Path, rt: Tree) {
    && t.Node? && rt.Node? && |sp| > 0 && (forall k :: 0 <= k < |sp| ==> !sp[k].d)
    && t.r == Plug(sp, rt)
    && Focus(m, ctx + [Crumb(t.i, true, t.l)] + sp, rt)
  }

  /** The arrays list the path but for the entry that the removed node p will give up. */
  predicate ListsBut(path: seq<Ref>, dir: seq<bool>, ctx: Path, p: Ref, sp: Path) {
    && |path| == |dir| == MAX_DEPTH && |ctx| + 1 + |sp| <= MAX_DEPTH
    && Lists(path, ctx) && Turns(dir, ctx, 0)
    && forall k :: 0 <= k < |sp| ==> path[|ctx| + 1 + k] == sp[k].i.at && dir[|ctx| + 1 + k] == sp[k].d
  }

  lemma SpineStart(m: Memory, ctx: Path, t: Tree)
    requires Focus(m, ctx, t) && t.Node? && t.r.Node? && t.r.l.Node?
    ensures Spine(m, ctx, t, [Crumb(t.r.i, false, t.r.r)], t.r.l)
    ensures t.i.at in m && m[t.i.at].p1 == t.r.i.at && t.r.i.at in m && m[t.r.i.at].p0 == t.r.l.i.at
  {
    FocusDown(m, ctx, t, true);
    FocusDown(m, ctx + [Crumb(t.i, true, t.l)], t.r, false);
    var sp := [Crumb(t.r.i, false, t.r.r)];
    assert sp[..0] == [];
    assert Plug(sp, t.r.l) == t.r;
  }

  lemma SpineDown(m: Memory, ctx: Path, t: Tree, sp: Path, rt: Tree)
    requires Spine(m, ctx, t, sp, rt)
    ensures rt.Node?
    ensures rt.i.at in m && m[rt.i.at].p0 == Ptr(rt.l) && m[rt.i.at].p1 == Ptr(rt.r) && m[rt.i.at].key == rt.i.key
    ensures rt.l == Leaf <==> Ptr(rt.l) == 0
    ensures rt.l.Node? ==> Spine(m, ctx, t, sp + [Crumb(rt.i, false, rt.r)], rt.l)
  {
    if rt.l.Node? {
      var c := Crumb(rt.i, false, rt.r);
      FocusDown(m, ctx + [Crumb(t.i, true, t.l)] + sp, rt, false);
      PlugDown(sp, rt, false);
      assert ctx + [Crumb(t.i, true, t.l)] + (sp + [c]) == (ctx + [Crumb(t.i, true, t.l)] + sp) + [c];
    }
  }

  /** The loop that looks for the next node in key order, the leftmost in the right subtree. */
  method FindNext(m: Memory, p: Ref, path0: seq<Ref>, dir0: seq<bool>, d0: nat, ghost ctx: Path, ghost t: Tree)
    returns (q: Ref, r: Ref, path: seq<Ref>, dir: seq<bool>, d: nat, ghost sp: Path, ghost rt: Tree)
    requires Focus(m, ctx, t) && p == Ptr(t) && t.Node? && t.r.Node? && t.r.l.Node?
    requires ListsBut(path0, dir0, ctx, p, []) && d0 == |ctx| && |ctx| + Height(t) <= 46
    ensures Spine(m, ctx, t, sp, rt) && rt.Node? && rt.l == Leaf && |sp| > 0 && r == rt.i.at && q == sp[|sp| - 1].i.at
    ensures ListsBut(path, dir, ctx, p, sp) && d == |ctx| + 1 + |sp|
  {
    hide Spine, Focus, ListsBut, Height;
    path, dir, d := path0, dir0, d0 + 1;
    SpineStart(m, ctx, t);
    SpineHeights(t);
    q := m[p].p1;
    sp, rt := [Crumb(t.r.i, false, t.r.r)], t.r.l;
    ListsButDown(path, dir, ctx, p, [], sp[0]);
    dir, path, d := dir[d := false], path[d := q], d + 1;
    r := m[q].p0;
    SpineDown(m, ctx, t, sp, rt);
    assert [] + sp == sp;
    while m[r].p0 != 0
      invariant Spine(m, ctx, t, sp, rt) && rt.Node? && r == rt.i.at && |sp| > 0 && q == sp[|sp| - 1].i.at
      invariant r in m && m[r].p0 == Ptr(rt.l) && (rt.l == Leaf <==> Ptr(rt.l) == 0)
      invariant ListsBut(path, dir, ctx, p, sp) && d == |ctx| + 1 + |sp| && d + Height(rt) <= 46
      decreases rt
    {
      SpineDown(m, ctx, t, sp, rt);
      ghost var c := Crumb(rt.i, false, rt.r);
      ListsButDown(path, dir, ctx, p, sp, c);
      KidHeight(rt);
      q := r;
      dir, path, d := dir[d := false], path[d := q], d + 1;
      r := m[q].p0;
      sp, rt := sp + [c], rt.l;
      SpineDown(m, ctx, t, sp, rt);
    }
  }

  lemma KidHeight(t: Tree)
    requires t.Node?
    ensures Height(t.l) < Height(t) && Height(t.r) < Height(t)
  {
  }

  lemma SpineHeights(t: Tree)
    requires t.Node? && t.r.Node?
    ensures Height(t.r.l) + 2 <= Height(t) && Height(t) > 0
  {
  }

  lemma ListsButDown(path: seq<Ref>, dir: seq<bool>, ctx: Path, p: Ref, sp: Path, c: Crumb)
    requires ListsBut(path, dir, ctx, p, sp) && |ctx| + 1 + |sp| < MAX_DEPTH && !c.d
    ensures |path| == |dir| == MAX_DEPTH
    ensures var d := |ctx| + 1 + |sp|; ListsBut(path[d := c.i.at], dir[d := false], ctx, p, sp + [c])
  {
  }

  /** The node r has given its place to its right subtree; the rest of the tree is as before. */
  lemma DetachNext(m: Memory, ctx: Path, t: Tree, sp: Path, rt: Tree)
    requires Spine(m, ctx, t, sp, rt) && rt.Node? && rt.l == Leaf
    ensures var q := sp[|sp| - 1].i.at; var u := Node(t.l, t.i, Plug(sp, rt.r));
      && q in m && rt.i.at in m && m[rt.i.at].p1 == Ptr(rt.r)
      && Focus(m[q := m[q].(p0 := Ptr(rt.r))], ctx, u)
      && Ptr(Plug(sp, rt.r)) == Ptr(t.r)
  {
    hide HoldsPath, Holds, Plug, Distinct;
    var pc := Crumb(t.i, true, t.l);
    var full := ctx + [pc] + sp;
    SpineDown(m, ctx, t, sp, rt);
    RightPart(m, rt);
    assert full[|full| - 1] == sp[|sp| - 1];
    Relink(m, m, full, rt, rt.r);
    var m' := m[sp[|sp| - 1].i.at := m[sp[|sp| - 1].i.at].(p0 := Ptr(rt.r))];
    FocusUpTo(m', full, rt.r, |ctx|);
    assert full[..|ctx|] == ctx && full[|ctx|..] == [pc] + sp;
    PlugCons(pc, sp, rt.r);
    PtrPlug(sp, rt);
    PtrPlug(sp, rt.r);
  }

  lemma RightPart(m: Memory, t: Tree)
    requires Holds(m, t) && Distinct(t) && t.Node?
    ensures Holds(m, t.r) && Distinct(t.r) && Refs(t.r) <= Refs(t) && t.i.at in Refs(t) && t.i.at !in Refs(t.r) && t.i.at != 0
  {
  }

  lemma DetachRefs(m: Memory, ctx: Path, t: Tree, sp: Path, rt: Tree)
    requires Spine(m, ctx, t, sp, rt) && rt.Node? && rt.l == Leaf
    ensures var q := sp[|sp| - 1].i.at; var u := Node(t.l, t.i, Plug(sp, rt.r));
      && q != rt.i.at && rt.i.at != 0 && rt.i.at !in Refs(u) && rt.i.at !in PathRefs(ctx) && rt.i.at in Refs(t)
      && q in Refs(t) && Refs(u) <= Refs(t)
  {
    hide HoldsPath, Holds, Plug, Distinct;
    var pc := Crumb(t.i, true, t.l);
    var full := ctx + [pc] + sp;
    RightPart(m, rt);
    PathApart(m, full, Ptr(rt), Refs(rt));
    CrumbRefs(ctx + [pc], sp);
    CrumbRefs(ctx, [pc]);
    RefsPlug(sp, rt);
    RefsPlug(sp, rt.r);
    InPathRefs(sp, |sp| - 1);
    assert PathRefs([pc]) == Span(pc) by {
      assert [pc][..0] == [];
    }
  }

  lemma PlugCons(c: Crumb, sp: Path, t: Tree)
    ensures Plug([c] + sp, t) == Fill(c, Plug(sp, t))
  {
    PlugSplit([c] + sp, t, 1);
    assert ([c] + sp)[..1] == [c] && ([c] + sp)[1..] == sp && [c][..0] == [];
  }

  lemma {:induction false} CrumbRefs(a: Path, b: Path)
    ensures PathRefs(a + b) == PathRefs(a) + PathRefs(b)
  {
    if |b| == 0 {
      assert a + b == a;
    } else {
      var n := |b| - 1;
      CrumbRefs(a, b[..n]);
      assert (a + b)[..|a| + n] == a + b[..n];
    }
  }

  /** Node r written over the position of p: linked to p's children and hung below p's parent. */
  lemma TakePlace(m: Memory, m': Memory, ctx: Path, u: Tree, r: Ref, key: int, size: int)
    requires Focus(m, ctx, u) && u.Node? && |ctx| > 0
    requires r != 0 && r in m && r !in Refs(u) && r !in PathRefs(ctx) && m[r].key == key
    requires var c := ctx[|ctx| - 1];
      && c.i.at in m
      && m' == m[r := Cell(key, Ptr(u.l), Ptr(u.r), u.i.balance, size)][c.i.at := Put(m[c.i.at], c.d, r)]
    ensures Focus(m', ctx, Node(u.l, Info(r, key, u.i.balance, size), u.r))
    ensures SameOutside(m, m', PathRefs(ctx) + {r})
  {
    var v := Node(u.l, Info(r, key, u.i.balance, size), u.r);
    var c := ctx[|ctx| - 1];
    InPathRefs(ctx, |ctx| - 1);
    PathApart(m, ctx, Ptr(u), Refs(u));
    HoldsFrame(m, m', u.l);
    HoldsFrame(m, m', u.r);
    PathFrame(m, m, ctx, Ptr(u), Refs(u), Refs(u) + {r});
    FocusHole(m, m', ctx, Ptr(u), Refs(u) + {r}, v);
  }

  /** What kavl_erase has to find at p before it splices: the sizes above p already count it out. */
  predicate Spliceable(m: Memory, p: Ref, path: seq<Ref>, dir: seq<bool>, d: nat, ctx: Path, t: Tree) {
    && t.Node? && p == Ptr(t) && d == |ctx| > 0 && ctx[0] == ANCHOR && |ctx| + Height(t) <= 46
    && Balanced(t) && BalancedPath(ctx, 1, Height(t)) && Sized(t) && SizedPath(ctx, 1, Count(t))
    && Focus(m, Resize(ctx, 1, |ctx|, -1), t)
    && Lists(path, ctx) && Turns(dir, ctx, 0)
  }

  /** The items left once t's own node is gone. */
  function Remaining(ctx: Path, t: Tree): seq<Item>
    requires t.Node?
  {
    (Pre(ctx) + Items(t.l)) + (Items(t.r) + Post(ctx))
  }

  /** The right subtree is empty: the left one moves up. */
  method SpliceEmpty(m0: Memory, p: Ref, path: seq<Ref>, dir: seq<bool>, d: nat, ghost ctx: Path, ghost t: Tree)
    returns (m: Memory, ghost full: Path)
    requires Spliceable(m0, p, path, dir, d, ctx, t) && t.r == Leaf
    ensures Focus(m, full, t.l) && Sinking(full, t.l, Remaining(ctx, t))
    ensures Lists(path, full) && Turns(dir, full, 0) && |full| == d
    ensures PathRefs(full) == PathRefs(ctx) && SameOutside(m0, m, PathRefs(ctx) + Refs(t))
  {
    hide Pre, Post, Items, BalancedPath, SizedPath, HoldsPath, Lists, Turns, PathRefs, Resize, Holds, Distinct, Refs, Sinking,
      Balanced, Sized, Height, Count;
    full := Resize(ctx, 1, |ctx|, -1);
    ResizeLists(path, dir, ctx);
    ListsUp(path, dir, ctx);
    SpliceLeft(ctx, t);
    EmptyItems(Items(t.r), Post(ctx), t.r);
    LeftPart(m0, t);
    Relink(m0, m0, full, t, t.l);
    m := m0[path[d - 1] := Put(m0[path[d - 1]], dir[d - 1], m0[p].p0)];
  }

  lemma EmptyItems(a: seq<Item>, b: seq<Item>, t: Tree)
    requires t == Leaf && a == Items(t)
    ensures a + b == b
  {
  }

  lemma LeftPart(m: Memory, t: Tree)
    requires Holds(m, t) && Distinct(t) && t.Node?
    ensures Holds(m, t.l) && Distinct(t.l) && Refs(t.l) <= Refs(t)
    ensures t.i.at in m && m[t.i.at].p0 == Ptr(t.l)
  {
  }

  lemma ResizeLists(path: seq<Ref>, dir: seq<bool>, ctx: Path)
    requires Lists(path, ctx) && Turns(dir, ctx, 0)
    ensures var full := Resize(ctx, 1, |ctx|, -1);
      && Lists(path, full) && Turns(dir, full, 0) && PathRefs(full) == PathRefs(ctx) && |full| == |ctx|
      && (|ctx| > 0 ==> full[|ctx| - 1].i.at == ctx[|ctx| - 1].i.at && full[|ctx| - 1].d == ctx[|ctx| - 1].d)
  {
    SameRefs(ctx, Resize(ctx, 1, |ctx|, -1));
  }

  /** The right child has no left child: it moves up and keeps its own right subtree. */
  method SpliceChild(m0: Memory, p: Ref, path0: seq<Ref>, dir0: seq<bool>, d: nat, ghost ctx: Path, ghost t: Tree)
    returns (m: Memory, path: seq<Ref>, dir: seq<bool>, ghost full: Path)
    requires Spliceable(m0, p, path0, dir0, d, ctx, t) && t.r.Node? && t.r.l == Leaf
    ensures Focus(m, full, t.r.r) && Sinking(full, t.r.r, Remaining(ctx, t))
    ensures Lists(path, full) && Turns(dir, full, 0) && |full| == d + 1
    ensures SameOutside(m0, m, PathRefs(ctx) + Refs(t))
    ensures PathRefs(full) + Refs(t.r.r) <= PathRefs(ctx) + Refs(t)
  {
    hide Pre, Post, Items, BalancedPath, SizedPath, HoldsPath, Lists, Turns, PathRefs, Resize, Holds, Distinct, Refs, Sinking,
      Remaining, Balanced, Sized, Height, Count;
    ghost var c1 := Resize(ctx, 1, |ctx|, -1);
    ghost var c := Replaced(t.i, t.r.i, t.l);
    ghost var v := Node(t.l, c.i, t.r.r);
    full := c1 + [c];
    ResizeLists(path0, dir0, ctx);
    ListsUp(path0, dir0, ctx);
    ListsDown(path0, c1, c);
    TurnsDown(dir0, c1, 0, c);
    SpliceChildPlan(ctx, t);
    ChildRefs(ctx, t);
    ChildHolds(m0, t);
    var q := m0[p].p1;
    m := m0[q := m0[q].(p0 := m0[p].p0)];
    m := m[q := m[q].(balance := m[p].balance)];
    m := m[q := m[q].(size := m[p].size - 1)];
    assert m == m0[q := Cell(t.r.i.key, Ptr(t.l), Ptr(t.r.r), t.i.balance, t.i.size - 1)];
    Relink(m0, m, c1, t, v);
    m := m[path0[d - 1] := Put(m[path0[d - 1]], dir0[d - 1], q)];
    FocusDown(m, c1, v, true);
    path, dir := path0[d := q], dir0[d := true];
  }

  lemma ChildHolds(m: Memory, t: Tree)
    requires Holds(m, t) && Distinct(t) && t.Node? && t.r.Node? && t.r.l == Leaf
    ensures var q := t.r.i.at; var v := Node(t.l, Info(q, t.r.i.key, t.i.balance, t.i.size - 1), t.r.r);
      && t.i.at in m && q in m && t.i.at != q && m[t.i.at] == Cell(t.i.key, Ptr(t.l), q, t.i.balance, t.i.size)
      && m[q] == Cell(t.r.i.key, 0, Ptr(t.r.r), t.r.i.balance, t.r.i.size)
      && var m' := m[q := Cell(t.r.i.key, Ptr(t.l), Ptr(t.r.r), t.i.balance, t.i.size - 1)];
      && Holds(m', v) && Distinct(v) && Refs(v) <= Refs(t) && SameOutside(m, m', Refs(t))
  {
    var q := t.r.i.at;
    var m' := m[q := Cell(t.r.i.key, Ptr(t.l), Ptr(t.r.r), t.i.balance, t.i.size - 1)];
    HoldsFrame(m, m', t.l);
    HoldsFrame(m, m', t.r.r);
  }

  lemma SpliceChildPlan(ctx: Path, t: Tree)
    requires t.Node? && t.r.Node? && t.r.l == Leaf && |ctx| > 0 && ctx[0] == ANCHOR && Balanced(t) && Sized(t)
    requires BalancedPath(ctx, 1, Height(t)) && SizedPath(ctx, 1, Count(t))
    ensures Sinking(Resize(ctx, 1, |ctx|, -1) + [Replaced(t.i, t.r.i, t.l)], t.r.r, Remaining(ctx, t))
  {
    hide Pre, Post, Items, BalancedPath, SizedPath, Height, Count, Balanced, Sized, Resize, Sinking, SplicedPath;
    var r := t.r;
    ExactDown(ctx, 1, t, true);
    KidsExact(t);
    EmptySpine(ctx, t);
    SpliceNext(ctx, t, [], r);
  }

  lemma EmptySpine(ctx: Path, t: Tree)
    requires t.Node? && t.r.Node? && t.r.l == Leaf
    ensures ctx + [Crumb(t.i, true, t.l)] + [] == ctx + [Crumb(t.i, true, t.l)]
    ensures SplicedPath(ctx, t, [], t.r) == Resize(ctx, 1, |ctx|, -1) + [Replaced(t.i, t.r.i, t.l)]
    ensures ([ItemOf(t.r.i)] + Items(t.r.r)) + Post([]) + Post(ctx) == Items(t.r) + Post(ctx)
  {
    hide Post, BalancedPath, SizedPath;
    SpineItems([], t.r);
    assert Plug([], t.r) == t.r;
    assert Resize([], 0, 0, -1) == [];
  }

  lemma ChildRefs(ctx: Path, t: Tree)
    requires t.Node? && t.r.Node?
    ensures var full := Resize(ctx, 1, |ctx|, -1) + [Replaced(t.i, t.r.i, t.l)];
      PathRefs(full) + Refs(t.r.r) <= PathRefs(ctx) + Refs(t)
  {
    var c1, c := Resize(ctx, 1, |ctx|, -1), Replaced(t.i, t.r.i, t.l);
    SameRefs(ctx, c1);
    assert (c1 + [c])[..|c1|] == c1;
  }

  lemma KidsExact(t: Tree)
    requires t.Node? && Balanced(t) && Sized(t)
    ensures Balanced(t.l) && Balanced(t.r) && Sized(t.l) && Sized(t.r)
  {
  }

  /** Node r takes the links, the balance and the place of p; q drops r. */
  method MoveUp(m0: Memory, p: Ref, q: Ref, r: Ref, parent: Ref, parentDir: bool,
                ghost ctx: Path, ghost t: Tree, ghost sp: Path, ghost rt: Tree) returns (m: Memory)
    requires Spine(m0, ctx, t, sp, rt) && rt.Node? && rt.l == Leaf && |ctx| > 0 && Focus(m0, ctx, t)
    requires p == t.i.at && q == sp[|sp| - 1].i.at && r == rt.i.at
    requires parent == ctx[|ctx| - 1].i.at && parentDir == ctx[|ctx| - 1].d
    ensures Focus(m, ctx + [Crumb(Info(r, rt.i.key, t.i.balance, rt.i.size), true, t.l)] + sp, rt.r)
    ensures SameOutside(m0, m, PathRefs(ctx) + Refs(t))
  {
    SpineDown(m0, ctx, t, sp, rt);
    DetachNext(m0, ctx, t, sp, rt);
    DetachRefs(m0, ctx, t, sp, rt);
    SpineCells(m0, ctx, t, sp, rt);
    hide HoldsPath, Holds, Plug, Distinct, Refs, PathRefs, Spine, Focus;
    ghost var u := Node(t.l, t.i, Plug(sp, rt.r));
    ghost var v := Node(t.l, Info(r, rt.i.key, t.i.balance, rt.i.size), u.r);
    ghost var ma := m0[q := m0[q].(p0 := Ptr(rt.r))];
    m := m0[r := m0[r].(p0 := m0[p].p0)];
    m := m[q := m[q].(p0 := m[r].p1)];
    m := m[r := m[r].(p1 := m[p].p1)];
    m := m[r := m[r].(balance := m[p].balance)];
    m := m[parent := Put(m[parent], parentDir, r)];
    assert m == ma[r := Cell(rt.i.key, Ptr(u.l), Ptr(u.r), u.i.balance, rt.i.size)][parent := Put(ma[parent], parentDir, r)];
    TakePlace(ma, m, ctx, u, r, rt.i.key, rt.i.size);
    FocusDown(m, ctx, v, true);
    FocusDownTo(m, ctx + [Crumb(v.i, true, t.l)], sp, rt.r);
  }

  lemma SpineCells(m: Memory, ctx: Path, t: Tree, sp: Path, rt: Tree)
    requires Spine(m, ctx, t, sp, rt) && |ctx| > 0 && Focus(m, ctx, t)
    ensures var q, parent, r := sp[|sp| - 1].i.at, ctx[|ctx| - 1].i.at, rt.i.at;
      && t.i.at in m && m[t.i.at].p0 == Ptr(t.l) && m[t.i.at].p1 == Ptr(t.r) && m[t.i.at].balance == t.i.balance
      && m[t.i.at].size == t.i.size
      && q in m && parent in m && parent != q && parent != r && t.i.at != q && t.i.at != r
      && r in m && m[r].size == rt.i.size && parent != t.i.at && parent in PathRefs(ctx)
  {
    var pc := Crumb(t.i, true, t.l);
    var full := ctx + [pc] + sp;
    var n := |full| - 1;
    PathAt(m, ctx, Ptr(t), Refs(t), |ctx| - 1);
    InPathRefs(ctx, |ctx| - 1);
    RefsPlug(sp, rt);
    InPathRefs(sp, |sp| - 1);
    assert full[n] == sp[|sp| - 1];
    PathAt(m, full, Ptr(rt), Refs(rt), n);
    assert t.i.at !in Refs(t.r);
  }

  lemma SplicedByParts(ctx: Path, t: Tree, sp: Path, rt: Tree)
    requires t.Node? && rt.Node?
    ensures var e, d := |ctx|, |ctx| + 1 + |sp|;
      var full := Resize(ctx, 1, |ctx|, -1) + [Crumb(Info(rt.i.at, rt.i.key, t.i.balance, rt.i.size), true, t.l)] + sp;
      var last := Resize(full, e + 1, d, -1);
      && |full| == |last| == d && full[e].i.at == rt.i.at && last[e] == full[e]
      && SplicedPath(ctx, t, sp, rt) == last[e := last[e].(i := last[e].i.(size := t.i.size - 1))]
  {
  }

  lemma ListsSpine(path: seq<Ref>, dir: seq<bool>, ctx: Path, p: Ref, c: Crumb, sp: Path)
    requires ListsBut(path, dir, ctx, p, sp)
    ensures Lists(path[|ctx| := c.i.at], ctx + [c] + sp) && Turns(dir[|ctx| := c.d], ctx + [c] + sp, 0)
    ensures |path| == |dir| == MAX_DEPTH > |ctx|
    ensures |ctx| > 0 ==> path[|ctx| - 1] == ctx[|ctx| - 1].i.at && dir[|ctx| - 1] == ctx[|ctx| - 1].d
  {
    if |ctx| > 0 {
      ListsUp(path, dir, ctx);
    }
  }

  lemma SpliceDeepPlan(m: Memory, ctx: Path, t: Tree, sp: Path, rt: Tree)
    requires t.Node? && |ctx| > 0 && ctx[0] == ANCHOR && Balanced(t) && Sized(t)
    requires BalancedPath(ctx, 1, Height(t)) && SizedPath(ctx, 1, Count(t))
    requires Spine(m, Resize(ctx, 1, |ctx|, -1), t, sp, rt) && rt.Node? && rt.l == Leaf
    ensures Sinking(SplicedPath(ctx, t, sp, rt), rt.r, Remaining(ctx, t))
  {
    var pc := Crumb(t.i, true, t.l);
    assert forall k :: 0 <= k < |sp| ==> !sp[k].d;
    assert t.r == Plug(sp, rt);
    hide Spine, Pre, Post, Items, BalancedPath, SizedPath, Height, Count, Balanced, Sized, Resize, Sinking, Plug;
    ExactDown(ctx, 1, t, true);
    KidsExact(t);
    ExactDownTo(ctx + [pc], sp, rt);
    SpliceNext(ctx, t, sp, rt);
    SpineItems(sp, rt);
    assert (([ItemOf(rt.i)] + Items(rt.r)) + Post(sp)) + Post(ctx) == Items(t.r) + Post(ctx);
  }

  lemma LeftmostItems(r: Tree)
    requires r.Node? && r.l == Leaf
    ensures Items(r) == [ItemOf(r.i)] + Items(r.r)
  {
  }

  lemma SpineItems(sp: Path, rt: Tree)
    requires rt.Node? && rt.l == Leaf && forall k :: 0 <= k < |sp| ==> !sp[k].d
    ensures Items(Plug(sp, rt)) == ([ItemOf(rt.i)] + Items(rt.r)) + Post(sp)
  {
    hide Pre, Post, Items, Plug;
    ItemsPlug(sp, rt);
    LeftmostItems(rt);
    SpinePre(sp);
  }

  lemma {:induction false} SpinePre(sp: Path)
    requires forall k :: 0 <= k < |sp| ==> !sp[k].d
    ensures Pre(sp) == []
  {
    if |sp| > 0 {
      SpinePre(sp[..|sp| - 1]);
    }
  }

  lemma {:induction false} ExactDownTo(ctx: Path, sp: Path, t: Tree)
    requires |ctx| > 0
    requires var u := Plug(sp, t); Balanced(u) && Sized(u) && BalancedPath(ctx, 1, Height(u)) && SizedPath(ctx, 1, Count(u))
    ensures Balanced(t) && Sized(t) && BalancedPath(ctx + sp, 1, Height(t)) && SizedPath(ctx + sp, 1, Count(t))
    decreases |sp|
  {
    if |sp| == 0 {
      assert ctx + sp == ctx;
    } else {
      var n := |sp| - 1;
      var u := Fill(sp[n], t);
      ExactDownTo(ctx, sp[..n], u);
      hide BalancedPath, SizedPath, Height, Count, Plug;
      ExactDown(ctx + sp[..n], 1, u, sp[n].d);
      KidsExact(u);
      Snoc(ctx, sp);
    }
  }

  /** Node r takes p's place and the sizes on the way to where it was are counted down. */
  method Promote(m0: Memory, p: Ref, q: Ref, r: Ref, path: seq<Ref>, dir: seq<bool>, e: nat, d: nat,
                 ghost ctx: Path, ghost t: Tree, ghost sp: Path, ghost rt: Tree) returns (m: Memory)
    requires Spine(m0, Resize(ctx, 1, |ctx|, -1), t, sp, rt) && rt.Node? && rt.l == Leaf && Focus(m0, Resize(ctx, 1, |ctx|, -1), t)
    requires t.Node? && |sp| > 0 && p == t.i.at && q == sp[|sp| - 1].i.at && r == rt.i.at
    requires |path| == MAX_DEPTH > e
    requires e == |ctx| > 0 && d == |ctx| + 1 + |sp|
    requires var c1 := Resize(ctx, 1, |ctx|, -1);
      && Lists(path, c1 + [Crumb(Info(r, rt.i.key, t.i.balance, rt.i.size), true, t.l)] + sp)
      && |dir| == MAX_DEPTH && path[e - 1] == c1[e - 1].i.at && dir[e - 1] == c1[e - 1].d
    ensures Focus(m, SplicedPath(ctx, t, sp, rt), rt.r)
    ensures SameOutside(m0, m, PathRefs(ctx) + Refs(t))
  {
    hide Spine, HoldsPath, Lists, PathRefs, Refs, Resize, SplicedPath, Holds, Distinct, Focus;
    ghost var c1 := Resize(ctx, 1, |ctx|, -1);
    ghost var full := c1 + [Crumb(Info(r, rt.i.key, t.i.balance, rt.i.size), true, t.l)] + sp;
    SplicedByParts(ctx, t, sp, rt);
    SplicedSet(m0, ctx, t, sp, rt);
    SpineCells(m0, c1, t, sp, rt);
    var sizeP := m0[p].size;
    m := MoveUp(m0, p, q, r, path[e - 1], dir[e - 1], c1, t, sp, rt);
    m := AddSizes(m, path, e + 1, d, -1, full, rt.r);
    ghost var last := Resize(full, e + 1, d, -1);
    FocusInfo(m, last, rt.r, e, last[e].i.(size := t.i.size - 1));
    m := m[r := m[r].(size := sizeP - 1)];
  }

  lemma SplicedSet(m: Memory, ctx: Path, t: Tree, sp: Path, rt: Tree)
    requires t.Node? && Spine(m, Resize(ctx, 1, |ctx|, -1), t, sp, rt) && rt.Node? && rt.l == Leaf
    ensures var c1 := Resize(ctx, 1, |ctx|, -1);
      var full := c1 + [Crumb(Info(rt.i.at, rt.i.key, t.i.balance, rt.i.size), true, t.l)] + sp;
      && |c1| == |ctx| && PathRefs(c1) == PathRefs(ctx) && PathRefs(full) <= PathRefs(ctx) + Refs(t)
      && rt.i.at in PathRefs(ctx) + Refs(t)
  {
    SplicedRefs(m, ctx, t, sp, rt);
    SameRefs(ctx, Resize(ctx, 1, |ctx|, -1));
    RefsPlug(sp, rt);
  }

  /** The next node in key order, deeper in the right subtree, takes the place of p. */
  method SpliceDeep(m0: Memory, p: Ref, path0: seq<Ref>, dir0: seq<bool>, d0: nat, ghost ctx: Path, ghost t: Tree)
    returns (m: Memory, path: seq<Ref>, dir: seq<bool>, d: nat, ghost full: Path, ghost sub: Tree)
    requires Spliceable(m0, p, path0, dir0, d0, ctx, t) && t.r.Node? && t.r.l.Node?
    ensures Focus(m, full, sub) && Sinking(full, sub, Remaining(ctx, t))
    ensures Lists(path, full) && Turns(dir, full, 0) && |full| == d
    ensures SameOutside(m0, m, PathRefs(ctx) + Refs(t))
    ensures PathRefs(full) + Refs(sub) <= PathRefs(ctx) + Refs(t)
  {
    hide Focus, Spine, Sinking, Lists, Turns, PathRefs, Refs, BalancedPath, SizedPath, Balanced, Sized, Resize, SplicedPath,
      Remaining, Height, Count, ListsBut;
    ghost var c1 := Resize(ctx, 1, |ctx|, -1);
    ResizeLists(path0, dir0, ctx);
    ListsButStart(path0, dir0, c1, p, |ctx| + Height(t));
    var q, r;
    ghost var sp, rt;
    q, r, path, dir, d, sp, rt := FindNext(m0, p, path0, dir0, d0, c1, t);
    var e := d0;
    ghost var c := Crumb(Info(r, rt.i.key, t.i.balance, rt.i.size), true, t.l);
    ListsSpine(path, dir, c1, p, c, sp);
    path, dir := path[e := r], dir[e := true];
    m := Promote(m0, p, q, r, path, dir, e, d, ctx, t, sp, rt);
    full, sub := SplicedPath(ctx, t, sp, rt), rt.r;
    SpliceDeepPlan(m0, ctx, t, sp, rt);
    SplicedLists(m0, ctx, t, sp, rt, path, dir);
  }

  lemma ListsButStart(path: seq<Ref>, dir: seq<bool>, ctx: Path, p: Ref, h: nat)
    requires Lists(path, ctx) && Turns(dir, ctx, 0) && |ctx| <= h <= 46
    ensures ListsBut(path, dir, ctx, p, [])
  {
  }

  lemma SplicedLists(m: Memory, ctx: Path, t: Tree, sp: Path, rt: Tree, path: seq<Ref>, dir: seq<bool>)
    requires t.Node? && Spine(m, Resize(ctx, 1, |ctx|, -1), t, sp, rt) && rt.Node? && rt.l == Leaf
    requires var full := Resize(ctx, 1, |ctx|, -1) + [Crumb(Info(rt.i.at, rt.i.key, t.i.balance, rt.i.size), true, t.l)] + sp;
      Lists(path, full) && Turns(dir, full, 0)
    ensures var full := SplicedPath(ctx, t, sp, rt);
      && Lists(path, full) && Turns(dir, full, 0) && |full| == |ctx| + 1 + |sp|
      && PathRefs(full) + Refs(rt.r) <= PathRefs(ctx) + Refs(t)
  {
    hide PathRefs, Refs, Lists, Turns, Spine;
    SplicedRefs(m, ctx, t, sp, rt);
    ListsSpliced(path, dir, Resize(ctx, 1, |ctx|, -1) + [Crumb(Info(rt.i.at, rt.i.key, t.i.balance, rt.i.size), true, t.l)] + sp,
                 SplicedPath(ctx, t, sp, rt));
  }

  lemma ListsSpliced(path: seq<Ref>, dir: seq<bool>, ctx: Path, ctx': Path)
    requires Lists(path, ctx) && Turns(dir, ctx, 0) && |ctx| == |ctx'|
    requires forall k :: 0 <= k < |ctx| ==> ctx'[k].i.at == ctx[k].i.at && ctx'[k].d == ctx[k].d
    ensures Lists(path, ctx') && Turns(dir, ctx', 0)
  {
  }

  lemma SplicedRefs(m: Memory, ctx: Path, t: Tree, sp: Path, rt: Tree)
    requires t.Node? && Spine(m, Resize(ctx, 1, |ctx|, -1), t, sp, rt) && rt.Node? && rt.l == Leaf
    ensures var full := Resize(ctx, 1, |ctx|, -1) + [Crumb(Info(rt.i.at, rt.i.key, t.i.balance, rt.i.size), true, t.l)] + sp;
      && PathRefs(SplicedPath(ctx, t, sp, rt)) == PathRefs(full) && |SplicedPath(ctx, t, sp, rt)| == |full|
      && PathRefs(full) + Refs(rt.r) <= PathRefs(ctx) + Refs(t)
      && forall k :: 0 <= k < |full| ==>
        SplicedPath(ctx, t, sp, rt)[k].i.at == full[k].i.at && SplicedPath(ctx, t, sp, rt)[k].d == full[k].d
  {
    var c := Crumb(Info(rt.i.at, rt.i.key, t.i.balance, rt.i.size), true, t.l);
    var c1 := Resize(ctx, 1, |ctx|, -1);
    var full := c1 + [c] + sp;
    SameRefs(full, SplicedPath(ctx, t, sp, rt));
    SameRefs(ctx, c1);
    CrumbRefs(c1 + [c], sp);
    CrumbRefs(c1, [c]);
    RefsPlug(sp, rt);
    assert PathRefs([c]) == Span(c) by {
      assert [c][..0] == [];
    }
  }

  /** The three cases together: the node p leaves the tree. */
  method Splice(m0: Memory, p: Ref, path0: seq<Ref>, dir0: seq<bool>, d0: nat, ghost ctx: Path, ghost t: Tree)
    returns (m: Memory, path: seq<Ref>, dir: seq<bool>, d: nat, ghost full: Path, ghost sub: Tree)
    requires Spliceable(m0, p, path0, dir0, d0, ctx, t)
    ensures Focus(m, full, sub) && Sinking(full, sub, Remaining(ctx, t))
    ensures Lists(path, full) && Turns(dir, full, 0) && |full| == d
    ensures SameOutside(m0, m, PathRefs(ctx) + Refs(t))
    ensures PathRefs(full) + Refs(sub) <= PathRefs(ctx) + Refs(t)
  {
    NodeCells(m0, p, path0, dir0, d0, ctx, t);
    hide Spliceable, Focus, Sinking, Lists, Turns, PathRefs, Remaining;
    path, dir, d := path0, dir0, d0;
    if m0[p].p1 == 0 {
      m, full := SpliceEmpty(m0, p, path, dir, d, ctx, t);
      sub := t.l;
    } else if m0[m0[p].p1].p0 == 0 {
      m, path, dir, full := SpliceChild(m0, p, path, dir, d, ctx, t);
      d, sub := d + 1, t.r.r;
    } else {
      m, path, dir, d, full, sub := SpliceDeep(m0, p, path, dir, d, ctx, t);
    }
  }

  lemma NodeCells(m: Memory, p: Ref, path: seq<Ref>, dir: seq<bool>, d: nat, ctx: Path, t: Tree)
    requires Spliceable(m, p, path, dir, d, ctx, t)
    ensures t.Node? && p in m && m[p].p1 == Ptr(t.r)
    ensures t.r == Leaf <==> Ptr(t.r) == 0
    ensures t.r.Node? ==> Ptr(t.r) in m && m[Ptr(t.r)].p0 == Ptr(t.r.l) && (t.r.l == Leaf <==> Ptr(t.r.l) == 0)
  {
    assert Holds(m, t.r);
    HoldsRefs(m, t.r);
    if t.r.Node? {
      assert Holds(m, t.r.l);
      HoldsRefs(m, t.r.l);
    }
  }

  // ---------------------------------------------------------------- the anchor

  /** The memory in which the anchor's p[0] points to the root. */
  function Anchored(m: Memory, root: Ref): Memory { m[FAKE := Cell(0, root, 0, 0, 0)] }

  lemma AnchorFocus(m: Memory, tree: Tree)
    requires Holds(m, tree) && Distinct(tree) && FAKE !in m
    ensures Focus(Anchored(m, Ptr(tree)), [ANCHOR], tree)
  {
    HoldsRefs(m, tree);
    HoldsFrame(m, Anchored(m, Ptr(tree)), tree);
    assert [ANCHOR][..0] == [];
  }

  /** Putting the anchor above a path changes neither exactness nor order, but for the anchor's own item. */
  lemma {:induction false} AnchorPath(ctx: Path, h: nat, n: nat)
    ensures BalancedPath([ANCHOR] + ctx, 1, h) == BalancedPath(ctx, 0, h)
    ensures SizedPath([ANCHOR] + ctx, 1, n) == SizedPath(ctx, 0, n)
    decreases |ctx|
  {
    if |ctx| > 0 {
      var m := |ctx| - 1;
      AnchorPath(ctx[..m], 1 + Max(h, Height(ctx[m].sib)), n + 1 + Count(ctx[m].sib));
      assert ([ANCHOR] + ctx)[..m + 1] == [ANCHOR] + ctx[..m];
      assert ([ANCHOR] + ctx)[m + 1] == ctx[m];
    }
  }

  lemma {:induction false} AnchorOrder(ctx: Path)
    ensures Pre([ANCHOR] + ctx) == Pre(ctx) && Post([ANCHOR] + ctx) == Post(ctx) + [ItemOf(ANCHOR.i)]
    decreases |ctx|
  {
    if |ctx| == 0 {
      assert [ANCHOR] + ctx == [] + [ANCHOR];
      PrePostDown([], ANCHOR);
      assert Post([]) == [] && Pre([]) == [];
    } else {
      hide Pre, Post, Items;
      var m := |ctx| - 1;
      AnchorOrder(ctx[..m]);
      Snoc([ANCHOR], ctx);
      PrePostDown([ANCHOR] + ctx[..m], ctx[m]);
      PrePostDown(ctx[..m], ctx[m]);
    }
  }

  /** Reading the tree back from below the anchor when retracing is done. */
  lemma AnchorResult(m: Memory, ctx: Path, sub: Tree, s: seq<Item>)
    requires Focus(m, ctx, sub) && Settled(ctx, sub, s + [ItemOf(ANCHOR.i)])
    ensures |ctx| > 0 && var t := Plug(ctx[1..], sub);
      && Balanced(t) && Sized(t) && Items(t) == s && Distinct(t)
      && FAKE in m && m[FAKE].p0 == Ptr(t) && Holds(m - {FAKE}, t)
      && Refs(t) + {FAKE} == PathRefs(ctx) + Refs(sub)
  {
    hide Focus, Pre, Post, Items, Plug, Height, Count, Balanced, Sized, PathRefs, Refs, BalancedPath, SizedPath;
    var rest := ctx[1..];
    var t := Plug(rest, sub);
    assert ctx == [ANCHOR] + rest && ctx[..1] == [ANCHOR];
    AnchorPath(rest, Height(sub), Count(sub));
    BalancedPlug(rest, sub);
    SizedPlug(rest, sub);
    AnchorOrder(rest);
    ItemsPlug(rest, sub);
    AnchorItems(Pre(rest), Items(sub), Post(rest), s, ItemOf(ANCHOR.i));
    FocusUpTo(m, ctx, sub, 1);
    AnchorAlone(m, t);
    RefsPlug(rest, sub);
    CrumbRefs([ANCHOR], rest);
  }

  lemma AnchorItems(p: seq<Item>, a: seq<Item>, q: seq<Item>, s: seq<Item>, x: Item)
    requires p + a + (q + [x]) == s + [x]
    ensures p + a + q == s
  {
    assert p + a + (q + [x]) == (p + a + q) + [x];
    assert ((p + a + q) + [x])[..|p + a + q|] == p + a + q;
    assert (s + [x])[..|s|] == s;
  }

  lemma AnchorAlone(m: Memory, t: Tree)
    requires Focus(m, [ANCHOR], t)
    ensures Distinct(t) && FAKE in m && m[FAKE].p0 == Ptr(t) && Holds(m - {FAKE}, t)
    ensures PathRefs([ANCHOR]) == {FAKE} && FAKE !in Refs(t)
  {
    assert [ANCHOR][..0] == [];
    HoldsFrame(m, m - {FAKE}, t);
  }
}
