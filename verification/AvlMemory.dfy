/** Node memory and what it means for it to hold a tree, whole or opened along a path. */
module AvlMemory {
  import opened AvlTree
  import opened AvlPath

  /** A node as stored: its key, p[0], p[1], balance and size. */
  datatype Cell = Cell(key: int, p0: Ref, p1: Ref, balance: int, size: int)

  type Memory = map<Ref, Cell>

  function At(c: Cell, d: bool): Ref { if d then c.p1 else c.p0 }

  function Put(c: Cell, d: bool, p: Ref): Cell { if d then c.(p1 := p) else c.(p0 := p) }

  /** The cell of a node whose child in direction d is at a and whose other child is at b. */
  function CellOf(i: Info, d: bool, a: Ref, b: Ref): Cell {
    if d then Cell(i.key, b, a, i.balance, i.size) else Cell(i.key, a, b, i.balance, i.size)
  }

  /** Memory holds exactly the nodes of t, linked as t says. */
  predicate Holds(m: Memory, t: Tree) {
    match t
    case Leaf => true
    case Node(l, i, r) =>
      && i.at != 0 && i.at in m && m[i.at] == Cell(i.key, Ptr(l), Ptr(r), i.balance, i.size)
      && Holds(m, l) && Holds(m, r)
  }

  lemma HoldsBin(m: Memory, d: bool, a: Tree, i: Info, b: Tree)
    ensures Holds(m, Bin(d, a, i, b)) <==>
      && i.at != 0 && i.at in m && m[i.at] == CellOf(i, d, Ptr(a), Ptr(b)) && Holds(m, a) && Holds(m, b)
  {
  }

  lemma {:induction false} HoldsFrame(m: Memory, m': Memory, t: Tree)
    requires Holds(m, t)
    requires forall a :: a in Refs(t) && a in m ==> a in m' && m[a] == m'[a]
    ensures Holds(m', t)
  {
    match t
    case Leaf =>
    case Node(l, i, r) =>
      HoldsFrame(m, m', l);
      HoldsFrame(m, m', r);
  }

  /** Writing one cell outside the tree does not disturb it. */
  lemma HoldsWrite(m: Memory, a: Ref, c: Cell, t: Tree)
    requires Holds(m, t) && a !in Refs(t)
    ensures Holds(m[a := c], t)
  {
    HoldsFrame(m, m[a := c], t);
  }

  lemma {:induction false} HoldsRefs(m: Memory, t: Tree)
    requires Holds(m, t)
    ensures Refs(t) <= m.Keys && 0 !in Refs(t)
  {
    match t
    case Leaf =>
    case Node(l, i, r) =>
      HoldsRefs(m, l);
      HoldsRefs(m, r);
  }

  lemma {:induction false} HoldsKeys(m: Memory, t: Tree, k: nat)
    requires Holds(m, t) && k < |Items(t)|
    ensures Items(t)[k].at in m && m[Items(t)[k].at].key == Items(t)[k].key
  {
    if k < |Items(t.l)| {
      HoldsKeys(m, t.l, k);
    } else if k > |Items(t.l)| {
      HoldsKeys(m, t.r, k - |Items(t.l)| - 1);
    }
  }

  // ---------------------------------------------------------------- rotated trees

  predicate SameOutside(m: Memory, m': Memory, s: set<Ref>) {
    m'.Keys == m.Keys && forall a :: a in m && a !in s ==> m'[a] == m[a]
  }

  /** Memory after kavl_rotate1 holds the rotated tree: only the cells of p and q are rewritten. */
  lemma Rotate1Holds(m: Memory, m': Memory, t: Tree, d: bool)
    requires Holds(m, t) && Distinct(t) && t.Node? && Kid(t, !d).Node?
    requires var u := Rotate1(t, d); var q := Kid(t, !d);
      && SameOutside(m, m', {t.i.at, q.i.at}) && t.i.at in m' && q.i.at in m'
      && m'[t.i.at] == CellOf(Kid(u, d).i, d, Ptr(Kid(t, d)), Ptr(Kid(q, d)))
      && m'[q.i.at] == CellOf(u.i, d, t.i.at, Ptr(Kid(q, !d)))
    ensures Holds(m', Rotate1(t, d)) && SameOutside(m, m', Refs(t))
  {
    var q, u := Kid(t, !d), Rotate1(t, d);
    BinUnfold(d, Kid(t, d), t.i, q);
    BinUnfold(d, Kid(q, d), q.i, Kid(q, !d));
    HoldsBin(m, d, Kid(t, d), t.i, q);
    HoldsBin(m, d, Kid(q, d), q.i, Kid(q, !d));
    HoldsFrame(m, m', Kid(t, d));
    HoldsFrame(m, m', Kid(q, d));
    HoldsFrame(m, m', Kid(q, !d));
    HoldsBin(m', d, Kid(t, d), Kid(u, d).i, Kid(q, d));
    HoldsBin(m', d, Kid(u, d), u.i, Kid(q, !d));
  }

  /** Setting both balances after a single rotation. */
  lemma RelevelHolds(m: Memory, t: Tree, d: bool, bt: int, bp: int)
    requires Holds(m, t) && Distinct(t) && t.Node? && Kid(t, d).Node?
    ensures var p := Kid(t, d);
      var u := Bin(d, Bin(d, Kid(p, d), p.i.(balance := bp), Kid(p, !d)), t.i.(balance := bt), Kid(t, !d));
      && t.i.at in m && p.i.at in m && t.i.at != p.i.at
      && var m' := m[t.i.at := m[t.i.at].(balance := bt)][p.i.at := m[p.i.at].(balance := bp)];
      && Holds(m', u) && SameOutside(m, m', Refs(t)) && Refs(u) == Refs(t) && Distinct(u)
  {
    var p := Kid(t, d);
    BinUnfold(d, p, t.i, Kid(t, !d));
    BinUnfold(d, Kid(p, d), p.i, Kid(p, !d));
    HoldsBin(m, d, p, t.i, Kid(t, !d));
    HoldsBin(m, d, Kid(p, d), p.i, Kid(p, !d));
    var m' := m[t.i.at := m[t.i.at].(balance := bt)][p.i.at := m[p.i.at].(balance := bp)];
    HoldsFrame(m, m', Kid(p, d));
    HoldsFrame(m, m', Kid(p, !d));
    HoldsFrame(m, m', Kid(t, !d));
    var p' := Bin(d, Kid(p, d), p.i.(balance := bp), Kid(p, !d));
    HoldsBin(m', d, Kid(p, d), p.i.(balance := bp), Kid(p, !d));
    HoldsBin(m', d, p', t.i.(balance := bt), Kid(t, !d));
    BinUnfold(d, Kid(p, d), p.i.(balance := bp), Kid(p, !d));
    BinUnfold(d, p', t.i.(balance := bt), Kid(t, !d));
  }

  /** The same for three rewritten nodes over four kept subtrees. */
  lemma RebuildHolds(m: Memory, m': Memory, d: bool, a: Tree, p: Info, b: Tree, r: Info, c: Tree, q: Info, e: Tree)
    requires Holds(m, a) && Holds(m, b) && Holds(m, c) && Holds(m, e)
    requires {p.at, q.at, r.at} !! Refs(a) && {p.at, q.at, r.at} !! Refs(b)
    requires {p.at, q.at, r.at} !! Refs(c) && {p.at, q.at, r.at} !! Refs(e)
    requires p.at != 0 && q.at != 0 && r.at != 0 && {p.at, q.at, r.at} <= m'.Keys
    requires SameOutside(m, m', {p.at, q.at, r.at})
    requires m'[p.at] == CellOf(p, d, Ptr(a), Ptr(b)) && m'[q.at] == CellOf(q, d, Ptr(c), Ptr(e))
    requires m'[r.at] == CellOf(r, d, p.at, q.at)
    ensures Holds(m', Bin(d, Bin(d, a, p, b), r, Bin(d, c, q, e)))
  {
    HoldsFrame(m, m', a);
    HoldsFrame(m, m', b);
    HoldsFrame(m, m', c);
    HoldsFrame(m, m', e);
  }

  /** Memory after kavl_rotate2 holds the doubly rotated tree. */
  lemma Rotate2Holds(m: Memory, m': Memory, t: Tree, d: bool)
    requires Holds(m, t) && Distinct(t) && t.Node? && Kid(t, !d).Node? && Kid(Kid(t, !d), d).Node?
    requires var u := Rotate2(t, d); var q := Kid(t, !d); var r := Kid(q, d);
      && SameOutside(m, m', {t.i.at, q.i.at, r.i.at}) && {t.i.at, q.i.at, r.i.at} <= m'.Keys
      && m'[t.i.at] == CellOf(Kid(u, d).i, d, Ptr(Kid(t, d)), Ptr(Kid(r, d)))
      && m'[q.i.at] == CellOf(Kid(u, !d).i, d, Ptr(Kid(r, !d)), Ptr(Kid(q, !d)))
      && m'[r.i.at] == CellOf(u.i, d, t.i.at, q.i.at)
    ensures Holds(m', Rotate2(t, d)) && SameOutside(m, m', Refs(t))
  {
    var q, u := Kid(t, !d), Rotate2(t, d);
    var r := Kid(q, d);
    BinUnfold(d, Kid(t, d), t.i, q);
    BinUnfold(d, r, q.i, Kid(q, !d));
    BinUnfold(d, Kid(r, d), r.i, Kid(r, !d));
    HoldsBin(m, d, Kid(t, d), t.i, q);
    HoldsBin(m, d, r, q.i, Kid(q, !d));
    HoldsBin(m, d, Kid(r, d), r.i, Kid(r, !d));
    RebuildHolds(m, m', d, Kid(t, d), Kid(u, d).i, Kid(r, d), u.i, Kid(r, !d), Kid(u, !d).i, Kid(q, !d));
  }

  // ---------------------------------------------------------------- opened trees

  /** The addresses of a crumb: its node and its sibling's nodes. */
  function Span(c: Crumb): set<Ref> { {c.i.at} + Refs(c.sib) }

  function PathRefs(ctx: Path): set<Ref> {
    if |ctx| == 0 then {} else PathRefs(ctx[..|ctx| - 1]) + Span(ctx[|ctx| - 1])
  }

  lemma {:induction false} InPathRefs(ctx: Path, k: nat)
    requires k < |ctx|
    ensures ctx[k].i.at in PathRefs(ctx)
  {
    if k < |ctx| - 1 {
      InPathRefs(ctx[..|ctx| - 1], k);
    }
  }

  /** Rewriting sizes and balances along a path moves no node. */
  lemma {:induction false} SameRefs(ctx: Path, ctx': Path)
    requires |ctx| == |ctx'|
    requires forall k :: 0 <= k < |ctx| ==> ctx'[k].i.at == ctx[k].i.at && ctx'[k].sib == ctx[k].sib
    ensures PathRefs(ctx') == PathRefs(ctx)
  {
    if |ctx| > 0 {
      SameRefs(ctx[..|ctx| - 1], ctx'[..|ctx| - 1]);
    }
  }

  /** A crumb is in memory, its taken child pointer being p, and its addresses are new to s. */
  predicate HoldsCrumb(m: Memory, c: Crumb, p: Ref, s: set<Ref>) {
    && c.i.at != 0 && c.i.at in m && m[c.i.at] == CellOf(c.i, c.d, p, Ptr(c.sib))
    && Holds(m, c.sib) && Distinct(c.sib) && c.i.at !in Refs(c.sib) && Span(c) !! s
  }

  /** The path is in memory, p being the pointer into the hole and s the addresses used inside it. */
  predicate HoldsPath(m: Memory, ctx: Path, p: Ref, s: set<Ref>) {
    |ctx| == 0 ||
    var c := ctx[|ctx| - 1];
    HoldsCrumb(m, c, p, s) && HoldsPath(m, ctx[..|ctx| - 1], c.i.at, s + Span(c))
  }

  /** Memory holds the opened tree, and no node occurs twice in it. */
  predicate Focus(m: Memory, ctx: Path, t: Tree) {
    Holds(m, t) && Distinct(t) && HoldsPath(m, ctx, Ptr(t), Refs(t))
  }

  lemma FocusDown(m: Memory, ctx: Path, t: Tree, d: bool)
    requires Focus(m, ctx, t) && t.Node?
    ensures Focus(m, ctx + [Crumb(t.i, d, Kid(t, !d))], Kid(t, d))
  {
    var c := Crumb(t.i, d, Kid(t, !d));
    BinUnfold(d, Kid(t, d), t.i, Kid(t, !d));
    assert Refs(Kid(t, d)) + Span(c) == Refs(t);
    assert (ctx + [c])[..|ctx|] == ctx;
  }

  lemma FocusUp(m: Memory, ctx: Path, t: Tree)
    requires |ctx| > 0 && Focus(m, ctx, t)
    ensures Focus(m, ctx[..|ctx| - 1], Fill(ctx[|ctx| - 1], t))
  {
    var c := ctx[|ctx| - 1];
    BinUnfold(c.d, t, c.i, c.sib);
    HoldsBin(m, c.d, t, c.i, c.sib);
    assert Refs(Fill(c, t)) == Refs(t) + Span(c);
  }

  /** Closing the path from the hole up to index b. */
  lemma {:induction false} FocusUpTo(m: Memory, ctx: Path, t: Tree, b: nat)
    requires Focus(m, ctx, t) && b <= |ctx|
    ensures Focus(m, ctx[..b], Plug(ctx[b..], t))
    decreases |ctx|
  {
    if b == |ctx| {
      assert ctx[..b] == ctx;
    } else {
      var n := |ctx| - 1;
      FocusUp(m, ctx, t);
      FocusUpTo(m, ctx[..n], Fill(ctx[n], t), b);
      assert ctx[..n][..b] == ctx[..b];
      assert ctx[..n][b..] == ctx[b..][..|ctx[b..]| - 1];
    }
  }

  lemma FocusWhole(m: Memory, ctx: Path, t: Tree)
    requires Focus(m, ctx, t)
    ensures Holds(m, Plug(ctx, t)) && Distinct(Plug(ctx, t))
  {
    FocusUpTo(m, ctx, t, 0);
    assert ctx[0..] == ctx;
  }

  /** Writes inside s do not disturb a path that avoids s, and s may be changed for another such set. */
  lemma {:induction false} PathFrame(m: Memory, m': Memory, ctx: Path, p: Ref, s: set<Ref>, s': set<Ref>)
    requires HoldsPath(m, ctx, p, s) && PathRefs(ctx) !! s'
    requires forall a :: a in m && a !in s ==> a in m' && m'[a] == m[a]
    ensures HoldsPath(m', ctx, p, s')
  {
    if |ctx| > 0 {
      var n := |ctx| - 1;
      var c := ctx[n];
      assert c.i.at in Span(c);
      HoldsFrame(m, m', c.sib);
      PathApart(m, ctx[..n], c.i.at, s + Span(c));
      PathFrame(m, m', ctx[..n], c.i.at, s + Span(c), s' + Span(c));
    }
  }

  lemma {:induction false} PathApart(m: Memory, ctx: Path, p: Ref, s: set<Ref>)
    requires HoldsPath(m, ctx, p, s)
    ensures PathRefs(ctx) !! s && PathRefs(ctx) <= m.Keys
  {
    if |ctx| > 0 {
      var n := |ctx| - 1;
      HoldsRefs(m, ctx[n].sib);
      PathApart(m, ctx[..n], ctx[n].i.at, s + Span(ctx[n]));
    }
  }

  /** What memory says at the k-th node of a path: the next node, or the hole. */
  lemma {:induction false} PathAt(m: Memory, ctx: Path, p: Ref, s: set<Ref>, k: nat)
    requires HoldsPath(m, ctx, p, s) && k < |ctx|
    ensures var c := ctx[k];
      && c.i.at in m && c.i.at != 0 && c.i.at !in s && Span(c) !! s
      && m[c.i.at] == CellOf(c.i, c.d, if k + 1 < |ctx| then ctx[k + 1].i.at else p, Ptr(c.sib))
      && (k > 0 ==> c.i.at != ctx[0].i.at)
  {
    var n := |ctx| - 1;
    assert ctx[n].i.at in Span(ctx[n]);
    if k < n {
      PathAt(m, ctx[..n], ctx[n].i.at, s + Span(ctx[n]), k);
    } else if n > 0 {
      PathAt(m, ctx[..n], ctx[n].i.at, s + Span(ctx[n]), 0);
    }
  }

  /** Rewriting the balance and size of the k-th node on the path. */
  lemma {:induction false} PathInfo(m: Memory, ctx: Path, p: Ref, s: set<Ref>, k: nat, i: Info)
    requires HoldsPath(m, ctx, p, s) && k < |ctx|
    requires i.at == ctx[k].i.at && i.key == ctx[k].i.key && i.at in m
    ensures HoldsPath(m[i.at := m[i.at].(balance := i.balance, size := i.size)], ctx[k := ctx[k].(i := i)], p, s)
  {
    var n := |ctx| - 1;
    var c := ctx[n];
    var cell := m[i.at].(balance := i.balance, size := i.size);
    var ctx' := ctx[k := ctx[k].(i := i)];
    if k < n {
      PathAt(m, ctx[..n], c.i.at, s + Span(c), k);
      PathInfo(m, ctx[..n], c.i.at, s + Span(c), k, i);
      HoldsWrite(m, i.at, cell, c.sib);
      assert ctx[..n][k := ctx[k].(i := i)] == ctx'[..n];
    } else {
      assert i.at in Span(c);
      assert Span(ctx'[n]) == Span(c);
      assert ctx'[..n] == ctx[..n];
      HoldsWrite(m, i.at, cell, c.sib);
      PathApart(m, ctx[..n], c.i.at, s + Span(c));
      PathFrame(m, m[i.at := cell], ctx[..n], c.i.at, s + Span(c), s + Span(c));
    }
  }

  lemma FocusInfo(m: Memory, ctx: Path, t: Tree, k: nat, i: Info)
    requires Focus(m, ctx, t) && k < |ctx|
    requires i.at == ctx[k].i.at && i.key == ctx[k].i.key
    ensures i.at in m && m[i.at].balance == ctx[k].i.balance && m[i.at].size == ctx[k].i.size
    ensures At(m[i.at], ctx[k].d) == if k + 1 < |ctx| then ctx[k + 1].i.at else Ptr(t)
    ensures t.Node? ==> i.at != t.i.at
    ensures Focus(m[i.at := m[i.at].(balance := i.balance, size := i.size)], ctx[k := ctx[k].(i := i)], t)
  {
    PathAt(m, ctx, Ptr(t), Refs(t), k);
    PathInfo(m, ctx, Ptr(t), Refs(t), k, i);
    HoldsWrite(m, i.at, m[i.at].(balance := i.balance, size := i.size), t);
  }

  /** Replacing the hole's tree and redirecting the innermost taken pointer to it. Memory may have
      changed inside the addresses s, which avoid the path. */
  lemma FocusHole(m: Memory, m': Memory, ctx: Path, p: Ref, s: set<Ref>, t': Tree)
    requires HoldsPath(m, ctx, p, s) && PathRefs(ctx) !! Refs(t')
    requires Holds(m', t') && Distinct(t')
    requires forall a :: a in m && a !in s && (|ctx| > 0 ==> a != ctx[|ctx| - 1].i.at) ==> a in m' && m'[a] == m[a]
    requires |ctx| > 0 ==>
      var c := ctx[|ctx| - 1]; c.i.at in m && c.i.at in m' && m'[c.i.at] == Put(m[c.i.at], c.d, Ptr(t'))
    ensures Focus(m', ctx, t')
  {
    if |ctx| > 0 {
      var n := |ctx| - 1;
      var c := ctx[n];
      assert c.i.at in Span(c);
      HoldsFrame(m, m', c.sib);
      PathApart(m, ctx[..n], c.i.at, s + Span(c));
      PathFrame(m, m', ctx[..n], c.i.at, s + Span(c), Refs(t') + Span(c));
    }
  }

  lemma {:induction false} RefsPlug(ctx: Path, t: Tree)
    ensures Refs(Plug(ctx, t)) == PathRefs(ctx) + Refs(t)
  {
    if |ctx| > 0 {
      var c := ctx[|ctx| - 1];
      BinUnfold(c.d, t, c.i, c.sib);
      RefsPlug(ctx[..|ctx| - 1], Fill(c, t));
    }
  }

  /** Hooking the replaced subtree v into its parent on the path. */
  lemma Relink(m: Memory, m': Memory, ctx: Path, u: Tree, v: Tree)
    requires Focus(m, ctx, u) && |ctx| > 0 && u.Node?
    requires Holds(m', v) && Distinct(v) && Refs(v) <= Refs(u) && SameOutside(m, m', Refs(u))
    ensures var c := ctx[|ctx| - 1];
      && c.i.at in m' && c.i.at != 0 && c.i.at in PathRefs(ctx)
      && (Ptr(u) != m'[c.i.at].p0) == c.d
      && Focus(m'[c.i.at := Put(m'[c.i.at], c.d, Ptr(v))], ctx, v)
  {
    var n := |ctx| - 1;
    var c := ctx[n];
    PathAt(m, ctx, Ptr(u), Refs(u), n);
    PathApart(m, ctx, Ptr(u), Refs(u));
    InPathRefs(ctx, n);
    assert c.sib.Node? ==> c.sib.i.at in Span(c);
    HoldsRefs(m, u);
    var m'' := m'[c.i.at := Put(m'[c.i.at], c.d, Ptr(v))];
    HoldsWrite(m', c.i.at, Put(m'[c.i.at], c.d, Ptr(v)), v);
    FocusHole(m, m'', ctx, Ptr(u), Refs(u), v);
  }

  // ---------------------------------------------------------------- memory updates

  function SizeAt(m: Memory, p: Ref): int
    requires p != 0 ==> p in m
  {
    if p == 0 then 0 else m[p].size
  }

  lemma SizeAtCount(m: Memory, t: Tree)
    requires Holds(m, t) && Sized(t)
    ensures SizeAt(m, Ptr(t)) == Count(t)
  {
  }

  /** KAVL_MAX_DEPTH, the length of every path, direction and iterator stack array. */
  const MAX_DEPTH := 64

  /** The path array lists the nodes of the path. */
  predicate Lists(path: seq<Ref>, ctx: Path) {
    |ctx| <= |path| == MAX_DEPTH && forall k :: 0 <= k < |ctx| ==> path[k] == ctx[k].i.at
  }

  /** The stack array lists the directions taken from index b on. */
  predicate Turns(stack: seq<bool>, ctx: Path, b: nat) {
    |ctx| - b <= |stack| == MAX_DEPTH && forall k :: b <= k < |ctx| ==> stack[k - b] == ctx[k].d
  }

  lemma ListsDown(path: seq<Ref>, ctx: Path, c: Crumb)
    requires Lists(path, ctx) && |ctx| < MAX_DEPTH
    ensures Lists(path[|ctx| := c.i.at], ctx + [c])
  {
  }

  lemma TurnsDown(stack: seq<bool>, ctx: Path, b: nat, c: Crumb)
    requires Turns(stack, ctx, b) && b <= |ctx| < MAX_DEPTH
    ensures Turns(stack[|ctx| - b := c.d], ctx + [c], b)
    ensures Turns(stack[0 := c.d], ctx + [c], |ctx|)
  {
  }

  /** kavl_rotate1. */
  method RotateOnce(m0: Memory, p: Ref, d: bool, ghost t: Tree) returns (m: Memory, q: Ref)
    requires Holds(m0, t) && Distinct(t) && p == Ptr(t)
    requires t.Node? && Kid(t, !d).Node?
    ensures Holds(m, Rotate1(t, d)) && q == Ptr(Rotate1(t, d)) && q == Ptr(Kid(t, !d))
    ensures SameOutside(m0, m, Refs(t))
  {
    ghost var qt := Kid(t, !d);
    BinUnfold(d, Kid(t, d), t.i, qt);
    HoldsBin(m0, d, Kid(t, d), t.i, qt);
    HoldsBin(m0, d, Kid(qt, d), qt.i, Kid(qt, !d));
    m := m0;
    q := At(m[p], !d);
    var sizeP := m[p].size;
    m := m[p := m[p].(size := m[p].size - (m[q].size - SizeAt(m, At(m[q], d))))];
    m := m[q := m[q].(size := sizeP)];
    m := m[p := Put(m[p], !d, At(m[q], d))];
    m := m[q := Put(m[q], d, p)];
    Rotate1Holds(m0, m, t, d);
  }

  /** kavl_rotate2. */
  method RotateTwice(m0: Memory, p: Ref, d: bool, ghost t: Tree) returns (m: Memory, r: Ref)
    requires Holds(m0, t) && Distinct(t) && p == Ptr(t)
    requires t.Node? && Kid(t, !d).Node? && Kid(Kid(t, !d), d).Node?
    ensures Holds(m, Rotate2(t, d)) && r == Ptr(Rotate2(t, d))
    ensures SameOutside(m0, m, Refs(t))
  {
    ghost var qt := Kid(t, !d);
    ghost var rt := Kid(qt, d);
    BinUnfold(d, Kid(t, d), t.i, qt);
    BinUnfold(d, rt, qt.i, Kid(qt, !d));
    HoldsBin(m0, d, Kid(t, d), t.i, qt);
    HoldsBin(m0, d, rt, qt.i, Kid(qt, !d));
    HoldsBin(m0, d, Kid(rt, d), rt.i, Kid(rt, !d));
    hide Holds, Distinct, Refs;
    m := m0;
    var q := At(m[p], !d);
    r := At(m[q], d);
    var x := SizeAt(m, At(m[r], d));
    m := m[r := m[r].(size := m[p].size)];
    m := m[p := m[p].(size := m[p].size - (m[q].size - x))];
    m := m[q := m[q].(size := m[q].size - (x + 1))];
    m := m[p := Put(m[p], !d, At(m[r], d))];
    m := m[r := Put(m[r], d, p)];
    m := m[q := Put(m[q], d, At(m[r], !d))];
    m := m[r := Put(m[r], !d, q)];
    var b1 := if d then -1 else 1;
    if m[r].balance == b1 {
      m := m[q := m[q].(balance := 0)][p := m[p].(balance := -b1)];
    } else if m[r].balance == 0 {
      m := m[q := m[q].(balance := 0)][p := m[p].(balance := 0)];
    } else {
      m := m[q := m[q].(balance := b1)][p := m[p].(balance := 0)];
    }
    m := m[r := m[r].(balance := 0)];
    Rotate2Holds(m0, m, t, d);
  }

  /** The loops that count one node in or out at the path entries from index b up to e. */
  method AddSizes(m0: Memory, path: seq<Ref>, b: nat, e: nat, delta: int, ghost ctx: Path, ghost t: Tree) returns (m: Memory)
    requires b <= e <= |ctx| && Lists(path, ctx) && Focus(m0, ctx, t)
    ensures Focus(m, Resize(ctx, b, e, delta), t) && SameOutside(m0, m, PathRefs(ctx))
  {
    m := m0;
    ghost var c := ctx;
    assert Resize(ctx, b, b, delta) == ctx;
    for i := b to e
      invariant c == Resize(ctx, b, i, delta) && Focus(m, c, t) && SameOutside(m0, m, PathRefs(ctx))
    {
      ghost var info := c[i].i.(size := c[i].i.size + delta);
      FocusInfo(m, c, t, i, info);
      InPathRefs(ctx, i);
      m := m[path[i] := m[path[i]].(size := m[path[i]].size + delta)];
      c := c[i := c[i].(i := info)];
    }
  }
}
