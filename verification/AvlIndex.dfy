/** The index of src/lib/kavl.h over node memory: lookup, insertion with at most one rotation,
    removal with its three splice cases and retracing, in-order iteration and destruction. */
module AvlIndex {
  import opened Common
  import opened AvlTree
  import opened AvlPath
  import opened AvlMemory
  import opened AvlWalk
  import opened AvlErase

  lemma TipStart(ctx: Path, b: nat)
    ensures Lean(ctx, b, b) == ctx
  {
  }

  lemma TurnAt(stack: seq<bool>, ctx: Path, b: nat, k: nat)
    requires Turns(stack, ctx, b) && b <= k < |ctx|
    ensures k - b < |stack| && stack[k - b] == ctx[k].d
  {
  }

  /** Tipping the balance of one more node on the path. */
  lemma TipStep(m: Memory, ctx: Path, b: nat, e: nat, t: Tree)
    requires b <= e < |ctx| && Focus(m, Lean(ctx, b, e), t)
    ensures ctx[e].i.at in m && At(m[ctx[e].i.at], ctx[e].d) == (if e + 1 < |ctx| then ctx[e + 1].i.at else Ptr(t))
    ensures t.Node? ==> ctx[e].i.at != t.i.at
    ensures ctx[e].i.at in PathRefs(ctx)
    ensures Focus(m[ctx[e].i.at := m[ctx[e].i.at].(balance := m[ctx[e].i.at].balance + (if ctx[e].d then 1 else -1))],
                  Lean(ctx, b, e + 1), t)
  {
    hide Focus, PathRefs;
    var c := Lean(ctx, b, e);
    var info := c[e].i.(balance := LeanBalance(c[e].i, c[e].d));
    FocusInfo(m, c, t, e, info);
    InPathRefs(ctx, e);
    assert c[e := c[e].(i := info)] == Lean(ctx, b, e + 1);
  }

  /** Where kavl_insert stands while it looks for the insertion point: bp is the last node passed whose
      balance is not 0 (or the root), bq its parent, stack the directions taken from bp on. */
  predicate Bearings(ctx: Path, b: nat, root: Ref, bp: Ref, bq: Ref, p: Ref, q: Ref, which: bool) {
    && (b < |ctx| || (b == 0 && |ctx| == 0 && p == root))
    && bp == (if b < |ctx| then ctx[b].i.at else root)
    && bq == (if b > 0 then ctx[b - 1].i.at else 0)
    && q == (if |ctx| > 0 then ctx[|ctx| - 1].i.at else 0)
    && (|ctx| > 0 ==> which == ctx[|ctx| - 1].d)
    && (b > 0 ==> ctx[b].i.balance != 0)
    && (forall k :: b < k < |ctx| ==> ctx[k].i.balance == 0)
  }

  lemma DescendStart(tree: Tree, root: Ref, k: int)
    requires Avl(tree) && Count(tree) < WRAP
    ensures Walk(tree, [], tree, k, 0) && Bearings([], 0, root, root, 0, root, 0, false)
    ensures Lists(seq(MAX_DEPTH, _ => 0), []) && Turns(seq(MAX_DEPTH, _ => false), [], 0)
  {
    WalkStart(tree, k);
  }

  lemma BearingsDown(ctx: Path, b: nat, root: Ref, bp: Ref, bq: Ref, p: Ref, q: Ref, which: bool, c: Crumb, p': Ref)
    requires Bearings(ctx, b, root, bp, bq, p, q, which) && p == c.i.at
    ensures c.i.balance != 0 ==> Bearings(ctx + [c], |ctx|, root, p, q, p', p, c.d)
    ensures c.i.balance == 0 ==> Bearings(ctx + [c], b, root, bp, bq, p', p, c.d)
  {
  }

  /** The walk with the new item put where the search ended is sorted and one longer. */
  lemma InsertedItems(tree: Tree, ctx: Path, k: int, cnt: int, x: Ref)
    requires Walk(tree, ctx, Leaf, k, cnt)
    ensures 0 <= cnt <= |Items(tree)|
    ensures var s := Items(tree)[..cnt] + [Item(x, k)] + Items(tree)[cnt..];
      s == Pre(ctx) + [Item(x, k)] + Post(ctx) && Sorted(s) && |s| == Count(tree) + 1
  {
    ItemsPlug(ctx, Leaf);
    ItemsCount(tree);
    var p, q := Pre(ctx), Post(ctx);
    assert Items(tree) == p + q;
    assert Items(tree)[..cnt] == p && Items(tree)[cnt..] == q;
    SortedInsert(p, Item(x, k), q);
  }

  lemma SortedInsert(p: seq<Item>, x: Item, q: seq<Item>)
    requires Sorted(p + q) && AllBelow(p, x.key) && AllAbove(q, x.key)
    ensures Sorted(p + [x] + q)
  {
    var s, t := p + q, p + [x] + q;
    forall a, b | 0 <= a < b < |t| ensures t[a].key < t[b].key {
      if b < |p| {
        assert s[a].key < s[b].key;
      } else if a > |p| {
        assert s[a - 1].key < s[b - 1].key;
      } else if a < |p| < b {
        assert s[a].key < s[b - 1].key;
      }
    }
  }

  /** Linking the new node in below the path. */
  lemma LinkNode(m: Memory, ctx: Path, x: Ref, key: int, m': Memory)
    requires Focus(m, ctx, Leaf) && x != 0 && x in m && x !in PathRefs(ctx)
    requires |ctx| == 0 ==> m' == m[x := Cell(key, 0, 0, 0, 1)]
    requires |ctx| > 0 ==>
      var c := ctx[|ctx| - 1];
      c.i.at in m && m' == m[x := Cell(key, 0, 0, 0, 1)][c.i.at := Put(m[c.i.at], c.d, x)]
    ensures Focus(m', ctx, Single(x, key))
    ensures SameOutside(m, m', PathRefs(ctx) + {x})
  {
    var t := Single(x, key);
    if |ctx| > 0 {
      InPathRefs(ctx, |ctx| - 1);
    }
    PathFrame(m, m, ctx, 0, {}, {x});
    FocusHole(m, m', ctx, 0, {x}, t);
  }

  function Single(x: Ref, k: int): Tree { Node(Leaf, Info(x, k, 0, 1), Leaf) }

  /** The path with the new node counted in everywhere and the balances from index b on tipped. */
  function GrownPath(ctx: Path, b: nat): Path { Lean(Resize(ctx, 0, |ctx|, 1), b, |ctx|) }

  /** The subtree at the last unbalanced ancestor before it is checked. */
  function GrownTop(ctx: Path, b: nat, t: Tree): Tree
    requires b <= |ctx|
  {
    Plug(GrownPath(ctx, b)[b..], t)
  }

  ghost predicate CanFix(ctx: Path, b: nat, t: Tree)
    requires b < |ctx|
  {
    var u := GrownTop(ctx, b, t);
    u.Node? && u.i.at == ctx[b].i.at && (-2 < u.i.balance < 2 || InsertFix.requires(u))
  }

  /** The tree kavl_insert leaves. */
  ghost function GrownTree(ctx: Path, b: nat, t: Tree): Tree
    requires b < |ctx| && CanFix(ctx, b, t)
  {
    Plug(GrownPath(ctx, b)[..b], Fixed(GrownTop(ctx, b, t)))
  }

  /** What kavl_insert has restored once the node at index b has been fixed. */
  lemma InsertResult(tree: Tree, ctx: Path, b: nat, k: int, cnt: int, x: Ref)
    requires Walk(tree, ctx, Leaf, k, cnt) && b < |ctx|
    requires b > 0 ==> ctx[b].i.balance != 0
    requires forall j :: b < j < |ctx| ==> ctx[j].i.balance == 0
    ensures CanFix(ctx, b, Single(x, k))
    ensures var r := GrownTree(ctx, b, Single(x, k));
      Balanced(r) && Sized(r) && Items(r) == Pre(ctx) + [Item(x, k)] + Post(ctx)
  {
    hide Plug, Pre, Post, Balanced, Sized, Items, Height, Count, Fixed, InsertFix, BalancedPath, SizedPath, Brackets, Sorted, Lean, Resize;
    var t := Single(x, k);
    SingleNode(x, k);
    GrownBalance(ctx, b, t);
    GrownSize(ctx, b, t);
    var u := GrownTop(ctx, b, t);
    InsertResultItems(GrownPath(ctx, b), b, t, u);
    InsertResultSized(GrownPath(ctx, b), b, t, u);
    BalancedPlug(GrownPath(ctx, b)[..b], Fixed(u));
  }

  lemma GrownBalance(ctx: Path, b: nat, t: Tree)
    requires b < |ctx| && BalancedPath(ctx, 0, 0) && Balanced(t) && Height(t) == 1
    requires b > 0 ==> ctx[b].i.balance != 0
    requires forall j :: b < j < |ctx| ==> ctx[j].i.balance == 0
    ensures |GrownPath(ctx, b)| == |ctx| && CanFix(ctx, b, t)
    ensures var v := Fixed(GrownTop(ctx, b, t)); Balanced(v) && BalancedPath(GrownPath(ctx, b)[..b], 0, Height(v))
  {
    hide Plug, Balanced, Height, Fixed, InsertFix, BalancedPath;
    var ctx1 := Resize(ctx, 0, |ctx|, 1);
    assert forall j :: 0 <= j < |ctx| ==> ctx1[j].i.balance == ctx[j].i.balance && ctx1[j].i.at == ctx[j].i.at;
    ResizeBalance(ctx, 0, |ctx|, 1, 0, 0);
    InsertRestores(ctx1, b, t);
    assert GrownPath(ctx, b)[..b] == ctx1[..b];
  }

  lemma GrownSize(ctx: Path, b: nat, t: Tree)
    requires b < |ctx| && SizedPath(ctx, 0, 0) && Sized(t) && Count(t) == 1
    ensures Sized(Plug(GrownPath(ctx, b), t))
    ensures Pre(GrownPath(ctx, b)) == Pre(ctx) && Post(GrownPath(ctx, b)) == Post(ctx)
  {
    hide Plug, Sized, Count, SizedPath, Pre, Post, Resize, Lean;
    ResizeOrder(ctx, 0, |ctx|, 1);
    ResizeExact(ctx, 0, 0, 1);
    ResizeLength(ctx);
    LeanKeeps(Resize(ctx, 0, |ctx|, 1), b, |ctx|, 1);
    SizedPlug(GrownPath(ctx, b), t);
  }

  lemma ResizeLength(ctx: Path)
    ensures |Resize(ctx, 0, |ctx|, 1)| == |ctx|
  {
  }

  lemma InsertResultItems(ctx: Path, b: nat, t: Tree, u: Tree)
    requires b < |ctx| && u == Plug(ctx[b..], t) && Fixed.requires(u)
    ensures Items(Plug(ctx[..b], Fixed(u))) == Pre(ctx) + Items(t) + Post(ctx)
  {
    if !(-2 < u.i.balance < 2) {
      InsertFixKeeps(u);
    }
    PlugSplit(ctx, t, b);
    ItemsPlug(ctx, t);
    ItemsPlug(ctx[..b], u);
    ItemsPlug(ctx[..b], Fixed(u));
  }

  lemma InsertResultSized(ctx: Path, b: nat, t: Tree, u: Tree)
    requires b < |ctx| && u == Plug(ctx[b..], t) && Fixed.requires(u) && Sized(Plug(ctx, t))
    ensures Sized(Plug(ctx[..b], Fixed(u)))
  {
    PlugSplit(ctx, t, b);
    SizedAround(ctx[..b], u);
    if !(-2 < u.i.balance < 2) {
      InsertFixKeeps(u);
    }
    SizedPlug(ctx[..b], Fixed(u));
  }

  lemma SingleNode(x: Ref, k: int)
    ensures var t := Single(x, k);
      && Plug([], t) == t && Balanced(t) && Sized(t) && Items(t) == Pre([]) + [Item(x, k)] + Post([]) && Refs(t) == {x}
      && Count(t) == 1 && Height(t) == 1 && Items(t) == [Item(x, k)]
      && Height(Leaf) == 0 && Count(Leaf) == 0
  {
  }

  lemma SameOutsideTrans(m0: Memory, m1: Memory, m2: Memory, s: set<Ref>)
    requires SameOutside(m0, m1, s) && (SameOutside(m1, m2, s) || m1 == m2)
    ensures SameOutside(m0, m2, s) && m0.Keys == m1.Keys == m2.Keys
  {
  }

  /** The facts kavl_insert goes by once the insertion point is known. */
  lemma AttachFacts(m: Memory, tree: Tree, root: Ref, ctx: Path, b: nat, bp: Ref, bq: Ref, q: Ref, which: bool, k: int, cnt: int, x: Ref)
    requires Walk(tree, ctx, Leaf, k, cnt) && Focus(m, ctx, Leaf) && root == Ptr(tree)
    requires Bearings(ctx, b, root, bp, bq, 0, q, which)
    ensures bp == 0 <==> |ctx| == 0
    ensures q == (if |ctx| > 0 then ctx[|ctx| - 1].i.at else 0) && (|ctx| > 0 ==> which == ctx[|ctx| - 1].d)
    ensures |ctx| > 0 ==>
      && b < |ctx| && bp == ctx[b].i.at && bq == (if b > 0 then ctx[b - 1].i.at else 0) && root == ctx[0].i.at
      && CanFix(ctx, b, Single(x, k))
      && var r := GrownTree(ctx, b, Single(x, k));
      Balanced(r) && Sized(r) && Items(r) == Pre(ctx) + [Item(x, k)] + Post(ctx)
  {
    hide HoldsPath, Plug, Pre, Post, Items, Sized, Balanced, Fixed, Lean, Resize, Sorted, CanFix, GrownTree, BalancedPath, SizedPath;
    PtrPlug(ctx, Leaf);
    if |ctx| > 0 {
      PathAt(m, ctx, 0, {}, b);
      InsertResult(tree, ctx, b, k, cnt, x);
    }
  }

  lemma OpenTop(m: Memory, ctx: Path, b: nat, t: Tree)
    requires b < |ctx| && Focus(m, GrownPath(ctx, b), t) && |GrownPath(ctx, b)| == |ctx|
    ensures Focus(m, GrownPath(ctx, b)[..b], GrownTop(ctx, b, t))
  {
    hide Focus, Plug, GrownPath;
    FocusUpTo(m, GrownPath(ctx, b), t, b);
  }

  /** Growing a path moves no node. */
  lemma GrownRefs(ctx: Path, b: nat, t: Tree, stack: seq<bool>)
    requires b < |ctx| && Turns(stack, ctx, b)
    ensures var ctx1, ctx2 := Resize(ctx, 0, |ctx|, 1), GrownPath(ctx, b);
      && |ctx1| == |ctx2| == |ctx| && PathRefs(ctx1) == PathRefs(ctx) && Turns(stack, ctx1, b)
      && PathRefs(ctx2[..b]) + Refs(GrownTop(ctx, b, t)) == PathRefs(ctx) + Refs(t)
      && ctx1[b].i.at == ctx[b].i.at && (b > 0 ==> ctx2[..b][b - 1].i.at == ctx[b - 1].i.at && ctx2[..b][0].i.at == ctx[0].i.at)
  {
    var ctx1, ctx2 := Resize(ctx, 0, |ctx|, 1), GrownPath(ctx, b);
    SameRefs(ctx, ctx1);
    SameRefs(ctx, ctx2);
    PlugSplit(ctx2, t, b);
    RefsPlug(ctx2, t);
    RefsPlug(ctx2[..b], GrownTop(ctx, b, t));
  }

  /** What kavl_erase knows when it has reached the node to remove: cnt nodes come before its subtree. */
  predicate Found(m: Memory, tree: Tree, p: Ref, cnt: int, path: seq<Ref>, dir: seq<bool>, d: nat, ctx: Path, t: Tree) {
    && t.Node? && p == t.i.at && d == |ctx| + 1 && Trail(tree, ctx, t, cnt) && Focus(m, [ANCHOR] + ctx, t)
    && Lists(path, [ANCHOR] + ctx) && Turns(dir, [ANCHOR] + ctx, 0)
  }

  lemma LocateStart(m0: Memory, m: Memory, tree: Tree, key: int, path: seq<Ref>, dir: seq<bool>)
    requires Holds(m0, tree) && Distinct(tree) && Avl(tree) && Count(tree) < WRAP && FAKE !in m0
    requires m == Anchored(m0, Ptr(tree))
    requires |path| == |dir| == MAX_DEPTH && path[0] == FAKE && !dir[0]
    ensures Walk(tree, [], tree, key, 0) && Trail(tree, [], tree, 0) && Focus(m, [ANCHOR] + [], tree)
    ensures Lists(path, [ANCHOR] + []) && Turns(dir, [ANCHOR] + [], 0)
    ensures tree.Node? <==> Ptr(tree) != 0
    ensures tree.Node? ==> Ptr(tree) in m && m[Ptr(tree)].key == tree.i.key
  {
    WalkStart(tree, key);
    AnchorFocus(m0, tree);
    assert [ANCHOR] + [] == [ANCHOR];
  }

  /** One step down the tree below the anchor. */
  lemma StepDown(m: Memory, ctx: Path, t: Tree, d: bool, path: seq<Ref>, dir: seq<bool>)
    requires Focus(m, [ANCHOR] + ctx, t) && t.Node? && Lists(path, [ANCHOR] + ctx) && Turns(dir, [ANCHOR] + ctx, 0)
    requires |ctx| < 45
    ensures var n := |ctx| + 1; var ctx' := ctx + [Crumb(t.i, d, Kid(t, !d))]; var k := Kid(t, d);
      && t.i.at in m && m[t.i.at] == Cell(t.i.key, Ptr(t.l), Ptr(t.r), t.i.balance, t.i.size)
      && Focus(m, [ANCHOR] + ctx', k)
      && Lists(path[n := t.i.at], [ANCHOR] + ctx') && Turns(dir[n := d], [ANCHOR] + ctx', 0)
      && (k.Node? <==> Ptr(k) != 0) && (k.Node? ==> Ptr(k) in m && m[Ptr(k)].key == k.i.key)
      && Holds(m, t.l)
  {
    var c := Crumb(t.i, d, Kid(t, !d));
    FocusDown(m, [ANCHOR] + ctx, t, d);
    assert [ANCHOR] + (ctx + [c]) == ([ANCHOR] + ctx) + [c];
    ListsDown(path, [ANCHOR] + ctx, c);
    TurnsDown(dir, [ANCHOR] + ctx, 0, c);
  }

  lemma LocateDown(m: Memory, tree: Tree, ctx: Path, t: Tree, key: int, cnt: int, path: seq<Ref>, dir: seq<bool>)
    requires Walk(tree, ctx, t, key, cnt) && Focus(m, [ANCHOR] + ctx, t) && t.Node? && t.i.key != key
    requires Lists(path, [ANCHOR] + ctx) && Turns(dir, [ANCHOR] + ctx, 0)
    ensures var d := t.i.key < key; var n := |ctx| + 1;
      var ctx' := ctx + [Crumb(t.i, d, Kid(t, !d))]; var k := Kid(t, d);
      && t.i.at in m && m[t.i.at] == Cell(t.i.key, Ptr(t.l), Ptr(t.r), t.i.balance, t.i.size) && |ctx| < 45
      && (Ptr(t.l) != 0 ==> Ptr(t.l) in m) && SizeAt(m, Ptr(t.l)) == Count(t.l)
      && Walk(tree, ctx', k, key, cnt + (if d then Count(t.l) + 1 else 0)) && Focus(m, [ANCHOR] + ctx', k)
      && Lists(path[n := t.i.at], [ANCHOR] + ctx') && Turns(dir[n := d], [ANCHOR] + ctx', 0)
      && (k.Node? <==> Ptr(k) != 0) && (k.Node? ==> Ptr(k) in m && m[Ptr(k)].key == k.i.key)
  {
    WalkFound(tree, ctx, t, key, cnt);
    hide Walk, Focus, Lists, Turns;
    WalkDown(tree, ctx, t, key, cnt);
    StepDown(m, ctx, t, t.i.key < key, path, dir);
    SizeAtCount(m, t.l);
  }

  lemma LocateEnd(m: Memory, tree: Tree, ctx: Path, t: Tree, key: int, cnt: int, path: seq<Ref>, dir: seq<bool>)
    requires Walk(tree, ctx, t, key, cnt) && Focus(m, [ANCHOR] + ctx, t) && (t.Node? ==> t.i.key == key)
    requires Lists(path, [ANCHOR] + ctx) && Turns(dir, [ANCHOR] + ctx, 0)
    ensures t.Node? ==> Found(m, tree, Ptr(t), cnt, path, dir, |ctx| + 1, ctx, t) && HasKey(tree, key)
    ensures t == Leaf ==> !HasKey(tree, key)
  {
    if t == Leaf {
      WalkAbsent(tree, ctx, key, cnt);
    } else {
      WalkFound(tree, ctx, t, key, cnt);
    }
  }

  /** Removing one item keeps the rest sorted. */
  lemma SortedRemove(s: seq<Item>, k: nat)
    requires Sorted(s) && k < |s|
    ensures Sorted(s[..k] + s[k + 1..])
  {
    var t := s[..k] + s[k + 1..];
    assert forall a :: 0 <= a < |t| ==> t[a] == if a < k then s[a] else s[a + 1];
  }

  /** What will be left, and that nothing outside the tree and the anchor is on the path. */
  lemma DetachPlan(m0: Memory, tree: Tree, m: Memory, p: Ref, path: seq<Ref>, dir: seq<bool>, d: nat, ctx: Path, t: Tree, cnt: int)
    requires Holds(m0, tree) && Avl(tree) && Count(tree) < WRAP && m == Anchored(m0, Ptr(tree))
    requires Found(m, tree, p, cnt, path, dir, d, ctx, t)
    ensures t.Node? && Lists(path, [ANCHOR] + ctx) && Focus(m, [ANCHOR] + ctx, t) && d == |ctx| + 1
    ensures 0 <= cnt + Count(t.l) < |Items(tree)| && Items(tree)[cnt + Count(t.l)] == ItemOf(t.i)
    ensures var s := Items(tree)[..cnt + Count(t.l)] + Items(tree)[cnt + Count(t.l) + 1..];
      && Sorted(s) && |s| < WRAP
      && Remaining([ANCHOR] + ctx, t) == s + [ItemOf(ANCHOR.i)]
    ensures PathRefs([ANCHOR] + ctx) + Refs(t) == Refs(tree) + {FAKE}
  {
    hide Focus, Lists, Turns, PathRefs, Refs, Holds, Balanced, Sized, Plug, BalancedPath, SizedPath, Pre, Post;
    TrailAt(tree, ctx, t, cnt);
    ItemsCount(tree);
    SortedRemove(Items(tree), cnt + Count(t.l));
    RemainingItems(tree, ctx, t, cnt);
    CrumbRefs([ANCHOR], ctx);
    RefsPlug(ctx, t);
    AnchorRef();
  }

  lemma AnchorRef()
    ensures PathRefs([ANCHOR]) == {FAKE}
  {
    assert [ANCHOR][..0] == [];
  }

  lemma RemainingItems(tree: Tree, ctx: Path, t: Tree, cnt: int)
    requires Trail(tree, ctx, t, cnt) && t.Node?
    requires 0 <= cnt + Count(t.l) < |Items(tree)|
    ensures var k := cnt + Count(t.l);
      Remaining([ANCHOR] + ctx, t) == Items(tree)[..k] + Items(tree)[k + 1..] + [ItemOf(ANCHOR.i)]
  {
    hide Pre, Post, Plug, Balanced, Sized, BalancedPath, SizedPath, Items;
    var k := cnt + Count(t.l);
    AnchorOrder(ctx);
    ItemsAround(ctx, t);
    ItemsCount(t.l);
    CutItem(Pre(ctx), Items(t.l), ItemOf(t.i), Items(t.r), Post(ctx), ItemOf(ANCHOR.i));
  }

  lemma CutItem(p: seq<Item>, l: seq<Item>, x: Item, r: seq<Item>, q: seq<Item>, z: Item)
    ensures var s := (p + l) + [x] + (r + q); var k := |p| + |l|;
      (p + l) + (r + (q + [z])) == s[..k] + s[k + 1..] + [z]
  {
    var s, k := (p + l) + [x] + (r + q), |p| + |l|;
    assert s[..k] == p + l && s[k + 1..] == r + q;
  }

  /** Once the sizes above it count it out, the node is ready to be spliced out. */
  lemma DetachReady(m0: Memory, m: Memory, tree: Tree, p: Ref, path: seq<Ref>, dir: seq<bool>, d: nat, ctx: Path, t: Tree, cnt: int)
    requires Found(m0, tree, p, cnt, path, dir, d, ctx, t)
    requires Focus(m, Resize([ANCHOR] + ctx, 1, d, -1), t)
    ensures Spliceable(m, p, path, dir, d, [ANCHOR] + ctx, t)
  {
    hide Focus, Lists, Turns, Plug, Pre, Items;
    AnchorPath(ctx, Height(t), Count(t));
  }

  lemma FoundRank(m: Memory, tree: Tree, p: Ref, cnt: int, path: seq<Ref>, dir: seq<bool>, d: nat, ctx: Path, t: Tree)
    requires Found(m, tree, p, cnt, path, dir, d, ctx, t)
    ensures t.Node? && p == t.i.at && p != 0 && 0 <= cnt + Count(t.l) < |Items(tree)|
    ensures Items(tree)[cnt + Count(t.l)] == ItemOf(t.i)
    ensures p in m && m[p].p0 == Ptr(t.l) && (Ptr(t.l) != 0 ==> Ptr(t.l) in m) && SizeAt(m, m[p].p0) == Count(t.l)
    ensures t.l == Leaf ==> Count(t.l) == 0
  {
    TrailAt(tree, ctx, t, cnt);
    SizeAtCount(m, t.l);
  }

  lemma DetachFrame(mem: Memory, root: Ref, m0: Memory, m1: Memory, m2: Memory, m3: Memory,
                    r1: set<Ref>, r2: set<Ref>, r: set<Ref>)
    requires FAKE !in mem && m0 == Anchored(mem, root)
    requires SameOutside(m0, m1, r1) && SameOutside(m1, m2, r + {FAKE}) && SameOutside(m2, m3, r2)
    requires r1 <= r + {FAKE} && r2 <= r + {FAKE}
    ensures SameOutside(mem, m3 - {FAKE}, r)
  {
    assert (m3 - {FAKE}).Keys == mem.Keys;
  }

  class Index {
    var mem: Memory
    var root: Ref
    ghost var tree: Tree

    ghost predicate Valid()
      reads this
    {
      && Holds(mem, tree) && root == Ptr(tree) && Distinct(tree) && Avl(tree)
      && Count(tree) < WRAP && FAKE !in mem
    }

    // -------------------------------------------------------------- lookup

    /** kavl_find: the node equal to the key if present, and the number of nodes not above it. */
    method Find(key: int) returns (p: Ref, cnt: int)
      requires Valid()
      ensures RankOf(Items(tree), key, cnt)
      ensures p != 0 ==> cnt > 0 && Items(tree)[cnt - 1] == Item(p, key)
      ensures p == 0 <==> !HasKey(tree, key)
    {
      p, cnt := root, 0;
      ghost var ctx, t := [], tree;
      DescendStart(tree, root, key);
      hide Walk, Sized, Items, RankOf, HasKey;
      while p != 0
        invariant Holds(mem, t) && p == Ptr(t) && Walk(tree, ctx, t, key, cnt)
        decreases t
      {
        WalkFound(tree, ctx, t, key, cnt);
        SizeAtCount(mem, t.l);
        var cmp := key - mem[p].key;
        if cmp != 0 {
          WalkDown(tree, ctx, t, key, cnt);
        }
        if cmp >= 0 {
          cnt := cnt + SizeAt(mem, mem[p].p0) + 1;
        }
        if cmp == 0 {
          return;
        }
        ctx := ctx + [Crumb(t.i, cmp > 0, Kid(t, cmp <= 0))];
        t := Kid(t, cmp > 0);
        p := At(mem[p], cmp > 0);
      }
      WalkAbsent(tree, ctx, key, cnt);
    }

    // -------------------------------------------------------------- insertion

    /** The loop that tips the balances from the last unbalanced ancestor down to the new node. */
    method TipBalances(stack: seq<bool>, bp: Ref, x: Ref, ghost ctx: Path, ghost b: nat, ghost t: Tree, ghost s: set<Ref>)
      requires b < |ctx| && Turns(stack, ctx, b) && Focus(mem, ctx, t) && t.Node? && x == Ptr(t)
      requires bp == ctx[b].i.at && PathRefs(ctx) <= s
      modifies this`mem
      ensures Focus(mem, Lean(ctx, b, |ctx|), t) && SameOutside(old(mem), mem, s)
    {
      hide Focus, Turns, PathRefs, Lean;
      TipStart(ctx, b);
      var p, top := bp, 0;
      while p != x
        invariant b <= b + top <= |ctx|
        invariant Focus(mem, Lean(ctx, b, b + top), t) && SameOutside(old(mem), mem, s)
        invariant p == (if b + top < |ctx| then ctx[b + top].i.at else x)
        decreases |ctx| - b - top
      {
        TipStep(mem, ctx, b, b + top, t);
        TurnAt(stack, ctx, b, b + top);
        if !stack[top] {
          mem := mem[p := mem[p].(balance := mem[p].balance - 1)];
        } else {
          mem := mem[p := mem[p].(balance := mem[p].balance + 1)];
        }
        p, top := At(mem[p], stack[top]), top + 1;
      }
      if b + top < |ctx| {
        TipStep(mem, ctx, b, b + top, t);
      }
    }

    /** The first loop of kavl_insert. */
    method Descend(x: Ref)
      returns (found: Ref, cnt: int, bp: Ref, bq: Ref, q: Ref, which: bool, len: nat, stack: seq<bool>, path: seq<Ref>,
               ghost ctx: Path, ghost b: nat)
      requires Valid() && x in mem && x != 0
      ensures found != 0 ==> HasKey(tree, mem[x].key) && 0 < cnt <= |Items(tree)| && Items(tree)[cnt - 1] == Item(found, mem[x].key)
      ensures found == 0 ==>
        && Walk(tree, ctx, Leaf, mem[x].key, cnt) && Focus(mem, ctx, Leaf)
        && Bearings(ctx, b, root, bp, bq, 0, q, which) && len == |ctx|
        && Lists(path, ctx) && Turns(stack, ctx, b)
    {
      hide Walk, Bearings, Lists, Turns, Balanced, Sized, Distinct;
      var key := mem[x].key;
      bp, bq, q, which, len, cnt, found := root, 0, 0, false, 0, 0, 0;
      stack, path := seq(MAX_DEPTH, _ => false), seq(MAX_DEPTH, _ => 0);
      var p, top := root, 0;
      ghost var t := tree;
      ctx, b := [], 0;
      DescendStart(tree, root, key);
      while p != 0
        invariant p == Ptr(t) && len == |ctx| && 0 <= top == len - b && |path| == |stack| == MAX_DEPTH
        invariant Walk(tree, ctx, t, key, cnt) && Focus(mem, ctx, t)
        invariant Bearings(ctx, b, root, bp, bq, p, q, which)
        invariant Lists(path, ctx) && Turns(stack, ctx, b)
        decreases t
      {
        WalkFound(tree, ctx, t, key, cnt);
        SizeAtCount(mem, t.l);
        ghost var cnt0 := cnt;
        var cmp := key - mem[p].key;
        if cmp >= 0 {
          cnt := cnt + SizeAt(mem, mem[p].p0) + 1;
        }
        if cmp == 0 {
          found := p;
          return;
        }
        ghost var c := Crumb(t.i, cmp > 0, Kid(t, cmp <= 0));
        WalkDown(tree, ctx, t, key, cnt0);
        FocusDown(mem, ctx, t, cmp > 0);
        BearingsDown(ctx, b, root, bp, bq, p, q, which, c, At(mem[p], cmp > 0));
        ListsDown(path, ctx, c);
        TurnsDown(stack, ctx, b, c);
        if mem[p].balance != 0 {
          bq, bp, top := q, p, 0;
          b := len;
        }
        which := cmp > 0;
        stack, top := stack[top := which], top + 1;
        path, len := path[len := p], len + 1;
        ctx, t := ctx + [c], Kid(t, which);
        q, p := p, At(mem[p], which);
      }
    }

    /** The rotation of kavl_insert at bp, whose balance has left -1..1. */
    method FixNode(bp: Ref, ghost u: Tree) returns (r: Ref)
      requires Holds(mem, u) && Distinct(u) && u.Node? && bp == Ptr(u) && InsertFix.requires(u)
      modifies this`mem
      ensures Holds(mem, InsertFix(u)) && Distinct(InsertFix(u)) && r == Ptr(InsertFix(u))
      ensures SameOutside(old(mem), mem, Refs(u))
    {
      var which := mem[bp].balance < 0;
      var b1 := if which then -1 else 1;
      var q := At(mem[bp], !which);
      HoldsBin(mem, which, Kid(u, which), u.i, Kid(u, !which));
      if mem[q].balance == b1 {
        Rotate1Keeps(u, which);
        mem, r := RotateOnce(mem, bp, which, u);
        RelevelHolds(mem, Rotate1(u, which), which, 0, 0);
        mem := mem[q := mem[q].(balance := 0)][bp := mem[bp].(balance := 0)];
      } else {
        Rotate2Keeps(u, which);
        mem, r := RotateTwice(mem, bp, which, u);
      }
    }

    /** The end of kavl_insert: check bp and put whatever replaces it below bq, or at the root. */
    method Rebalance(bp: Ref, bq: Ref, ghost outer: Path, ghost u: Tree)
      requires Focus(mem, outer, u) && u.Node? && bp == Ptr(u) && Fixed.requires(u)
      requires bq == (if |outer| > 0 then outer[|outer| - 1].i.at else 0)
      requires root == (if |outer| > 0 then outer[0].i.at else bp)
      modifies this`mem, this`root
      ensures Focus(mem, outer, Fixed(u))
      ensures root == Ptr(Plug(outer, Fixed(u)))
      ensures SameOutside(old(mem), mem, PathRefs(outer) + Refs(u))
    {
      PtrPlug(outer, Fixed(u));
      if -2 < mem[bp].balance < 2 {
        return;
      }
      InsertFixKeeps(u);
      hide Holds, HoldsPath, InsertFix, Plug;
      var r := FixNode(bp, u);
      if |outer| > 0 {
        Relink(old(mem), mem, outer, u, InsertFix(u));
      }
      if bq == 0 {
        root := r;
      } else {
        mem := mem[bq := Put(mem[bq], bp != mem[bq].p0, r)];
      }
    }

    /** Hanging the new node below the end of the path. */
    method Link(x: Ref, key: int, q: Ref, which: bool, ghost ctx: Path)
      requires Focus(mem, ctx, Leaf) && x in mem && x != 0 && x !in PathRefs(ctx)
      requires q == (if |ctx| > 0 then ctx[|ctx| - 1].i.at else 0) && (|ctx| > 0 ==> which == ctx[|ctx| - 1].d)
      modifies this`mem, this`root
      ensures Focus(mem, ctx, Single(x, key))
      ensures root == (if |ctx| > 0 then old(root) else x)
      ensures SameOutside(old(mem), mem, PathRefs(ctx) + {x})
    {
      if |ctx| > 0 {
        PathAt(mem, ctx, 0, {}, |ctx| - 1);
        InPathRefs(ctx, |ctx| - 1);
      }
      mem := mem[x := Cell(key, 0, 0, 0, 1)];
      if q == 0 {
        root := x;
      } else {
        mem := mem[q := Put(mem[q], which, x)];
      }
      LinkNode(old(mem), ctx, x, key, mem);
    }

    /** The bookkeeping of kavl_insert once the node hangs in the tree: sizes, balances, one rotation. */
    method Settle(x: Ref, bp: Ref, bq: Ref, len: nat, stack: seq<bool>, path: seq<Ref>, ghost ctx: Path, ghost b: nat, ghost t: Tree)
      requires b < |ctx| == len && Lists(path, ctx) && Turns(stack, ctx, b)
      requires Focus(mem, ctx, t) && t.Node? && x == Ptr(t) && CanFix(ctx, b, t)
      requires bp == ctx[b].i.at && bq == (if b > 0 then ctx[b - 1].i.at else 0) && root == ctx[0].i.at
      modifies this`mem, this`root
      ensures Holds(mem, GrownTree(ctx, b, t)) && Distinct(GrownTree(ctx, b, t)) && root == Ptr(GrownTree(ctx, b, t))
      ensures SameOutside(old(mem), mem, PathRefs(ctx) + Refs(t))
    {
      hide Focus, Plug, Lists, Turns, Refs, PathRefs, Fixed, Lean, Resize, GrownTop, Distinct, Holds;
      ghost var s := PathRefs(ctx) + Refs(t);
      ghost var ctx1 := Resize(ctx, 0, len, 1);
      ghost var ctx2 := GrownPath(ctx, b);
      GrownRefs(ctx, b, t, stack);
      mem := AddSizes(mem, path, 0, len, 1, ctx, t);
      TipBalances(stack, bp, x, ctx1, b, t, s);
      OpenTop(mem, ctx, b, t);
      Rebalance(bp, bq, ctx2[..b], GrownTop(ctx, b, t));
      FocusWhole(mem, ctx2[..b], Fixed(GrownTop(ctx, b, t)));
    }

    /** kavl_insert from the point where the key is known to be absent. */
    method Attach(x: Ref, key: int, bp: Ref, bq: Ref, q: Ref, which: bool, len: nat, stack: seq<bool>, path: seq<Ref>,
                  ghost ctx: Path, ghost b: nat, ghost cnt: int)
      requires Valid() && x in mem && x != 0 && Count(tree) + 1 < WRAP
      requires Walk(tree, ctx, Leaf, key, cnt) && Focus(mem, ctx, Leaf) && Bearings(ctx, b, root, bp, bq, 0, q, which)
      requires len == |ctx| && Lists(path, ctx) && Turns(stack, ctx, b)
      requires x !in PathRefs(ctx)
      modifies this
      ensures Valid() && Items(tree) == Pre(ctx) + [Item(x, key)] + Post(ctx)
      ensures SameOutside(old(mem), mem, PathRefs(ctx) + {x})
    {
      hide SameOutside, Bearings, Walk, Focus, HoldsPath, Plug, Pre, Post, Items, Lists, Turns, Refs, PathRefs, Sized, Balanced,
        Distinct, Holds, Fixed, Lean, Resize, Sorted, Count, CanFix, GrownTree;
      ghost var t := Single(x, key);
      SingleNode(x, key);
      InsertedItems(tree, ctx, key, cnt, x);
      AttachFacts(mem, tree, root, ctx, b, bp, bq, q, which, key, cnt, x);
      Link(x, key, q, which, ctx);
      if bp == 0 {
        tree := t;
        FocusWhole(mem, ctx, t);
        SameOutsideTrans(old(mem), mem, mem, PathRefs(ctx) + {x});
        return;
      }
      ghost var m1 := mem;
      Settle(x, bp, bq, len, stack, path, ctx, b, t);
      SameOutsideTrans(old(mem), m1, mem, PathRefs(ctx) + {x});
      tree := GrownTree(ctx, b, t);
      ItemsCount(tree);
    }

    /** kavl_insert: returns the node with the key of x if there is one, changing nothing, else links x in.
        cnt is the number of nodes found in the tree that are not above x. */
    method Insert(x: Ref) returns (r: Ref, cnt: int)
      requires Valid() && x in mem && x != 0 && Count(tree) + 1 < WRAP
      modifies this
      ensures Valid()
      ensures HasKey(old(tree), old(mem)[x].key) ==>
        && mem == old(mem) && root == old(root) && tree == old(tree)
        && 0 < cnt <= |Items(tree)| && Items(tree)[cnt - 1] == Item(r, mem[x].key)
      ensures !HasKey(old(tree), old(mem)[x].key) ==>
        && r == x && 0 <= cnt <= |Items(old(tree))|
        && Items(tree) == Items(old(tree))[..cnt] + [Item(x, old(mem)[x].key)] + Items(old(tree))[cnt..]
      ensures SameOutside(old(mem), mem, Refs(old(tree)) + {x})
    {
      var key := mem[x].key;
      var found, bp, bq, q, which, len, stack, path;
      ghost var ctx, b;
      found, cnt, bp, bq, q, which, len, stack, path, ctx, b := Descend(x);
      if found != 0 {
        r := found;
        return;
      }
      r := x;
      WalkAbsent(tree, ctx, key, cnt);
      AbsentRef(mem, tree, x);
      RefsPlug(ctx, Leaf);
      InsertedItems(tree, ctx, key, cnt, x);
      Attach(x, key, bp, bq, q, which, len, stack, path, ctx, b, cnt);
    }

    // -------------------------------------------------------------- removal

    /** The first loop of kavl_erase: the path from the anchor to the node with the key of x. */
    method Locate(m: Memory, key: int)
      returns (p: Ref, cnt: int, path: seq<Ref>, dir: seq<bool>, d: nat, ghost ctx: Path, ghost t: Tree)
      requires Valid() && m == Anchored(mem, root)
      ensures p == 0 <==> !HasKey(tree, key)
      ensures p != 0 ==> Found(m, tree, p, cnt, path, dir, d, ctx, t) && t.Node? && t.i.key == key
    {
      hide Walk, Focus, Lists, Turns, Found, HasKey, Holds, Distinct, Avl, Count;
      cnt, d, ctx, t := 0, 1, [], tree;
      dir, path := seq(MAX_DEPTH, _ => false), seq(MAX_DEPTH, _ => 0)[0 := FAKE];
      p := m[FAKE].p0;
      LocateStart(mem, m, tree, key, path, dir);
      while p != 0 && m[p].key != key
        invariant p == Ptr(t) && d == |ctx| + 1 && |path| == |dir| == MAX_DEPTH
        invariant (t.Node? <==> p != 0) && (t.Node? ==> p in m && m[p].key == t.i.key)
        invariant Walk(tree, ctx, t, key, cnt) && Focus(m, [ANCHOR] + ctx, t)
        invariant Lists(path, [ANCHOR] + ctx) && Turns(dir, [ANCHOR] + ctx, 0)
        decreases t
      {
        var which := key > m[p].key;
        LocateDown(m, tree, ctx, t, key, cnt, path, dir);
        if which {
          cnt := cnt + SizeAt(m, m[p].p0) + 1;
        }
        dir, path, d := dir[d := which], path[d := p], d + 1;
        ctx, t := ctx + [Crumb(t.i, which, Kid(t, !which))], Kid(t, which);
        p := At(m[p], which);
      }
      LocateEnd(m, tree, ctx, t, key, cnt, path, dir);
    }

    /** The loop of kavl_erase for a null x: the path down the left edge to the first node. */
    method LocateFirst(m: Memory)
      returns (p: Ref, path: seq<Ref>, dir: seq<bool>, d: nat, ghost ctx: Path, ghost t: Tree)
      requires Valid() && m == Anchored(mem, root) && tree != Leaf
      ensures Found(m, tree, p, 0, path, dir, d, ctx, t) && t.Node? && t.l == Leaf
    {
      hide Trail, Focus, Lists, Turns, Holds, Distinct, Avl, Count;
      d, ctx, t := 1, [], tree;
      dir, path := seq(MAX_DEPTH, _ => false), seq(MAX_DEPTH, _ => 0)[0 := FAKE];
      p := m[FAKE].p0;
      LocateStart(mem, m, tree, 0, path, dir);
      StepDown(m, ctx, t, false, path, dir);
      while m[p].p0 != 0
        invariant p == Ptr(t) && d == |ctx| + 1 && |path| == |dir| == MAX_DEPTH && t.Node?
        invariant p in m && m[p].p0 == Ptr(t.l) && (t.l == Leaf <==> Ptr(t.l) == 0)
        invariant Trail(tree, ctx, t, 0) && Focus(m, [ANCHOR] + ctx, t)
        invariant Lists(path, [ANCHOR] + ctx) && Turns(dir, [ANCHOR] + ctx, 0)
        decreases t
      {
        TrailAt(tree, ctx, t, 0);
        TrailDown(tree, ctx, t, 0, false);
        StepDown(m, ctx, t, false, path, dir);
        dir, path, d := dir[d := false], path[d := p], d + 1;
        ctx, t := ctx + [Crumb(t.i, false, t.r)], t.l;
        p := m[p].p0;
        TrailAt(tree, ctx, t, 0);
        StepDown(m, ctx, t, false, path, dir);
      }
    }

    /** kavl_erase from the point where the node p to remove is known; rank is its place in the order. */
    method Detach(m0: Memory, p: Ref, path0: seq<Ref>, dir0: seq<bool>, d0: nat, ghost ctx0: Path, ghost t: Tree, ghost cnt: int,
                  ghost rank: nat)
      requires Valid() && m0 == Anchored(mem, root) && Found(m0, tree, p, cnt, path0, dir0, d0, ctx0, t)
      requires t.Node? && rank == cnt + Count(t.l) < |Items(tree)|
      modifies this
      ensures Valid()
      ensures Items(tree) == Items(old(tree))[..rank] + Items(old(tree))[rank + 1..]
      ensures SameOutside(old(mem), mem, Refs(old(tree)))
    {
      hide Found, Focus, Lists, Turns, Spliceable, Sinking, Settled, Remaining, PathRefs, Refs, Holds, Distinct, Balanced, Sized, Items,
        Plug, Trail, Count, Anchored, SameOutside;
      ghost var full0 := [ANCHOR] + ctx0;
      ghost var s := Items(tree)[..rank] + Items(tree)[rank + 1..];
      DetachPlan(mem, tree, m0, p, path0, dir0, d0, ctx0, t, cnt);
      var m := AddSizes(m0, path0, 1, d0, -1, full0, t);
      ghost var m1 := m;
      DetachReady(m0, m, tree, p, path0, dir0, d0, ctx0, t, cnt);
      var path, dir, d;
      ghost var full, sub;
      m, path, dir, d, full, sub := Splice(m, p, path0, dir0, d0, full0, t);
      ghost var m2, r2 := m, PathRefs(full) + Refs(sub);
      m, full, sub := Retrace(m, path, dir, d, full, sub, s + [ItemOf(ANCHOR.i)]);
      AnchorResult(m, full, sub, s);
      DetachFrame(mem, root, m0, m1, m2, m, PathRefs(full0), r2, Refs(tree));
      root := m[FAKE].p0;
      mem := m - {FAKE};
      tree := Plug(full[1..], sub);
      ItemsCount(tree);
    }

    /** kavl_erase: removes the node with the key of x, or the first node for a null x, and returns it with
        its rank; returns null and changes nothing when there is no such node. */
    method Erase(x: Ref) returns (p: Ref, cnt: int)
      requires Valid() && (x != 0 ==> x in mem) && (x == 0 ==> tree != Leaf)
      modifies this
      ensures Valid()
      ensures p == 0 <==> x != 0 && !HasKey(old(tree), old(mem)[x].key)
      ensures p == 0 ==> cnt == 0 && mem == old(mem) && root == old(root) && tree == old(tree)
      ensures p != 0 ==>
        && 0 < cnt <= |Items(old(tree))| && Items(old(tree))[cnt - 1].at == p
        && (x != 0 ==> Items(old(tree))[cnt - 1].key == old(mem)[x].key) && (x == 0 ==> cnt == 1)
        && Items(tree) == Items(old(tree))[..cnt - 1] + Items(old(tree))[cnt..]
      ensures SameOutside(old(mem), mem, Refs(old(tree)))
    {
      hide Found, Avl, Items, Refs, Holds, Distinct, HasKey;
      var m := Anchored(mem, root);
      var path, dir, d;
      ghost var ctx, t, before;
      if x != 0 {
        p, cnt, path, dir, d, ctx, t := Locate(m, mem[x].key);
        if p == 0 {
          cnt := 0;
          return;
        }
        FoundRank(m, tree, p, cnt, path, dir, d, ctx, t);
        before := cnt;
        cnt := cnt + SizeAt(m, m[p].p0) + 1;
      } else {
        p, path, dir, d, ctx, t := LocateFirst(m);
        FoundRank(m, tree, p, 0, path, dir, d, ctx, t);
        before, cnt := 0, 1;
      }
      Detach(m, p, path, dir, d, ctx, t, before, cnt - 1);
    }
  }
}
