/** The tree values that the index of src/lib/kavl.h stores in node memory, what makes
    such a tree exact (order, balance factors, subtree sizes), and how a tree is taken apart
    along the path that an insertion or a removal walks. */
module AvlTree {
  import opened Common

  /** Node addresses; 0 is the null pointer. */
  type Ref = int

  /** The fields of a node other than its two child pointers. */
  datatype Info = Info(at: Ref, key: int, balance: int, size: int)

  datatype Tree = Leaf | Node(l: Tree, i: Info, r: Tree)

  /** What an in-order walk sees of a node. */
  datatype Item = Item(at: Ref, key: int)

  function ItemOf(i: Info): Item { Item(i.at, i.key) }

  function Ptr(t: Tree): Ref {
    if t.Leaf? then 0 else t.i.at
  }

  /** The child in direction d; false is p[0], true is p[1]. */
  function Kid(t: Tree, d: bool): Tree
    requires t.Node?
  {
    if d then t.r else t.l
  }

  /** The node whose child in direction d is a and whose other child is b. */
  function Bin(d: bool, a: Tree, i: Info, b: Tree): Tree {
    if d then Node(b, i, a) else Node(a, i, b)
  }

  /** What the predicates below say of a node, whichever way round it is read. */
  lemma BinUnfold(d: bool, a: Tree, i: Info, b: Tree)
    ensures var t := Bin(d, a, i, b);
      && Refs(t) == Refs(a) + {i.at} + Refs(b)
      && Height(t) == 1 + Max(Height(a), Height(b))
      && Count(t) == Count(a) + 1 + Count(b)
      && (Distinct(t) <==> i.at !in Refs(a) && i.at !in Refs(b) && Refs(a) !! Refs(b) && Distinct(a) && Distinct(b))
      && (Sized(t) <==> i.size == Count(t) && Sized(a) && Sized(b))
      && (Balanced(t) <==>
          && i.balance == (if d then Height(a) - Height(b) else Height(b) - Height(a))
          && -1 <= i.balance <= 1 && Balanced(a) && Balanced(b))
  {
  }

  function Refs(t: Tree): set<Ref> {
    match t
    case Leaf => {}
    case Node(l, i, r) => Refs(l) + {i.at} + Refs(r)
  }

  function Items(t: Tree): seq<Item> {
    match t
    case Leaf => []
    case Node(l, i, r) => Items(l) + [ItemOf(i)] + Items(r)
  }

  function Height(t: Tree): nat {
    match t
    case Leaf => 0
    case Node(l, i, r) => 1 + Max(Height(l), Height(r))
  }

  function Count(t: Tree): nat {
    match t
    case Leaf => 0
    case Node(l, i, r) => Count(l) + 1 + Count(r)
  }

  /** No address occurs twice. */
  predicate Distinct(t: Tree) {
    match t
    case Leaf => true
    case Node(l, i, r) =>
      && i.at !in Refs(l) && i.at !in Refs(r) && Refs(l) !! Refs(r)
      && Distinct(l) && Distinct(r)
  }

  /** Every balance field is right height minus left height, and in -1..1. */
  predicate Balanced(t: Tree) {
    match t
    case Leaf => true
    case Node(l, i, r) =>
      && i.balance == Height(r) - Height(l) && -1 <= i.balance <= 1
      && Balanced(l) && Balanced(r)
  }

  /** Every size field is the number of nodes in the subtree. */
  predicate Sized(t: Tree) {
    match t
    case Leaf => true
    case Node(l, i, r) => i.size == Count(t) && Sized(l) && Sized(r)
  }

  predicate Sorted(s: seq<Item>) {
    forall a, b :: 0 <= a < b < |s| ==> s[a].key < s[b].key
  }

  /** A search tree with exact balance and size fields. */
  predicate Avl(t: Tree) {
    Balanced(t) && Sized(t) && Sorted(Items(t))
  }

  /** The size field as kavl_size_child reads it. */
  function SizeField(t: Tree): int {
    if t.Leaf? then 0 else t.i.size
  }

  lemma SizeFieldCount(t: Tree)
    ensures Sized(t) ==> SizeField(t) == Count(t)
  {
  }

  lemma {:induction false} ItemsCount(t: Tree)
    ensures |Items(t)| == Count(t)
  {
    match t
    case Leaf =>
    case Node(l, i, r) => ItemsCount(l); ItemsCount(r);
  }

  /** Every address of the tree shows up in the in-order walk ... */
  lemma {:induction false} RefIndex(t: Tree, a: Ref) returns (k: nat)
    requires a in Refs(t)
    ensures k < |Items(t)| && Items(t)[k].at == a
  {
    if a in Refs(t.l) {
      k := RefIndex(t.l, a);
    } else if a == t.i.at {
      k := |Items(t.l)|;
    } else {
      k := RefIndex(t.r, a);
      k := |Items(t.l)| + 1 + k;
    }
  }

  /** ... and the walk shows nothing else. */
  lemma {:induction false} IndexRef(t: Tree, k: nat)
    requires k < |Items(t)|
    ensures Items(t)[k].at in Refs(t)
  {
    if k < |Items(t.l)| {
      IndexRef(t.l, k);
    } else if k > |Items(t.l)| {
      IndexRef(t.r, k - |Items(t.l)| - 1);
    }
  }

  // ---------------------------------------------------------------- depth

  function Fib(n: nat): nat {
    if n < 2 then n else Fib(n - 1) + Fib(n - 2)
  }

  lemma {:induction false} FibMonotone(a: nat, b: nat)
    requires a <= b
    ensures Fib(a) <= Fib(b)
    decreases b
  {
    if a < b {
      FibMonotone(a, b - 1);
      if b == 2 { assert Fib(2) == 1; }
    }
  }

  lemma FibSum(a: nat, b: nat)
    requires -1 <= a - b <= 1
    ensures Fib(1 + Max(a, b) + 2) <= Fib(a + 2) + Fib(b + 2)
  {
    var h := 1 + Max(a, b);
    assert Fib(h + 2) == Fib(h + 1) + Fib(h);
    FibMonotone(h, a + 2);
    FibMonotone(h, b + 2);
  }

  /** The sparsest balanced tree of a height is the Fibonacci tree. */
  lemma {:induction false} SparsestTree(t: Tree)
    requires Balanced(t)
    ensures Count(t) >= Fib(Height(t) + 2) - 1
  {
    match t
    case Leaf => assert Fib(2) == 1;
    case Node(l, i, r) =>
      SparsestTree(l);
      SparsestTree(r);
      FibSum(Height(l), Height(r));
  }

  /** Fib(0..n) by iteration, to evaluate a large Fibonacci number. */
  lemma {:induction false} FibPair(n: nat, a: nat, b: nat)
    requires Fib(n) == a && Fib(n + 1) == b
    ensures Fib(n + 4) == 2 * a + 3 * b && Fib(n + 5) == 3 * a + 5 * b
  {
    assert Fib(n + 2) == a + b;
    assert Fib(n + 3) == a + 2 * b;
  }

  lemma Fib48(n: nat)
    requires n == 48
    ensures Fib(n) == 4807526976
  {
    FibPair(n - 48, 0, 1);
    FibPair(n - 44, 3, 5);
    FibPair(n - 40, 21, 34);
    FibPair(n - 36, 144, 233);
    FibPair(n - 32, 987, 1597);
    FibPair(n - 28, 6765, 10946);
    FibPair(n - 24, 46368, 75025);
    FibPair(n - 20, 317811, 514229);
    FibPair(n - 16, 2178309, 3524578);
    FibPair(n - 12, 14930352, 24157817);
    FibPair(n - 8, 102334155, 165580141);
    FibPair(n - 4, 701408733, 1134903170);
  }

  /** With a 32-bit size field no root-to-leaf path has more than 45 nodes. */
  lemma DepthBound(t: Tree)
    requires Balanced(t) && Count(t) < WRAP
    ensures Height(t) <= 45
  {
    SparsestTree(t);
    if Height(t) > 45 {
      var n: nat := Height(t) - (Height(t) - 48);
      FibMonotone(n, Height(t) + 2);
      Fib48(n);
    }
  }

  // ---------------------------------------------------------------- rotations

  /** kavl_rotate1: (a,(b,c)q)p => ((a,b)p,c)q, mirrored when d holds. Balances are left to the caller. */
  function Rotate1(t: Tree, d: bool): Tree
    requires t.Node? && Kid(t, !d).Node?
  {
    var p, q := t.i, Kid(t, !d);
    Bin(d,
        Bin(d, Kid(t, d), p.(size := p.size - (q.i.size - SizeField(Kid(q, d)))), Kid(q, d)),
        q.i.(size := p.size),
        Kid(q, !d))
  }

  /** kavl_rotate2: (a,((b,c)r,d)q)p => ((a,b)p,(c,d)q)r, with the balance fix-up of the C code. */
  function Rotate2(t: Tree, d: bool): Tree
    requires t.Node? && Kid(t, !d).Node? && Kid(Kid(t, !d), d).Node?
  {
    var p, qt := t.i, Kid(t, !d);
    var q, rt := qt.i, Kid(qt, d);
    var r := rt.i;
    var x := SizeField(Kid(rt, d));
    var b1 := if d then -1 else 1;
    var qb := if r.balance == b1 then 0 else if r.balance == 0 then 0 else b1;
    var pb := if r.balance == b1 then -b1 else 0;
    Bin(d,
        Bin(d, Kid(t, d), p.(size := p.size - (q.size - x), balance := pb), Kid(rt, d)),
        r.(size := p.size, balance := 0),
        Bin(d, Kid(rt, !d), q.(size := q.size - (x + 1), balance := qb), Kid(qt, !d)))
  }

  /** Both rotations keep the in-order walk, the addresses and the exactness of sizes. */
  lemma Rotate1Keeps(t: Tree, d: bool)
    requires t.Node? && Kid(t, !d).Node?
    ensures Refs(Rotate1(t, d)) == Refs(t)
    ensures Distinct(t) ==> Distinct(Rotate1(t, d))
    ensures Sized(t) ==> Sized(Rotate1(t, d)) && Count(Rotate1(t, d)) == Count(t)
  {
    var p, q := t.i, Kid(t, !d);
    hide Refs, Height, Count, Distinct, Balanced, Sized;
    SizeFieldCount(Kid(q, d));
    BinUnfold(d, Kid(t, d), p, q);
    BinUnfold(d, Kid(q, d), q.i, Kid(q, !d));
    var p' := p.(size := p.size - (q.i.size - SizeField(Kid(q, d))));
    BinUnfold(d, Kid(t, d), p', Kid(q, d));
    BinUnfold(d, Bin(d, Kid(t, d), p', Kid(q, d)), q.i.(size := p.size), Kid(q, !d));
  }

  lemma Rotate1Items(t: Tree, d: bool)
    requires t.Node? && Kid(t, !d).Node?
    ensures Items(Rotate1(t, d)) == Items(t)
  {
  }

  /** Concatenation may be bracketed either way around an inner walk. */
  lemma Regroup(a: seq<Item>, x: seq<Item>, b: seq<Item>, y: seq<Item>, c: seq<Item>)
    ensures a + x + (b + y + c) == (a + x + b) + y + c
  {
  }

  lemma BinItems(d: bool, a: Tree, i: Info, b: Tree)
    ensures Items(Bin(d, a, i, b)) ==
      if d then Items(b) + [ItemOf(i)] + Items(a) else Items(a) + [ItemOf(i)] + Items(b)
  {
  }

  lemma Rotate2Items(t: Tree, d: bool)
    requires t.Node? && Kid(t, !d).Node? && Kid(Kid(t, !d), d).Node?
    ensures Items(Rotate2(t, d)) == Items(t)
  {
    hide Items;
    var q, u := Kid(t, !d), Rotate2(t, d);
    var r := Kid(q, d);
    BinItems(d, Kid(t, d), t.i, q);
    BinItems(d, r, q.i, Kid(q, !d));
    BinItems(d, Kid(r, d), r.i, Kid(r, !d));
    BinItems(d, Kid(t, d), Kid(u, d).i, Kid(r, d));
    BinItems(d, Kid(r, !d), Kid(u, !d).i, Kid(q, !d));
    BinItems(d, Kid(u, d), u.i, Kid(u, !d));
    var b, c := Items(r.l), Items(r.r);
    if d {
      Regroup(Items(q.l), [ItemOf(q.i)], b, [ItemOf(r.i)], c);
      Regroup(Items(q.l) + [ItemOf(q.i)] + b, [ItemOf(r.i)], c, [ItemOf(t.i)], Items(t.r));
    } else {
      Regroup(b, [ItemOf(r.i)], c, [ItemOf(q.i)], Items(q.r));
      Regroup(Items(t.l), [ItemOf(t.i)], b, [ItemOf(r.i)], c + [ItemOf(q.i)] + Items(q.r));
    }
  }

  lemma Rotate2Keeps(t: Tree, d: bool)
    requires t.Node? && Kid(t, !d).Node? && Kid(Kid(t, !d), d).Node?
    ensures Refs(Rotate2(t, d)) == Refs(t)
    ensures Distinct(t) ==> Distinct(Rotate2(t, d))
    ensures Sized(t) ==> Sized(Rotate2(t, d)) && Count(Rotate2(t, d)) == Count(t)
  {
    hide Refs, Height, Count, Distinct, Balanced, Sized;
    var qt, u := Kid(t, !d), Rotate2(t, d);
    var rt := Kid(qt, d);
    BinUnfold(d, Kid(t, d), t.i, qt);
    BinUnfold(d, rt, qt.i, Kid(qt, !d));
    BinUnfold(d, Kid(rt, d), rt.i, Kid(rt, !d));
    RebuildKeeps(d, Kid(t, d), Kid(u, d).i, Kid(rt, d), u.i, Kid(rt, !d), Kid(u, !d).i, Kid(qt, !d));
    SizeFieldCount(Kid(rt, d));
  }

  /** A node over two nodes over four subtrees. */
  lemma RebuildKeeps(d: bool, a: Tree, p: Info, b: Tree, r: Info, c: Tree, q: Info, e: Tree)
    ensures var u := Bin(d, Bin(d, a, p, b), r, Bin(d, c, q, e));
      && Refs(u) == Refs(a) + {p.at} + Refs(b) + {r.at} + Refs(c) + {q.at} + Refs(e)
      && Count(u) == Count(a) + Count(b) + Count(c) + Count(e) + 3
      && ((Sized(a) && Sized(b) && Sized(c) && Sized(e) && p.size == Count(a) + Count(b) + 1
           && q.size == Count(c) + Count(e) + 1 && r.size == Count(u)) ==> Sized(u))
      && ((p.at != q.at && p.at != r.at && q.at != r.at && {p.at, q.at, r.at} !! Refs(a) !! Refs(b) !! Refs(c) !! Refs(e)
           && Distinct(a) && Distinct(b) && Distinct(c) && Distinct(e)) ==> Distinct(u))
  {
    hide Refs, Height, Count, Distinct, Balanced, Sized;
    BinUnfold(d, a, p, b);
    BinUnfold(d, c, q, e);
    BinUnfold(d, Bin(d, a, p, b), r, Bin(d, c, q, e));
  }
}
