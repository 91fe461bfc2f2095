/** Walking an index in key order: the stack iterator of src/lib/kavl.h and the destructive walk of kavl_free. */
module AvlTraverse {
  import opened Common
  import opened AvlTree
  import opened AvlMemory
  import opened AvlPath
  import opened AvlWalk

  // ---------------------------------------------------------------- iterator

  /** The items from the iterator's position on, given the subtrees whose roots are on its stack. */
  function Ahead(frames: seq<Tree>): seq<Item> {
    if |frames| == 0 then [] else
      var t := frames[|frames| - 1];
      if t.Leaf? then [] else [ItemOf(t.i)] + (Items(t.r) + Ahead(frames[..|frames| - 1]))
  }

  /** The stack array lists the roots of frames, which are in memory and fit one below the other. */
  predicate Stacked(m: Memory, stack: seq<Ref>, frames: seq<Tree>) {
    && |stack| == MAX_DEPTH && |frames| <= 45
    && forall k :: 0 <= k < |frames| ==>
      frames[k].Node? && stack[k] == frames[k].i.at && Holds(m, frames[k]) && k + Height(frames[k]) <= 45
  }

  lemma AheadPush(frames: seq<Tree>, t: Tree)
    requires t.Node?
    ensures Ahead(frames + [t]) == [ItemOf(t.i)] + (Items(t.r) + Ahead(frames))
    ensures Items(t.l) + Ahead(frames + [t]) == Items(t) + Ahead(frames)
  {
    assert (frames + [t])[..|frames|] == frames;
    assert Ahead(frames + [t]) == [ItemOf(t.i)] + (Items(t.r) + Ahead(frames));
    AheadSplit(Items(t.l), [ItemOf(t.i)], Items(t.r), Ahead(frames));
  }

  lemma AheadSplit(l: seq<Item>, x: seq<Item>, r: seq<Item>, a: seq<Item>)
    ensures l + (x + (r + a)) == (l + x + r) + a
  {
  }

  lemma StackedPush(m: Memory, stack: seq<Ref>, frames: seq<Tree>, t: Tree)
    requires Stacked(m, stack, frames) && t.Node? && Holds(m, t) && |frames| + Height(t) <= 45
    ensures Stacked(m, stack[|frames| := t.i.at], frames + [t])
    ensures t.i.at in m && m[t.i.at].p0 == Ptr(t.l) && m[t.i.at].p1 == Ptr(t.r) && m[t.i.at].key == t.i.key
    ensures Holds(m, t.l) && Holds(m, t.r) && |frames| + 1 + Height(t.l) <= 45 && |frames| + Height(t.r) <= 45
    ensures (t.l.Node? <==> Ptr(t.l) != 0) && (t.r.Node? <==> Ptr(t.r) != 0)
  {
  }

  class Iterator {
    var stack: seq<Ref>
    var top: int
    var right: Ref
    ghost var frames: seq<Tree>

    constructor ()
      ensures top == -1 && frames == [] && |stack| == MAX_DEPTH
    {
      stack, top, right, frames := seq(MAX_DEPTH, _ => 0), -1, 0, [];
    }

    /** The iterator stands in a tree held by m; right is the right child of the node it stands on. */
    ghost predicate Valid(m: Memory)
      reads this
    {
      && Stacked(m, stack, frames) && top == |frames| - 1
      && (top >= 0 ==> right == Ptr(frames[top].r))
    }

    /** kavl_at: the node of the first item ahead, null at the end. */
    method At(ghost m: Memory) returns (p: Ref)
      requires Valid(m)
      ensures p == if Ahead(frames) == [] then 0 else Ahead(frames)[0].at
    {
      StandsOn(m, stack, frames);
      hide Stacked, Ahead;
      p := if top < 0 then 0 else stack[top];
    }

    /** Pushing the left edge of the subtree t, as the first two iterator functions do. */
    method PushLeft(m: Memory, p0: Ref, ghost t0: Tree)
      requires Stacked(m, stack, frames) && top == |frames| - 1
      requires Holds(m, t0) && p0 == Ptr(t0) && (t0.Node? <==> p0 != 0) && |frames| + Height(t0) <= 45
      modifies this
      ensures Stacked(m, stack, frames) && top == |frames| - 1
      ensures Ahead(frames) == Items(t0) + Ahead(old(frames))
      ensures right == old(right)
    {
      hide Stacked, Ahead, Items, Holds, Height;
      var p := p0;
      ghost var t := t0;
      EmptyLeft(t);
      while p != 0
        invariant Stacked(m, stack, frames) && top == |frames| - 1 && right == old(right)
        invariant Holds(m, t) && p == Ptr(t) && (t.Node? <==> p != 0) && |frames| + Height(t) <= 45
        invariant Items(t) + Ahead(frames) == Items(t0) + Ahead(old(frames))
        decreases t
      {
        StackedPush(m, stack, frames, t);
        AheadPush(frames, t);
        NodeHeight(t);
        StackedSize(m, stack, frames);
        top := top + 1;
        stack := stack[top := p];
        frames := frames + [t];
        p, t := m[p].p0, t.l;
      }
      EmptyLeft(t);
    }

    /** kavl_itr_first on a nonempty tree: the whole walk lies ahead. */
    method First(m: Memory, root: Ref, ghost tree: Tree)
      requires Holds(m, tree) && root == Ptr(tree) && tree.Node? && Height(tree) <= 45 && |stack| == MAX_DEPTH
      modifies this
      ensures Valid(m) && Ahead(frames) == Items(tree)
    {
      top, frames := -1, [];
      PushLeft(m, root, tree);
      assert Ahead([]) == [];
      assert |Items(tree)| > 0;
      right := m[stack[top]].p1;
    }

    /** kavl_itr_find: what lies ahead is exactly what is not below the key; the result says whether the
        key itself is there. */
    method Find(m: Memory, root: Ref, key: int, ghost tree: Tree) returns (found: bool)
      requires Holds(m, tree) && root == Ptr(tree) && Sorted(Items(tree)) && Height(tree) <= 45 && |stack| == MAX_DEPTH
      modifies this
      ensures Valid(m) && found == HasKey(tree, key)
      ensures NotBelow(Items(tree), Ahead(frames), key)
    {
      hide HasKey, NotBelow, Items, Holds, Stacked, Seeking, Ahead, Sorted, Height;
      var p := root;
      top, frames := -1, [];
      ghost var t, before := tree, [];
      FindStart(m, tree, stack, key);
      while p != 0
        invariant Stacked(m, stack, frames) && top == |frames| - 1
        invariant Holds(m, t) && p == Ptr(t) && (t.Node? <==> p != 0) && |frames| + Height(t) <= 45
        invariant Seeking(Items(tree), before, t, Ahead(frames), key)
        decreases t
      {
        StackedPush(m, stack, frames, t);
        SeekStep(Items(tree), before, t, frames, key);
        StackedSize(m, stack, frames);
        NodeHeight(t);
        var cmp := key - m[p].key;
        if cmp < 0 {
          top := top + 1;
          stack := stack[top := p];
          frames := frames + [t];
          p, t := m[p].p0, t.l;
        } else if cmp > 0 {
          before := before + Items(t.l) + [ItemOf(t.i)];
          p, t := m[p].p1, t.r;
        } else {
          top := top + 1;
          stack := stack[top := p];
          frames := frames + [t];
          right := m[p].p1;
          SeekFound(tree, before, t, frames[..top], key);
          assert frames[..top] + [t] == frames;
          found := true;
          return;
        }
      }
      SeekEnd(tree, before, Ahead(frames), key);
      StackedSize(m, stack, frames);
      found := false;
      if top >= 0 {
        StackedTop(m, stack, frames);
        right := m[stack[top]].p1;
      }
    }

    /** kavl_itr_next: drops the item the iterator stands on; the result says whether another one follows. */
    method Next(m: Memory) returns (more: bool)
      requires Valid(m) && top >= 0
      modifies this
      ensures Valid(m) && |old(Ahead(frames))| > 0 && Ahead(frames) == old(Ahead(frames))[1..]
      ensures more <==> Ahead(frames) != []
      ensures more <==> top >= 0
    {
      ghost var t := frames[top];
      AheadTop(frames);
      var p := right;
      top, frames := top - 1, frames[..top];
      TopRight(m, t);
      PushLeft(m, p, t.r);
      AheadEmpty(frames);
      if top < 0 {
        return false;
      }
      right := m[stack[top]].p1;
      return true;
    }
  }

  lemma EmptyLeft(t: Tree)
    ensures t == Leaf ==> forall s: seq<Item> :: Items(t) + s == s
  {
  }

  lemma NodeHeight(t: Tree)
    requires t.Node?
    ensures Height(t.l) < Height(t) && Height(t.r) < Height(t)
  {
  }

  lemma StackedSize(m: Memory, stack: seq<Ref>, frames: seq<Tree>)
    requires Stacked(m, stack, frames)
    ensures |stack| == MAX_DEPTH && |frames| <= 45
  {
  }

  lemma StackedTop(m: Memory, stack: seq<Ref>, frames: seq<Tree>)
    requires Stacked(m, stack, frames) && |frames| > 0
    ensures var t := frames[|frames| - 1];
      t.Node? && |frames| <= |stack| && stack[|frames| - 1] == t.i.at && t.i.at in m && m[t.i.at].p1 == Ptr(t.r)
  {
  }

  lemma AheadTop(frames: seq<Tree>)
    requires |frames| > 0 && frames[|frames| - 1].Node?
    ensures var t := frames[|frames| - 1];
      |Ahead(frames)| > 0 && Ahead(frames)[1..] == Items(t.r) + Ahead(frames[..|frames| - 1])
  {
  }

  /** The top of the stack is the node of the first item ahead. */
  lemma StandsOn(m: Memory, stack: seq<Ref>, frames: seq<Tree>)
    requires Stacked(m, stack, frames)
    ensures |frames| <= |stack| && (Ahead(frames) == [] <==> frames == [])
    ensures frames != [] ==> Ahead(frames)[0].at == stack[|frames| - 1]
  {
    if frames != [] {
      StackedTop(m, stack, frames);
      var t := frames[|frames| - 1];
      assert Ahead(frames)[0] == ItemOf(t.i);
    }
  }

  lemma AheadEmpty(frames: seq<Tree>)
    requires forall k :: 0 <= k < |frames| ==> frames[k].Node?
    ensures Ahead(frames) == [] <==> |frames| == 0
  {
  }

  lemma TopRight(m: Memory, t: Tree)
    requires t.Node? && Holds(m, t)
    ensures Holds(m, t.r) && (t.r.Node? <==> Ptr(t.r) != 0) && Height(t.r) < Height(t)
  {
  }

  // ---------------------------------------------------------------- seeking

  /** A search in s: what is before the subtree t is below the key, what is ahead of it above. */
  predicate Seeking(s: seq<Item>, before: seq<Item>, t: Tree, ahead: seq<Item>, key: int) {
    s == before + Items(t) + ahead && AllBelow(before, key) && AllAbove(ahead, key) && Sorted(s)
  }

  lemma FindStart(m: Memory, tree: Tree, stack: seq<Ref>, key: int)
    requires Holds(m, tree) && Sorted(Items(tree)) && Height(tree) <= 45 && |stack| == MAX_DEPTH
    ensures Stacked(m, stack, []) && Ahead([]) == [] && Seeking(Items(tree), [], tree, [], key)
    ensures tree.Node? <==> Ptr(tree) != 0
  {
  }

  lemma SeekStep(s: seq<Item>, before: seq<Item>, t: Tree, frames: seq<Tree>, key: int)
    requires Seeking(s, before, t, Ahead(frames), key) && t.Node?
    ensures key < t.i.key ==> Seeking(s, before, t.l, Ahead(frames + [t]), key)
    ensures key > t.i.key ==> Seeking(s, before + Items(t.l) + [ItemOf(t.i)], t.r, Ahead(frames), key)
  {
    AheadPush(frames, t);
    SeekSplit(s, before, t, Ahead(frames));
    var x, p, q := ItemOf(t.i), before + Items(t.l), Items(t.r) + Ahead(frames);
    SortedCut(p, x, q, key);
    hide Sorted, AllBelow, AllAbove, Ahead, Items;
    assert before + Items(t.l) + ([x] + q) == p + [x] + q;
    assert (p + [x]) + Items(t.r) + Ahead(frames) == p + [x] + q;
  }

  lemma SeekSplit(s: seq<Item>, before: seq<Item>, t: Tree, ahead: seq<Item>)
    requires s == before + Items(t) + ahead && t.Node?
    ensures s == (before + Items(t.l)) + [ItemOf(t.i)] + (Items(t.r) + ahead)
  {
  }

  /** What is ahead is exactly the part of the walk s that is not below the key. */
  predicate NotBelow(s: seq<Item>, ahead: seq<Item>, key: int) {
    |ahead| <= |s| &&
    var n := |s| - |ahead|;
    ahead == s[n..] && forall a :: 0 <= a < |s| ==> (a < n <==> s[a].key < key)
  }

  lemma SeekFound(tree: Tree, before: seq<Item>, t: Tree, frames: seq<Tree>, key: int)
    requires Seeking(Items(tree), before, t, Ahead(frames), key) && t.Node? && t.i.key == key
    ensures HasKey(tree, key) && NotBelow(Items(tree), Ahead(frames + [t]), key)
  {
    AheadPush(frames, t);
    SeekSplit(Items(tree), before, t, Ahead(frames));
    SeekFoundAt(Items(tree), before + Items(t.l), ItemOf(t.i), Items(t.r) + Ahead(frames));
  }

  lemma SeekFoundAt(s: seq<Item>, p: seq<Item>, x: Item, q: seq<Item>)
    requires s == p + [x] + q && Sorted(s)
    ensures s[|p|] == x && NotBelow(s, [x] + q, x.key)
  {
    assert s[|p|..] == [x] + q;
  }

  lemma SeekEnd(tree: Tree, before: seq<Item>, ahead: seq<Item>, key: int)
    requires Seeking(Items(tree), before, Leaf, ahead, key)
    ensures !HasKey(tree, key) && NotBelow(Items(tree), ahead, key)
  {
    LeafItems();
    hide Items, Sorted;
    assert before + [] + ahead == before + ahead;
    SeekParts(Items(tree), before, ahead, key);
  }

  lemma LeafItems()
    ensures Items(Leaf) == []
  {
  }

  lemma SeekParts(s: seq<Item>, before: seq<Item>, ahead: seq<Item>, key: int)
    requires s == before + ahead && AllBelow(before, key) && AllAbove(ahead, key)
    ensures NotBelow(s, ahead, key) && forall a :: 0 <= a < |s| ==> s[a].key != key
  {
    assert s[|before|..] == ahead;
    forall a | 0 <= a < |s| ensures s[a].key != key && (a < |before| <==> s[a].key < key) {
      assert s[a] == if a < |before| then before[a] else ahead[a - |before|];
    }
  }

  // ---------------------------------------------------------------- whole walks

  /** First, then Next until it says no: every item once, in key order. */
  method VisitAll(m: Memory, root: Ref, ghost tree: Tree) returns (visited: seq<Ref>)
    requires Holds(m, tree) && root == Ptr(tree) && tree.Node? && Avl(tree) && Count(tree) < WRAP
    ensures |visited| == |Items(tree)| && forall k :: 0 <= k < |visited| ==> visited[k] == Items(tree)[k].at
  {
    DepthBound(tree);
    var itr := new Iterator();
    itr.First(m, root, tree);
    visited := [];
    var more := true;
    assert Items(tree)[0..] == Items(tree);
    AheadEmpty(itr.frames);
    while more
      invariant itr.Valid(m) && (more <==> itr.top >= 0) && (more <==> Ahead(itr.frames) != [])
      invariant |visited| <= |Items(tree)| && Ahead(itr.frames) == Items(tree)[|visited|..]
      invariant forall k :: 0 <= k < |visited| ==> visited[k] == Items(tree)[k].at
      invariant fresh(itr)
      decreases |Ahead(itr.frames)|
    {
      var p := itr.At(m);
      visited := visited + [p];
      more := itr.Next(m);
    }
  }

  /** kavl_free: rotates left children up and frees a node once it has none. Freed nodes leave memory, so
      every later access is to a node not freed yet. */
  method FreeAll(m0: Memory, root: Ref, ghost tree: Tree) returns (m: Memory, freed: seq<Ref>)
    requires Holds(m0, tree) && Distinct(tree) && root == Ptr(tree)
    ensures |freed| == |Items(tree)| && forall k :: 0 <= k < |freed| ==> freed[k] == Items(tree)[k].at
    ensures m == m0 - Refs(tree)
  {
    m, freed := m0, [];
    var p := root;
    ghost var t := tree;
    FreeStart(m, tree);
    while p != 0
      invariant Holds(m, t) && Distinct(t) && p == Ptr(t) && (t.Node? <==> p != 0)
      invariant |freed| <= |Items(tree)| && Items(t) == Items(tree)[|freed|..]
      invariant forall k :: 0 <= k < |freed| ==> freed[k] == Items(tree)[k].at
      invariant m - Refs(t) == m0 - Refs(tree)
      decreases Count(t), if t.Node? then Count(t.l) else 0
    {
      var q;
      if m[p].p0 == 0 {
        FreeHead(m, t);
        q := m[p].p1;
        freed := freed + [p];
        m := m - {p};
        t := t.r;
      } else {
        FreeTurn(m, t);
        q := m[p].p0;
        m := m[p := m[p].(p0 := m[q].p1)];
        m := m[q := m[q].(p1 := p)];
        t := Node(t.l.l, t.l.i, Node(t.l.r, t.i, t.r));
      }
      p := q;
    }
  }

  lemma FreeStart(m: Memory, t: Tree)
    requires Holds(m, t)
    ensures (t.Node? <==> Ptr(t) != 0) && Items(t)[0..] == Items(t)
  {
  }

  /** A node without left child is the first item. */
  lemma FreeHead(m: Memory, t: Tree)
    requires Holds(m, t) && Distinct(t) && t.Node? && Ptr(t.l) == 0
    ensures t.i.at in m && m[t.i.at].p1 == Ptr(t.r) && (t.r.Node? <==> Ptr(t.r) != 0)
    ensures Items(t) == [ItemOf(t.i)] + Items(t.r) && Count(t.r) < Count(t)
    ensures Holds(m - {t.i.at}, t.r) && Distinct(t.r)
    ensures m - Refs(t) == (m - {t.i.at}) - Refs(t.r)
  {
    assert t.l == Leaf;
    HoldsFrame(m, m - {t.i.at}, t.r);
    assert Refs(t) == {t.i.at} + Refs(t.r);
  }

  /** Turning the left child up keeps the items and shortens the left subtree. */
  lemma FreeTurn(m: Memory, t: Tree)
    requires Holds(m, t) && Distinct(t) && t.Node? && Ptr(t.l) != 0
    ensures t.l.Node? && t.i.at in m && t.l.i.at in m && m[t.i.at].p0 == t.l.i.at && t.l.i.at != 0
    ensures var p, q := t.i.at, t.l.i.at;
      var u := Node(t.l.l, t.l.i, Node(t.l.r, t.i, t.r));
      var m' := m[p := m[p].(p0 := m[q].p1)][q := m[q].(p1 := p)];
      && p != q && Holds(m', u) && Distinct(u) && Items(u) == Items(t) && m' - Refs(u) == m - Refs(t)
      && Count(u) == Count(t) && Count(u.l) < Count(t.l)
  {
    var p, q := t.i.at, t.l.i.at;
    var u := Node(t.l.l, t.l.i, Node(t.l.r, t.i, t.r));
    var m' := m[p := m[p].(p0 := m[q].p1)][q := m[q].(p1 := p)];
    HoldsFrame(m, m', t.l.l);
    HoldsFrame(m, m', t.l.r);
    HoldsFrame(m, m', t.r);
    assert Refs(u) == Refs(t);
    Regroup(Items(t.l.l), [ItemOf(t.l.i)], Items(t.l.r), [ItemOf(t.i)], Items(t.r));
  }
}
