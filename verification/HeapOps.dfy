/** The steps of the allocator of src/mem/kmalloc.c on the heap around the block they work on. */
module HeapOps {
  import opened HeapBlocks

  // ---------------------------------------------------------------- opening and closing the heap

  /** What the hole contributes to the free list when it is exactly the block c. */
  function Own(c: Block): multiset<int> { if c.free then multiset{c.at} else multiset{} }

  predicate Proper(c: Block) { c.at > 0 && c.at % 8 == 0 && c.size >= MIN_SIZE && c.size % 8 == 0 }

  /** c is in memory with its size in both tags and its type. */
  predicate Stored(m: Memory, c: Block) { Tagged(m, c) && Rd(m, c.at + 4) == TypeOf(c) }

  lemma FreeSeqOne(c: Block)
    ensures multiset(FreeSeq([c])) == Own(c)
  {
    assert [c][1..] == [];
  }

  lemma TilesOne(c: Block, s: int, e: int)
    ensures Tiles([c], s, e) <==> Proper(c) && c.at == s && End(c) == e
  {
    assert [c][1..] == [];
  }

  lemma TagsCat(m: Memory, a: seq<Block>, b: seq<Block>)
    ensures Tags(m, a + b) <==> Tags(m, a) && Tags(m, b)
  {
    if Tags(m, a + b) {
      forall k | 0 <= k < |a| ensures Stored(m, a[k]) {
        assert (a + b)[k] == a[k];
      }
      forall k | 0 <= k < |b| ensures Stored(m, b[k]) {
        assert (a + b)[|a| + k] == b[k];
      }
    }
  }

  lemma TagsOne(m: Memory, c: Block)
    ensures Tags(m, [c]) <==> Stored(m, c)
  {
    assert Tags(m, [c]) ==> Tagged(m, [c][0]);
  }

  /** The block below the hole joins it. */
  lemma WidenDown(m: Memory, s: int, e: int, last: int, a: seq<Block>, p: Block, lo: int, hi: int, b: seq<Block>,
                  fl: seq<int>, own: multiset<int>)
    ensures Around(m, s, e, last, a + [p], lo, hi, b, fl, own) <==>
      && Around(m, s, e, last, a, p.at, hi, b, fl, own + Own(p)) && Stored(m, p) && Proper(p) && End(p) == lo
  {
    hide Chained, Spaced, Stored, Tags, Tiles, FreeSeq;
    TilesCat(a, [p], s, lo);
    TilesOne(p, EndOf(a, s), lo);
    TagsCat(m, a, [p]);
    TagsOne(m, p);
    FreeSeqCat(a, [p]);
    FreeSeqOne(p);
    TilesEndOf(a, s, p.at);
  }

  lemma TilesEndOf(a: seq<Block>, s: int, e: int)
    ensures Tiles(a, s, e) ==> e == EndOf(a, s)
  {
    if Tiles(a, s, e) {
      TilesEnds(a, s, e);
    }
  }

  /** The block above the hole joins it. */
  lemma WidenUp(m: Memory, s: int, e: int, last: int, a: seq<Block>, lo: int, hi: int, n: Block, b: seq<Block>,
                fl: seq<int>, own: multiset<int>)
    ensures Around(m, s, e, last, a, lo, hi, [n] + b, fl, own) <==>
      && Around(m, s, e, last, a, lo, End(n), b, fl, own + Own(n)) && Stored(m, n) && Proper(n) && n.at == hi
  {
    hide Chained, Spaced, Stored, Tags, Tiles, FreeSeq;
    TilesCat([n], b, hi, e);
    TilesOne(n, hi, End(n));
    TagsCat(m, [n], b);
    TagsOne(m, n);
    FreeSeqCat([n], b);
    FreeSeqOne(n);
  }

  /** A hole that is exactly the block c, seen as part of the whole. */
  lemma Closed(m: Memory, s: int, e: int, last: int, a: seq<Block>, c: Block, b: seq<Block>, fl: seq<int>)
    ensures WellFormed(m, s, e, last, a + [c] + b, fl) <==>
      && Around(m, s, e, last, a, c.at, End(c), b, fl, Own(c)) && Stored(m, c) && Proper(c) && Coalesced(a + [c] + b)
  {
    hide Chained, Spaced, Stored, Tags, Tiles, FreeSeq, Coalesced;
    TilesCat(a + [c], b, s, e);
    TilesCat(a, [c], s, End(c));
    TilesOne(c, EndOf(a, s), End(c));
    TagsCat(m, a + [c], b);
    TagsCat(m, a, [c]);
    TagsOne(m, c);
    FreeSeqCat(a + [c], b);
    FreeSeqCat(a, [c]);
    FreeSeqOne(c);
    TilesEndOf(a, s, c.at);
  }

  // ---------------------------------------------------------------- used blocks

  /** The used blocks in address order. */
  function Used(bs: seq<Block>): seq<Block> {
    if |bs| == 0 then [] else (if bs[0].free then [] else [bs[0]]) + Used(bs[1..])
  }

  lemma {:induction false} UsedCat(a: seq<Block>, b: seq<Block>)
    ensures Used(a + b) == Used(a) + Used(b)
  {
    if |a| == 0 {
      assert a + b == b;
    } else {
      UsedCat(a[1..], b);
      assert (a + b)[1..] == a[1..] + b;
      assert (a + b)[0] == a[0];
      var x := if a[0].free then [] else [a[0]];
      assert x + (Used(a[1..]) + Used(b)) == (x + Used(a[1..])) + Used(b);
    }
  }

  lemma UsedAround(a: seq<Block>, c: Block, b: seq<Block>)
    ensures Used(a + [c] + b) == if c.free then Used(a) + Used(b) else Used(a) + [c] + Used(b)
  {
    hide Used;
    UsedCat(a + [c], b);
    UsedCat(a, [c]);
    UsedOne(c);
  }

  lemma UsedOne(c: Block)
    ensures Used([c]) == if c.free then [] else [c]
  {
    assert [c][1..] == [];
  }

  // ---------------------------------------------------------------- freeing

  /** The block that freeing c leaves at its place once it is merged with a free block below. */
  function MergedDown(a: seq<Block>, c: Block): (seq<Block>, Block) {
    if |a| > 0 && a[|a| - 1].free then
      (a[..|a| - 1], Block(a[|a| - 1].at, a[|a| - 1].size + c.size + FOOTER + HEADER, true))
    else (a, c.(free := true))
  }

  /** The blocks after freeing c between a and b, merged with free neighbours on both sides. */
  function Freed(a: seq<Block>, c: Block, b: seq<Block>): seq<Block> {
    var (a1, c1) := MergedDown(a, c);
    if |b| > 0 && b[0].free then a1 + [Block(c1.at, c1.size + b[0].size + FOOTER + HEADER, true)] + b[1..]
    else a1 + [c1] + b
  }

  /** The free list without the block at x. */
  function Minus(fl: seq<int>, x: int): seq<int> {
    if |fl| == 0 then [] else if fl[0] == x then fl[1..] else [fl[0]] + Minus(fl[1..], x)
  }

  lemma {:induction false} MinusIs(fl: seq<int>, i: nat)
    requires i < |fl| && forall j :: 0 <= j < i ==> fl[j] != fl[i]
    ensures Minus(fl, fl[i]) == Without(fl, i)
  {
    if i > 0 {
      MinusIs(fl[1..], i - 1);
      assert [fl[0]] + Without(fl[1..], i - 1) == Without(fl, i);
    }
  }

  /** The same in a well-spaced list, where no block stands twice. */
  lemma MinusSpaced(m: Memory, s: int, e: int, last: int, a: seq<Block>, lo: int, hi: int, b: seq<Block>,
                    fl: seq<int>, own: multiset<int>, i: nat)
    requires Around(m, s, e, last, a, lo, hi, b, fl, own) && i < |fl|
    ensures Minus(fl, fl[i]) == Without(fl, i)
  {
    forall j | 0 <= j < i ensures fl[j] != fl[i] {
      SpacedAt(fl, j, i);
    }
    hide Tags, Tiles, FreeSeq, Chained;
    MinusIs(fl, i);
  }

  /** The free list after freeing c between a and b: the last block freed comes first, unless a free block below has
      swallowed it, and a free block above leaves the list. */
  function FreedList(a: seq<Block>, c: Block, b: seq<Block>, fl: seq<int>): seq<int> {
    var pushed := if |a| > 0 && a[|a| - 1].free then fl else [c.at] + fl;
    if |b| > 0 && b[0].free then Minus(pushed, b[0].at) else pushed
  }

  /** Freeing drops exactly that block from the used ones. */
  lemma FreedUsed(a: seq<Block>, c: Block, b: seq<Block>)
    ensures Used(Freed(a, c, b)) == Used(a) + Used(b)
  {
    hide Used, MergedDown;
    var (a1, c1) := MergedDown(a, c);
    MergedUsed(a, c);
    if |b| > 0 && b[0].free {
      UsedBehind(b);
      UsedAround(a1, Block(c1.at, c1.size + b[0].size + FOOTER + HEADER, true), b[1..]);
    } else {
      UsedAround(a1, c1, b);
    }
  }

  lemma MergedUsed(a: seq<Block>, c: Block)
    ensures var (a1, c1) := MergedDown(a, c); Used(a1) == Used(a) && c1.free
  {
    hide Used;
    if |a| > 0 && a[|a| - 1].free {
      assert a == a[..|a| - 1] + [a[|a| - 1]];
      UsedCat(a[..|a| - 1], [a[|a| - 1]]);
      UsedOne(a[|a| - 1]);
    }
  }

  lemma UsedBehind(b: seq<Block>)
    requires |b| > 0 && b[0].free
    ensures Used(b[1..]) == Used(b)
  {
  }

  lemma CoalescedAt(bs: seq<Block>, k: nat)
    requires Coalesced(bs) && 0 < k < |bs|
    ensures !(bs[k - 1].free && bs[k].free)
  {
  }

  lemma FreedCoalesced(a: seq<Block>, c: Block, b: seq<Block>)
    requires Coalesced(a) && Coalesced(b)
    ensures Coalesced(Freed(a, c, b))
  {
    var (a1, c1) := MergedDown(a, c);
    var fs := Freed(a, c, b);
    forall k | 0 < k < |fs| ensures !(fs[k - 1].free && fs[k].free) {
      var off := |b| - (|fs| - |a1| - 1);
      if k < |a1| {
        assert fs[k] == a[k] && fs[k - 1] == a[k - 1];
      } else if k == |a1| {
        assert fs[k - 1] == a[k - 1];
        if |a1| < |a| {
          CoalescedAt(a, |a| - 1);
        }
      } else if k > |a1| + 1 {
        assert fs[k] == b[k - |a1| - 1 + off] && fs[k - 1] == b[k - |a1| - 2 + off];
      } else {
        assert fs[k] == b[off];
        if off == 1 {
          CoalescedAt(b, 1);
        }
      }
    }
  }

  /** set_block over a hole stores the block that fills it, and spares everything around. */
  lemma FillHole(m: Memory, s: int, e: int, last: int, a: seq<Block>, c: Block, b: seq<Block>, fl: seq<int>, own: multiset<int>)
    requires Around(m, s, e, last, a, c.at, End(c), b, fl, own) && Proper(c)
    requires forall x :: x in own ==> c.at <= x && x + 24 <= End(c)
    ensures var m' := SetBlock(m, c.size, c.at);
      && Around(m', s, e, last, a, c.at, End(c), b, fl, own) && Tagged(m', c) && Rd(m', c.at + 4) == Rd(m, c.at + 4)
      && LiveKept(m, m', a) && LiveKept(m, m', b)
  {
    var m' := SetBlock(m, c.size, c.at);
    assert SameOutside(m, m', c.at, End(c));
    hide Tags, Tiles, FreeSeq, Chained, Spaced, LiveKept, SameOutside;
    AroundWrite(m, m', s, e, last, a, c.at, End(c), b, fl, own);
  }

  lemma AroundStart(m: Memory, s: int, e: int, last: int, a: seq<Block>, lo: int, hi: int, b: seq<Block>,
                    fl: seq<int>, own: multiset<int>)
    requires Around(m, s, e, last, a, lo, hi, b, fl, own)
    ensures lo > s <==> |a| > 0
    ensures hi < e <==> |b| > 0
    ensures s <= lo && hi <= e
    ensures |a| > 0 ==> a == a[..|a| - 1] + [a[|a| - 1]] && Stored(m, a[|a| - 1]) && End(a[|a| - 1]) == lo && PrevBlock(m, lo) == a[|a| - 1].at
    ensures |b| > 0 ==> b == [b[0]] + b[1..] && Stored(m, b[0]) && b[0].at == hi
  {
    TilesEnds(a, s, lo);
    TilesEnds(b, hi, e);
    if |a| > 0 {
      TilesIn(a, s, lo, |a| - 1);
    }
    if |b| > 0 {
      TilesIn(b, hi, e, 0);
    }
    hide Tiles, FreeSeq, Chained, Spaced;
  }

  /** The first half of free_block: merge with a free block below, or make the block a listed free one. */
  method MergeOrPush(m0: Memory, start: int, last0: int, h0: int,
                     ghost end: int, ghost a: seq<Block>, ghost c: Block, ghost b: seq<Block>, ghost fl0: seq<int>)
    returns (m: Memory, last: int, h: int, ghost fl: seq<int>)
    requires Around(m0, start, end, last0, a, c.at, End(c), b, fl0, multiset{}) && Tagged(m0, c) && Proper(c) && h0 == c.at
    ensures var (a1, c1) := MergedDown(a, c);
      && h == c1.at && c1.free && Proper(c1) && End(c1) == End(c) && Stored(m, c1)
      && Around(m, start, end, last, a1, c1.at, End(c1), b, fl, multiset{c1.at})
    ensures fl == if |a| > 0 && a[|a| - 1].free then fl0 else [c.at] + fl0
    ensures LiveKept(m0, m, a) && LiveKept(m0, m, b)
  {
    hide Tags, Tiles, FreeSeq, Chained, Spaced, LiveKept, Around;
    AroundStart(m0, start, end, last0, a, c.at, End(c), b, fl0, multiset{});
    var prev := PrevBlock(m0, h0);
    if h0 > start && TypeAt(m0, prev) == TYPE_FREE {
      ghost var p := a[|a| - 1];
      ghost var a1, c1 := a[..|a| - 1], Block(p.at, p.size + c.size + FOOTER + HEADER, true);
      WidenDown(m0, start, end, last0, a1, p, c.at, End(c), b, fl0, multiset{});
      assert multiset{} + Own(p) == multiset{p.at} && End(c1) == End(c);
      FillHole(m0, start, end, last0, a1, c1, b, fl0, multiset{p.at});
      m := SetBlock(m0, SizeAt(m0, prev) + FullSize(m0, h0), prev);
      h, last, fl := prev, last0, fl0;
      LiveBelow(m0, m, a1, p);
    } else {
      ghost var m1 := m0[h0 + 4 := TYPE_FREE];
      TypeWrite(m0, start, end, last0, a, c, b, fl0, TYPE_FREE);
      AroundPush(m1, start, end, last0, a, c.at, End(c), b, fl0, c.at);
      PushSpares(m1, start, end, last0, a, c, b, fl0);
      m := Push(m0[h0 + 4 := TYPE_FREE], last0, h0);
      h, last, fl := h0, h0 + HEADER, [h0] + fl0;
      LiveTrans(m0, m1, m, a);
      LiveTrans(m0, m1, m, b);
    }
  }

  lemma LiveBelow(m: Memory, m': Memory, a: seq<Block>, p: Block)
    requires LiveKept(m, m', a) && p.free
    ensures LiveKept(m, m', a + [p])
  {
  }

  lemma LiveAbove(m: Memory, m': Memory, n: Block, b: seq<Block>)
    requires LiveKept(m, m', b) && n.free
    ensures LiveKept(m, m', [n] + b)
  {
  }

  /** Writing the type word of the block that fills the hole. */
  lemma TypeWrite(m: Memory, s: int, e: int, last: int, a: seq<Block>, c: Block, b: seq<Block>, fl: seq<int>, ty: int)
    requires Around(m, s, e, last, a, c.at, End(c), b, fl, multiset{}) && Proper(c) && Tagged(m, c)
    ensures var m' := m[c.at + 4 := ty];
      && Around(m', s, e, last, a, c.at, End(c), b, fl, multiset{}) && Tagged(m', c) && Rd(m', c.at + 4) == ty
      && LiveKept(m, m', a) && LiveKept(m, m', b)
  {
    var m' := m[c.at + 4 := ty];
    assert SameOutside(m, m', c.at, End(c));
    hide Tags, Tiles, FreeSeq, Chained, Spaced, LiveKept, SameOutside;
    AroundWrite(m, m', s, e, last, a, c.at, End(c), b, fl, multiset{});
  }

  /** Pushing a block does not touch its tags or its type. */
  lemma PushSpares(m: Memory, s: int, e: int, last: int, a: seq<Block>, c: Block, b: seq<Block>, fl: seq<int>)
    requires Around(m, s, e, last, a, c.at, End(c), b, fl, multiset{}) && Proper(c) && Tagged(m, c)
    ensures var m' := Push(m, last, c.at); Tagged(m', c) && Rd(m', c.at + 4) == Rd(m, c.at + 4)
  {
    if |fl| > 0 {
      ListedWhere(m, s, e, last, a, c.at, End(c), b, fl, multiset{}, 0);
    }
    hide Tags, Tiles, FreeSeq, Spaced;
  }

  /** The second half of free_block: merge with a free block above. */
  method MergeNext(m0: Memory, end: int, last0: int, h: int,
                   ghost start: int, ghost a: seq<Block>, ghost c: Block, ghost b: seq<Block>, ghost fl0: seq<int>)
    returns (m: Memory, last: int, ghost fl: seq<int>)
    requires Around(m0, start, end, last0, a, c.at, End(c), b, fl0, multiset{c.at}) && Stored(m0, c) && Proper(c) && c.free && h == c.at
    ensures if |b| > 0 && b[0].free then
        var c2 := Block(c.at, c.size + b[0].size + FOOTER + HEADER, true);
        && Around(m, start, end, last, a, c2.at, End(c2), b[1..], fl, multiset{c2.at}) && Stored(m, c2) && Proper(c2)
        && fl == Minus(fl0, b[0].at)
      else m == m0 && last == last0 && fl == fl0
    ensures LiveKept(m0, m, a) && LiveKept(m0, m, b)
  {
    hide Tags, Tiles, FreeSeq, Chained, Spaced, LiveKept, Around, Minus, Without, Unlink;
    AroundStart(m0, start, end, last0, a, c.at, End(c), b, fl0, multiset{c.at});
    m, last, fl := m0, last0, fl0;
    LiveSame(m0, a);
    LiveSame(m0, b);
    var next := NextBlock(m, h);
    if end > next && TypeAt(m, next) == TYPE_FREE {
      ghost var n, b1 := b[0], b[1..];
      ghost var c2 := Block(c.at, c.size + n.size + FOOTER + HEADER, true);
      WidenUp(m0, start, end, last0, a, c.at, End(c), n, b1, fl0, multiset{c.at});
      ghost var own := multiset{c.at} + multiset{n.at};
      FillHole(m0, start, end, last0, a, c2, b1, fl0, own);
      m := SetBlock(m, SizeAt(m, h) + FullSize(m, next), h);
      ghost var m1 := m;
      ghost var i := OwnIndex(m, start, end, last, a, c2.at, End(c2), b1, fl0, own, n.at);
      AroundUnlink(m, start, end, last, a, c2.at, End(c2), b1, fl0, own, i);
      UnlinkSpares(m, start, end, last, a, c2, n.at, b1, fl0, i);
      var u := Unlink(m, last, next + HEADER);
      m, last := u.0, u.1;
      fl := Without(fl0, i);
      assert own - multiset{n.at} == multiset{c2.at};
      LiveTrans(m0, m1, m, a);
      LiveTrans(m0, m1, m, b1);
      LiveAbove(m0, m, n, b1);
    }
  }

  lemma OwnIndex(m: Memory, s: int, e: int, last: int, a: seq<Block>, lo: int, hi: int, b: seq<Block>,
                 fl: seq<int>, own: multiset<int>, x: int) returns (i: nat)
    requires Around(m, s, e, last, a, lo, hi, b, fl, own) && x in own
    ensures i < |fl| && fl[i] == x && Without(fl, i) == Minus(fl, x)
  {
    assert x in multiset(fl);
    i :| 0 <= i < |fl| && fl[i] == x;
    MinusSpaced(m, s, e, last, a, lo, hi, b, fl, own, i);
  }

  /** Unlinking the block at n inside the hole touches neither tags nor type of the block c over it. */
  lemma UnlinkSpares(m: Memory, s: int, e: int, last: int, a: seq<Block>, c: Block, n: int, b: seq<Block>, fl: seq<int>, i: nat)
    requires Around(m, s, e, last, a, c.at, End(c), b, fl, multiset{c.at} + multiset{n}) && Stored(m, c) && Proper(c)
    requires i < |fl| && fl[i] == n && c.at + 24 <= n && n + 24 <= End(c)
    ensures Stored(Unlink(m, last, n + HEADER).0, c)
  {
    var own := multiset{c.at} + multiset{n};
    if i > 0 {
      ListedWhere(m, s, e, last, a, c.at, End(c), b, fl, own, i - 1);
      SpacedAt(fl, i - 1, i);
    }
    if i + 1 < |fl| {
      ListedWhere(m, s, e, last, a, c.at, End(c), b, fl, own, i + 1);
      SpacedAt(fl, i + 1, i);
    }
    UnlinkRead(m, last, fl, i, c.at);
    UnlinkRead(m, last, fl, i, c.at + 4);
    UnlinkRead(m, last, fl, i, c.at + HEADER + c.size);
    hide Tags, Tiles, FreeSeq, Chained, Spaced, Unlink;
  }

  /** free_block: the block c between a and b becomes free, merged with its free neighbours. */
  method FreeBlock(m0: Memory, start: int, end: int, last0: int, h0: int,
                   ghost a: seq<Block>, ghost c: Block, ghost b: seq<Block>, ghost fl0: seq<int>)
    returns (m: Memory, last: int, ghost fl: seq<int>)
    requires Around(m0, start, end, last0, a, c.at, End(c), b, fl0, multiset{}) && Tagged(m0, c) && Proper(c) && h0 == c.at
    requires Coalesced(a) && Coalesced(b)
    ensures WellFormed(m, start, end, last, Freed(a, c, b), fl) && fl == FreedList(a, c, b, fl0)
    ensures LiveKept(m0, m, a) && LiveKept(m0, m, b)
  {
    hide Tags, Tiles, FreeSeq, Chained, Spaced, LiveKept, Around, WellFormed, Coalesced, Stored, Minus;
    var h;
    m, last, h, fl := MergeOrPush(m0, start, last0, h0, end, a, c, b, fl0);
    ghost var m1 := m;
    ghost var (a1, c1) := MergedDown(a, c);
    m, last, fl := MergeNext(m, end, last, h, start, a1, c1, b, fl);
    LivePart(m1, m, a);
    LiveTrans(m0, m1, m, a);
    LiveTrans(m0, m1, m, b);
    FreedCoalesced(a, c, b);
    if |b| > 0 && b[0].free {
      Closed(m, start, end, last, a1, Block(c1.at, c1.size + b[0].size + FOOTER + HEADER, true), b[1..], fl);
    } else {
      Closed(m, start, end, last, a1, c1, b, fl);
    }
  }

  lemma LivePart(m: Memory, m': Memory, a: seq<Block>)
    requires |a| > 0 && a[|a| - 1].free ==> LiveKept(m, m', a[..|a| - 1])
    requires !(|a| > 0 && a[|a| - 1].free) ==> LiveKept(m, m', a)
    ensures LiveKept(m, m', a)
  {
    if |a| > 0 && a[|a| - 1].free {
      LiveBelow(m, m', a[..|a| - 1], a[|a| - 1]);
      assert a == a[..|a| - 1] + [a[|a| - 1]];
    }
  }
}
