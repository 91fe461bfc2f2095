/** The allocator of src/mem/kmalloc.c: first fit along the free list, splitting, page-aligned carving,
    growth at the end, and release. */
module KernelHeap {
  import opened Common
  import opened HeapBlocks
  import opened HeapOps

  /** get_alignment_offset: how far behind the payload of a block at address h the next usable page boundary
      lies; 0 if the payload is page aligned. */
  function AlignmentOffset(h: int): int {
    var content := h + HEADER;
    if content % PAGE_SIZE == 0 then 0 else
      var off := PAGE_SIZE - content % PAGE_SIZE;
      if off < 0x100 then off + PAGE_SIZE else off
  }

  /** How far the block that is handed out is from the start of the one at h. */
  function Shift(h: int, align: bool): int { if align then AlignmentOffset(h) else 0 }

  /** The offset leads to a page boundary and leaves room for the block in front of it. */
  lemma OffsetAligns(h: int)
    ensures (h + HEADER + AlignmentOffset(h)) % PAGE_SIZE == 0
    ensures if (h + HEADER) % PAGE_SIZE == 0 then AlignmentOffset(h) == 0 else 0x100 <= AlignmentOffset(h) < PAGE_SIZE + 0x100
  {
    var c := h + HEADER;
    var q, r := c / PAGE_SIZE, c % PAGE_SIZE;
    assert c == q * PAGE_SIZE + r;
    PageMultiple(q + 1);
    PageMultiple(q + 2);
  }

  lemma PageMultiple(q: int)
    ensures (q * PAGE_SIZE) % PAGE_SIZE == 0
  {
  }

  lemma OffsetEight(h: int)
    requires h % 8 == 0
    ensures AlignmentOffset(h) % 8 == 0
  {
    var c := h + HEADER;
    var q, r := c / PAGE_SIZE, c % PAGE_SIZE;
    var t := h / 8 + 1 - 512 * q;
    assert r == 8 * t;
    EightMultiple(512 - t);
    EightMultiple(1024 - t);
    assert AlignmentOffset(h) in {0, 8 * (512 - t), 8 * (1024 - t)};
  }

  lemma EightMultiple(t: int)
    ensures (8 * t) % 8 == 0
  {
  }

  /** ALIGN(sz, 8), at least the size of struct free_block. */
  function RoundUp(sz: nat): (r: int)
    ensures sz <= r && r % 8 == 0 && r >= MIN_SIZE && (r < sz + 8 || r == MIN_SIZE)
  {
    var a := if sz % 8 == 0 then sz else sz - sz % 8 + 8;
    if a < MIN_SIZE then MIN_SIZE else a
  }

  // ---------------------------------------------------------------- splitting

  /** split_block: cuts the used block c, leaving sz bytes in it; rest is 0 if it is too small to cut. */
  method SplitBlock(m0: Memory, h: int, sz: int, ghost s: int, ghost e: int, ghost last: int,
                    ghost a: seq<Block>, ghost c: Block, ghost b: seq<Block>, ghost fl: seq<int>)
    returns (m: Memory, rest: int)
    requires Around(m0, s, e, last, a, c.at, End(c), b, fl, multiset{}) && Tagged(m0, c) && Proper(c) && !c.free && h == c.at
    requires sz >= MIN_SIZE && sz % 8 == 0
    ensures rest == 0 <==> c.size < sz + HEADER + FOOTER + MIN_SIZE
    ensures rest == 0 ==> m == m0
    ensures rest != 0 ==>
      var c1, c2 := Block(c.at, sz, false), Block(c.at + sz + HEADER + FOOTER, c.size - sz - HEADER - FOOTER, false);
      && rest == c2.at && End(c1) == c2.at && End(c2) == End(c) && Proper(c1) && Proper(c2) && Tagged(m, c1) && Tagged(m, c2)
      && Around(m, s, e, last, a, c.at, End(c), b, fl, multiset{})
    ensures LiveKept(m0, m, a) && LiveKept(m0, m, b)
  {
    hide Tags, Tiles, FreeSeq, Spaced, LiveKept, Around, Chained, SameOutside, Proper, Tagged, SetBlock, NextBlock, SizeAt;
    SplitSize(m0, c);
    if SizeAt(m0, h) < sz + HEADER + FOOTER + MIN_SIZE {
      m, rest := m0, 0;
      LiveSame(m0, a);
      LiveSame(m0, b);
      return;
    }
    var orig := SizeAt(m0, h);
    m := SetBlock(m0, sz, h);
    var size := orig - sz - HEADER - FOOTER;
    rest := NextBlock(m, h);
    m := SetBlock(m, size, rest);
    SplitFacts(m0, c, sz);
    SplitProper(c, sz);
    AroundWrite(m0, m, s, e, last, a, c.at, End(c), b, fl, multiset{});
  }

  lemma SplitSize(m: Memory, c: Block)
    requires Tagged(m, c)
    ensures SizeAt(m, c.at) == c.size
  {
  }

  /** Both parts of a split block are proper blocks. */
  lemma SplitProper(c: Block, sz: int)
    requires Proper(c) && sz >= MIN_SIZE && sz % 8 == 0 && c.size >= sz + HEADER + FOOTER + MIN_SIZE
    ensures var c1, c2 := Block(c.at, sz, false), Block(c.at + sz + HEADER + FOOTER, c.size - sz - HEADER - FOOTER, false);
      Proper(c1) && Proper(c2) && End(c1) == c2.at && End(c2) == End(c) && c2.at != 0
  {
  }

  /** The words written by a split lie inside the block and tag both parts. */
  lemma SplitFacts(m: Memory, c: Block, sz: int)
    requires Proper(c) && sz >= MIN_SIZE && c.size >= sz + HEADER + FOOTER + MIN_SIZE
    ensures var c1, c2 := Block(c.at, sz, false), Block(c.at + sz + HEADER + FOOTER, c.size - sz - HEADER - FOOTER, false);
      var m' := SetBlock(SetBlock(m, sz, c.at), c2.size, c2.at);
      SameOutside(m, m', c.at, End(c)) && Tagged(m', c1) && Tagged(m', c2) && NextBlock(SetBlock(m, sz, c.at), c.at) == c2.at
  {
  }

  // ---------------------------------------------------------------- taking a free block

  lemma CoalescedParts(a: seq<Block>, c: Block, b: seq<Block>)
    requires Coalesced(a + [c] + b)
    ensures Coalesced(a) && Coalesced(b)
    ensures c.free && |a| > 0 ==> !a[|a| - 1].free
    ensures c.free && |b| > 0 ==> !b[0].free
  {
    var bs := a + [c] + b;
    forall k | 0 < k < |a| ensures !(a[k - 1].free && a[k].free) {
      assert bs[k - 1] == a[k - 1] && bs[k] == a[k];
    }
    forall k | 0 < k < |b| ensures !(b[k - 1].free && b[k].free) {
      assert bs[|a| + k] == b[k - 1] && bs[|a| + 1 + k] == b[k];
    }
    if |a| > 0 {
      assert bs[|a| - 1] == a[|a| - 1] && bs[|a|] == c;
    }
    if |b| > 0 {
      assert bs[|a| + 1] == b[0] && bs[|a| + 1 - 1] == c;
    }
  }

  lemma CoalescedUsed(a: seq<Block>, c: Block, b: seq<Block>)
    requires Coalesced(a) && Coalesced(b) && !c.free
    ensures Coalesced(a + [c] + b)
  {
    var bs := a + [c] + b;
    forall k | 0 < k < |bs| ensures !(bs[k - 1].free && bs[k].free) {
      if k < |a| {
        assert bs[k] == a[k] && bs[k - 1] == a[k - 1];
      } else if k > |a| + 1 {
        assert bs[k] == b[k - |a| - 1] && bs[k - 1] == b[k - |a| - 2];
      }
    }
  }

  lemma LiveJoin(m: Memory, m': Memory, a: seq<Block>, c: Block, b: seq<Block>)
    requires LiveKept(m, m', a) && LiveKept(m, m', b) && c.free
    ensures LiveKept(m, m', a + [c] + b)
  {
  }

  lemma LiveParts(m: Memory, m': Memory, a: seq<Block>, b: seq<Block>)
    requires LiveKept(m, m', a + b)
    ensures LiveKept(m, m', a) && LiveKept(m, m', b)
  {
    forall k, x | 0 <= k < |a| && !a[k].free && a[k].at + HEADER - 3 <= x < a[k].at + HEADER + a[k].size
      ensures Rd(m', x) == Rd(m, x)
    {
      assert (a + b)[k] == a[k];
    }
    forall k, x | 0 <= k < |b| && !b[k].free && b[k].at + HEADER - 3 <= x < b[k].at + HEADER + b[k].size
      ensures Rd(m', x) == Rd(m, x)
    {
      assert (a + b)[|a| + k] == b[k];
    }
  }

  /** A listed block is one of the heap's free blocks. */
  lemma ListedBlock(m: Memory, s: int, e: int, last: int, bs: seq<Block>, fl: seq<int>, i: nat) returns (k: nat)
    requires WellFormed(m, s, e, last, bs, fl) && i < |fl|
    ensures k < |bs| && bs[k].free && bs[k].at == fl[i] && Stored(m, bs[k]) && Proper(bs[k])
    ensures PrevFree(m, fl[i] + HEADER) == Link(fl, i + 1)
  {
    assert fl[i] in multiset(fl);
    assert Linked(m, fl, i);
    k := FreeSeqIndex(bs, fl[i]);
    TilesIn(bs, s, e, k);
  }

  /** Unlinking the free block that is the whole hole spares its tags. */
  lemma UnlinkSelf(m: Memory, s: int, e: int, last: int, a: seq<Block>, c: Block, b: seq<Block>, fl: seq<int>, i: nat)
    requires Around(m, s, e, last, a, c.at, End(c), b, fl, multiset{c.at}) && Tagged(m, c) && Proper(c)
    requires i < |fl| && fl[i] == c.at
    ensures Tagged(Unlink(m, last, c.at + HEADER).0, c)
  {
    var own := multiset{c.at};
    if i > 0 {
      ListedWhere(m, s, e, last, a, c.at, End(c), b, fl, own, i - 1);
      SpacedAt(fl, i - 1, i);
    }
    if i + 1 < |fl| {
      ListedWhere(m, s, e, last, a, c.at, End(c), b, fl, own, i + 1);
      SpacedAt(fl, i + 1, i);
    }
    UnlinkRead(m, last, fl, i, c.at);
    UnlinkRead(m, last, fl, i, c.at + HEADER + c.size);
    hide Tags, Tiles, FreeSeq, Chained, Spaced, Unlink;
  }

  /** A used block of at least want bytes, out of the free list, with the heap in order around it. */
  predicate Carved(m: Memory, s: int, e: int, last: int, a: seq<Block>, c: Block, b: seq<Block>, fl: seq<int>, want: int) {
    && !c.free && Proper(c) && c.size >= want
    && Around(m, s, e, last, a, c.at, End(c), b, fl, multiset{}) && Tagged(m, c)
    && Coalesced(a) && Coalesced(b)
  }

  lemma OneInside(c: Block)
    requires Proper(c)
    ensures OwnInside(multiset{c.at}, c.at, End(c))
  {
  }

  lemma StoredTagged(m: Memory, c: Block)
    requires Stored(m, c)
    ensures Tagged(m, c) && Rd(m, c.at + 4) == TypeOf(c)
  {
  }

  /** Typing the first of the two blocks in the hole as used puts it in order below the second. */
  lemma KeepFirst(m: Memory, s: int, e: int, last: int, a: seq<Block>, c1: Block, c2: Block, b: seq<Block>, fl: seq<int>)
    requires Around(m, s, e, last, a, c1.at, End(c2), b, fl, multiset{}) && Tagged(m, c1) && Tagged(m, c2)
    requires Proper(c1) && Proper(c2) && !c1.free && End(c1) == c2.at
    ensures var m' := m[c1.at + 4 := TYPE_USED];
      && Around(m', s, e, last, a + [c1], c2.at, End(c2), b, fl, multiset{}) && Tagged(m', c2)
      && LiveKept(m, m', a) && LiveKept(m, m', b)
  {
    var m' := m[c1.at + 4 := TYPE_USED];
    assert SameOutside(m, m', c1.at, End(c2));
    assert Stored(m', c1) && Tagged(m', c2);
    assert multiset{} + Own(c1) == multiset{};
    hide Tags, Tiles, FreeSeq, Chained, Spaced, LiveKept, Around, SameOutside, Stored;
    AroundWrite(m, m', s, e, last, a, c1.at, End(c2), b, fl, multiset{});
    WidenDown(m', s, e, last, a, c1, c2.at, End(c2), b, fl, multiset{});
  }

  /** Freeing the rest c2 behind the used block c1, when the block behind is not free. */
  lemma FreedRest(a: seq<Block>, c1: Block, c2: Block, b: seq<Block>)
    requires !c1.free && (|b| > 0 ==> !b[0].free)
    ensures Freed(a + [c1], c2, b) == a + [c1] + ([c2.(free := true)] + b)
    ensures forall fl :: FreedList(a + [c1], c2, b, fl) == [c2.at] + fl
    ensures Used([c2.(free := true)] + b) == Used(b)
  {
    hide Used, MergedDown;
    UsedFront(c2.(free := true), b);
    MergeNone(a, c1, c2);
  }

  lemma MergeNone(a: seq<Block>, c1: Block, c2: Block)
    requires !c1.free
    ensures MergedDown(a + [c1], c2) == (a + [c1], c2.(free := true))
  {
    assert (a + [c1])[|a|] == c1;
  }

  lemma UsedFront(c: Block, b: seq<Block>)
    requires c.free
    ensures Used([c] + b) == Used(b)
  {
    assert ([c] + b)[1..] == b;
  }

  /** The end of the hit branch: type the cut block as used and free what was cut off. */
  method FreeRest(m0: Memory, start: int, end: int, last0: int, h: int, rest: int,
                  ghost a: seq<Block>, ghost c1: Block, ghost c2: Block, ghost b0: seq<Block>, ghost fl0: seq<int>)
    returns (m: Memory, last: int, ghost b: seq<Block>, ghost fl: seq<int>)
    requires Around(m0, start, end, last0, a, c1.at, End(c2), b0, fl0, multiset{}) && Tagged(m0, c1) && Tagged(m0, c2)
    requires Proper(c1) && Proper(c2) && !c1.free && !c2.free && End(c1) == c2.at && h == c1.at && rest == c2.at
    requires Coalesced(a) && Coalesced(b0) && (|b0| > 0 ==> !b0[0].free)
    ensures Carved(m, start, end, last, a, c1, b, fl, c1.size) && Used(b) == Used(b0)
    ensures b == [c2.(free := true)] + b0 && fl == [c2.at] + fl0
    ensures LiveKept(m0, m, a) && LiveKept(m0, m, b0)
  {
    hide Tags, Tiles, FreeSeq, Chained, Spaced, LiveKept, Around, WellFormed, Coalesced, Stored, Used, Freed;
    ghost var m1 := m0[h + 4 := TYPE_USED];
    KeepFirst(m0, start, end, last0, a, c1, c2, b0, fl0);
    CoalescedUsed(a, c1, []);
    assert a + [c1] + [] == a + [c1];
    EmptyCoalesced();
    m, last, fl := FreeBlock(m0[h + 4 := TYPE_USED], start, end, last0, rest, a + [c1], c2, b0, fl0);
    FreedRest(a, c1, c2, b0);
    b := [c2.(free := true)] + b0;
    Closed(m, start, end, last, a, c1, b, fl);
    CoalescedParts(a, c1, b);
    StoredTagged(m, c1);
    LiveParts(m1, m, a, [c1]);
    LiveTrans(m0, m1, m, a);
    LiveTrans(m0, m1, m, b0);
  }

  lemma EmptyCoalesced()
    ensures Coalesced([])
  {
  }

  /** How many of avail bytes a request for need takes: all of them, if the rest is too small for a block. */
  function Taken(avail: int, need: int): int { if avail < need + HEADER + FOOTER + MIN_SIZE then avail else need }

  /** The free block that the request leaves of the avail bytes of the block at x, if any. */
  function Rest(x: int, avail: int, need: int): (s: seq<Block>) {
    if avail < need + HEADER + FOOTER + MIN_SIZE then []
    else [Block(x + HEADER + need + FOOTER, avail - need - HEADER - FOOTER, true)]
  }

  /** Where the block is, if there is one. */
  function Place(s: seq<Block>): seq<int> { if |s| == 0 then [] else [s[0].at] }

  /** The hit branch of get_free_block: unlink the block, cut it to size, free the rest. */
  method TakeBlock(m0: Memory, start: int, end: int, last0: int, h: int, total: int,
                   ghost a: seq<Block>, ghost c0: Block, ghost b0: seq<Block>, ghost fl0: seq<int>, ghost i: nat)
    returns (m: Memory, last: int, ghost c: Block, ghost b: seq<Block>, ghost fl: seq<int>)
    requires WellFormed(m0, start, end, last0, a + [c0] + b0, fl0) && c0.free && h == c0.at && i < |fl0| && fl0[i] == h
    requires total >= MIN_SIZE && total % 8 == 0 && c0.size >= total
    ensures Carved(m, start, end, last, a, c, b, fl, total) && Used(b) == Used(b0)
    ensures c == Block(h, Taken(c0.size, total), false)
    ensures b == Rest(h, c0.size, total) + b0 && fl == Place(Rest(h, c0.size, total)) + Minus(fl0, h)
    ensures LiveKept(m0, m, a) && LiveKept(m0, m, b0)
  {
    hide Tags, Tiles, FreeSeq, Chained, Spaced, LiveKept, Around, WellFormed, Coalesced, Stored, Used, Unlink, Minus;
    Closed(m0, start, end, last0, a, c0, b0, fl0);
    MinusSpaced(m0, start, end, last0, a, c0.at, End(c0), b0, fl0, Own(c0), i);
    CoalescedParts(a, c0, b0);
    OneInside(c0);
    StoredTagged(m0, c0);
    AroundUnlink(m0, start, end, last0, a, c0.at, End(c0), b0, fl0, multiset{c0.at}, i);
    UnlinkSelf(m0, start, end, last0, a, c0, b0, fl0, i);
    var u := Unlink(m0, last0, h + HEADER);
    m, last, fl := u.0, u.1, Without(fl0, i);
    assert multiset{c0.at} - multiset{c0.at} == multiset{};
    ghost var m1 := m;
    c, b := c0.(free := false), b0;
    var rest;
    m, rest := SplitBlock(m, h, total, start, end, last, a, c, b, fl);
    ghost var m2 := m;
    LiveTrans(m0, m1, m, a);
    LiveTrans(m0, m1, m, b0);
    if rest != 0 {
      ghost var c2 := Block(rest, c0.size - total - HEADER - FOOTER, false);
      c := Block(h, total, false);
      m, last, b, fl := FreeRest(m, start, end, last, h, rest, a, c, c2, b0, fl);
      LiveTrans(m0, m2, m, a);
      LiveTrans(m0, m2, m, b0);
    }
  }

  /** What get_free_block wants of a free block. */
  predicate Fits(b: Block, sz: int, align: bool) {
    b.size >= if align then sz + AlignmentOffset(b.at) + HEADER + FOOTER else sz
  }

  /** The listed block at h fits and none before it in the list does. */
  predicate FirstFitting(bs: seq<Block>, fl: seq<int>, h: int, sz: int, align: bool) {
    exists i: nat :: i < |fl| && fl[i] == h
      && (exists k :: 0 <= k < |bs| && bs[k].at == h && Fits(bs[k], sz, align))
      && Passed(bs, fl, i, sz, align)
  }

  /** No free block fits. */
  predicate NoneFit(bs: seq<Block>, sz: int, align: bool) { forall k :: 0 <= k < |bs| && bs[k].free ==> !Fits(bs[k], sz, align) }

  /** The k-th block is cut to total bytes, if that leaves enough for a free block, which then heads the list. */
  predicate Cut(bs: seq<Block>, fl0: seq<int>, k: nat, total: int, c: Block, b: seq<Block>, fl: seq<int>) {
    && k < |bs| && c == Block(bs[k].at, Taken(bs[k].size, total), false)
    && b == Rest(bs[k].at, bs[k].size, total) + bs[k + 1..]
    && fl == Place(Rest(bs[k].at, bs[k].size, total)) + Minus(fl0, bs[k].at)
  }

  lemma CutIs(bs: seq<Block>, fl0: seq<int>, k: nat, total: int, c: Block, b: seq<Block>, fl: seq<int>)
    requires k < |bs| && c == Block(bs[k].at, Taken(bs[k].size, total), false)
    requires b == Rest(bs[k].at, bs[k].size, total) + bs[k + 1..]
    requires fl == Place(Rest(bs[k].at, bs[k].size, total)) + Minus(fl0, bs[k].at)
    ensures Cut(bs, fl0, k, total, c, b, fl)
  {
  }

  /** None of the first i listed blocks fits. */
  predicate Passed(bs: seq<Block>, fl: seq<int>, i: nat, sz: int, align: bool) {
    forall j, k :: 0 <= j < i && j < |fl| && 0 <= k < |bs| && bs[k].at == fl[j] ==> !Fits(bs[k], sz, align)
  }

  /** get_free_block: the first fitting block along the free list, or 0 if none fits. */
  method GetFreeBlock(m0: Memory, start: int, end: int, last0: int, sz: int, align: bool, ghost bs: seq<Block>, ghost fl0: seq<int>)
    returns (m: Memory, last: int, h: int, ghost k: nat, ghost c: Block, ghost b: seq<Block>, ghost fl: seq<int>)
    requires WellFormed(m0, start, end, last0, bs, fl0) && sz >= MIN_SIZE && sz % 8 == 0
    ensures h == 0 ==>
      && m == m0 && last == last0 && fl == fl0
      && NoneFit(bs, sz, align)
    ensures h != 0 ==>
      && k < |bs| && bs[k].free && bs[k].at == h && Fits(bs[k], sz, align) && FirstFitting(bs, fl0, h, sz, align)
      && Carved(m, start, end, last, bs[..k], c, b, fl, sz + Shift(h, align)) && Cut(bs, fl0, k, sz + Shift(h, align), c, b, fl)
      && Used(bs[..k]) + Used(b) == Used(bs) && LiveKept(m0, m, bs)
  {
    hide Tags, Tiles, FreeSeq, Spaced, LiveKept, Around, WellFormed, Coalesced, Used, Stored, Fits, Carved, Chained, FirstFitting, Passed,
      AlignmentOffset, Proper, Linked, NoneFit, Cut;
    m, last, fl, h := m0, last0, fl0, 0;
    k, c, b := 0, Block(0, 0, false), [];
    var fb := last0;
    ghost var i := 0;
    ListHead(m0, start, end, last0, bs, fl0);
    NonePassed(bs, fl0, sz, align);
    while fb != 0
      invariant 0 <= i <= |fl0| && fb == Link(fl0, i) && (i < |fl0| ==> fb != 0)
      invariant Passed(bs, fl0, i, sz, align) && h == 0
      decreases |fl0| - i
    {
      k := ListedBlock(m0, start, end, last0, bs, fl0, i);
      StoredTagged(m0, bs[k]);
      var fblock := fb - HEADER;
      if TypeAt(m0, fblock) != TYPE_FREE {
        assert false;
      }
      var needed, offset := sz, 0;
      if align {
        offset := AlignmentOffset(fblock);
        needed := needed + offset + HEADER + FOOTER;
      }
      FitsMeans(bs[k], sz, align);
      if SizeAt(m0, fblock) >= needed {
        ghost var a := bs[..k];
        SplitAt(bs, k);
        OffsetFits(bs[k], sz);
        m, last, c, b, fl := TakeBlock(m0, start, end, last0, fblock, sz + offset, a, bs[k], bs[k + 1..], fl0, i);
        h := fblock;
        CutIs(bs, fl0, k, sz + offset, c, b, fl);
        FitsFirst(bs, fl0, i, k, sz, align);
        UsedAround(a, bs[k], bs[k + 1..]);
        LiveJoin(m0, m, a, bs[k], bs[k + 1..]);
        return;
      }
      NotFitting(m0, start, end, last0, bs, fl0, i, k, sz, align);
      ListNext(m0, start, end, last0, bs, fl0, i + 1);
      fb := PrevFree(m0, fb);
      i := i + 1;
    }
    NoneFits(m0, start, end, last0, bs, fl0, sz, align);
  }

  lemma OffsetFits(b: Block, sz: int)
    requires Proper(b) && sz % 8 == 0
    ensures AlignmentOffset(b.at) >= 0 && (sz + AlignmentOffset(b.at)) % 8 == 0
  {
    OffsetAligns(b.at);
    OffsetEight(b.at);
    EightSum(sz, AlignmentOffset(b.at));
  }

  lemma NonePassed(bs: seq<Block>, fl: seq<int>, sz: int, align: bool)
    ensures Passed(bs, fl, 0, sz, align)
  {
  }

  lemma FitsFirst(bs: seq<Block>, fl: seq<int>, i: nat, k: nat, sz: int, align: bool)
    requires i < |fl| && k < |bs| && bs[k].at == fl[i] && Fits(bs[k], sz, align)
    requires Passed(bs, fl, i, sz, align)
    ensures FirstFitting(bs, fl, fl[i], sz, align)
  {
    hide Fits;
  }

  lemma FitsMeans(b: Block, sz: int, align: bool)
    ensures Fits(b, sz, align) <==> b.size >= if align then sz + AlignmentOffset(b.at) + HEADER + FOOTER else sz
  {
  }

  lemma ListHead(m: Memory, s: int, e: int, last: int, bs: seq<Block>, fl: seq<int>)
    requires WellFormed(m, s, e, last, bs, fl)
    ensures last == Link(fl, 0) && (|fl| > 0 ==> last != 0)
  {
    if |fl| > 0 {
      SpacedAt(fl, 0, 0);
    }
  }

  lemma ListNext(m: Memory, s: int, e: int, last: int, bs: seq<Block>, fl: seq<int>, i: nat)
    requires WellFormed(m, s, e, last, bs, fl)
    ensures i < |fl| ==> Link(fl, i) != 0
  {
    if i < |fl| {
      SpacedAt(fl, i, i);
    }
  }

  /** Two blocks of the heap with the same address are the same block. */
  lemma SameBlock(bs: seq<Block>, s: int, e: int, j: nat, k: nat)
    requires Tiles(bs, s, e) && j < |bs| && k < |bs| && bs[j].at == bs[k].at
    ensures j == k
  {
    if j < k {
      TilesOrder(bs, s, e, j, k);
      TilesIn(bs, s, e, j);
    } else if k < j {
      TilesOrder(bs, s, e, k, j);
      TilesIn(bs, s, e, k);
    }
  }

  lemma NotFitting(m: Memory, s: int, e: int, last: int, bs: seq<Block>, fl: seq<int>, i: nat, k: nat, sz: int, align: bool)
    requires WellFormed(m, s, e, last, bs, fl) && i < |fl| && k < |bs| && bs[k].at == fl[i] && !Fits(bs[k], sz, align)
    requires Passed(bs, fl, i, sz, align)
    ensures Passed(bs, fl, i + 1, sz, align)
  {
    forall j | 0 <= j < |bs| && bs[j].at == fl[i] ensures !Fits(bs[j], sz, align) {
      SameBlock(bs, s, e, j, k);
    }
  }

  lemma NoneFits(m: Memory, s: int, e: int, last: int, bs: seq<Block>, fl: seq<int>, sz: int, align: bool)
    requires WellFormed(m, s, e, last, bs, fl) && Passed(bs, fl, |fl|, sz, align)
    ensures NoneFit(bs, sz, align)
  {
    forall k | 0 <= k < |bs| && bs[k].free ensures !Fits(bs[k], sz, align) {
      IndexFreeSeq(bs, k);
      assert bs[k].at in multiset(fl);
      var j :| 0 <= j < |fl| && fl[j] == bs[k].at;
    }
  }

  // ---------------------------------------------------------------- allocation

  /** The tail of _kmalloc for an aligned request: cut the block off in front of the page boundary, free it,
      and keep what starts at the boundary. */
  method CutFront(m0: Memory, start: int, end: int, last0: int, h: int, off: int, ghost sz: int,
                  ghost a: seq<Block>, ghost c: Block, ghost b: seq<Block>, ghost fl0: seq<int>)
    returns (m: Memory, last: int, header: int, ghost bs: seq<Block>, ghost fl: seq<int>, ghost r: Block)
    requires Carved(m0, start, end, last0, a, c, b, fl0, sz + off) && h == c.at && sz >= MIN_SIZE && sz % 8 == 0
    requires off % 8 == 0 && off >= 0x100
    ensures header == r.at && r == Block(h + off, c.size - off, false) && r.size >= sz
    ensures var c1 := Block(h, off - HEADER - FOOTER, false);
      bs == Freed(a, c1, [r] + b) && fl == FreedList(a, c1, [r] + b, fl0)
    ensures WellFormed(m, start, end, last, bs, fl) && Used(bs) == Used(a) + [r] + Used(b)
    ensures LiveKept(m0, m, a) && LiveKept(m0, m, b)
  {
    hide Tags, Tiles, FreeSeq, Chained, Spaced, LiveKept, Around, WellFormed, Coalesced, Stored, Used, Freed;
    m, header := SplitBlock(m0, h, off - HEADER - FOOTER, start, end, last0, a, c, b, fl0);
    ghost var m1 := m;
    ghost var c1 := Block(h, off - HEADER - FOOTER, false);
    r := Block(h + off, c.size - off, false);
    KeepSecond(m, start, end, last0, a, c1, r, b, fl0);
    m := m[header + 4 := TYPE_USED];
    ghost var m2 := m;
    UsedInFront(r, b);
    m, last, fl := FreeBlock(m, start, end, last0, h, a, c1, [r] + b, fl0);
    bs := Freed(a, c1, [r] + b);
    FreedUsed(a, c1, [r] + b);
    ghost var m3 := m;
    m := m[header + 4 := TYPE_USED];
    Retype(m3, start, end, last, bs, fl, a, c1, r, b);
    LiveParts(m2, m3, [r], b);
    LiveTrans(m0, m1, m2, a);
    LiveTrans(m0, m1, m2, b);
    LiveTrans(m0, m2, m3, a);
    LiveTrans(m0, m2, m3, b);
    LiveReads(m3, m, a);
    LiveReads(m3, m, b);
    LiveTrans(m0, m3, m, a);
    LiveTrans(m0, m3, m, b);
    assert Used(a) + ([r] + Used(b)) == Used(a) + [r] + Used(b);
  }

  lemma UsedInFront(r: Block, b: seq<Block>)
    requires !r.free
    ensures Used([r] + b) == [r] + Used(b)
    ensures Coalesced(b) ==> Coalesced([r] + b)
  {
    assert ([r] + b)[1..] == b;
    forall k | 0 < k < |[r] + b| && Coalesced(b) ensures !(([r] + b)[k - 1].free && ([r] + b)[k].free) {
      if k > 1 {
        assert !(b[k - 2].free && b[k - 1].free);
      }
    }
  }

  /** Typing the second of the two blocks in the hole as used puts it in order above the first. */
  lemma KeepSecond(m: Memory, s: int, e: int, last: int, a: seq<Block>, c1: Block, c2: Block, b: seq<Block>, fl: seq<int>)
    requires Around(m, s, e, last, a, c1.at, End(c2), b, fl, multiset{}) && Tagged(m, c1) && Tagged(m, c2)
    requires Proper(c1) && Proper(c2) && !c2.free && End(c1) == c2.at
    ensures var m' := m[c2.at + 4 := TYPE_USED];
      && Around(m', s, e, last, a, c1.at, End(c1), [c2] + b, fl, multiset{}) && Tagged(m', c1)
      && LiveKept(m, m', a) && LiveKept(m, m', b)
  {
    var m' := m[c2.at + 4 := TYPE_USED];
    assert SameOutside(m, m', c1.at, End(c2));
    assert Stored(m', c2) && Tagged(m', c1);
    assert multiset{} + Own(c2) == multiset{};
    hide Tags, Tiles, FreeSeq, Chained, Spaced, LiveKept, Around, SameOutside, Stored;
    AroundWrite(m, m', s, e, last, a, c1.at, End(c2), b, fl, multiset{});
    WidenUp(m', s, e, last, a, c1.at, End(c1), c2, b, fl, multiset{});
  }

  /** Memories that read the same at every address are the same heap. */
  lemma ReadsSame(m: Memory, m': Memory, s: int, e: int, last: int, bs: seq<Block>, fl: seq<int>)
    requires WellFormed(m, s, e, last, bs, fl) && forall x :: Rd(m', x) == Rd(m, x)
    ensures WellFormed(m', s, e, last, bs, fl)
  {
    ChainedFrame(m, m', last, fl);
    forall k | 0 <= k < |bs| ensures Tagged(m', bs[k]) {
      assert Tagged(m, bs[k]);
    }
  }

  /** The last write of _kmalloc repeats a type word that is already right. */
  lemma Retype(m: Memory, s: int, e: int, last: int, bs: seq<Block>, fl: seq<int>, a: seq<Block>, c1: Block, r: Block, b: seq<Block>)
    requires WellFormed(m, s, e, last, bs, fl) && bs == Freed(a, c1, [r] + b) && !r.free
    ensures forall x :: Rd(m[r.at + 4 := TYPE_USED], x) == Rd(m, x)
    ensures WellFormed(m[r.at + 4 := TYPE_USED], s, e, last, bs, fl)
  {
    var (a1, c2) := MergedDown(a, c1);
    assert bs == a1 + [c2] + ([r] + b);
    assert bs[|a1| + 1] == r;
    assert Tagged(m, bs[|a1| + 1]) && Rd(m, bs[|a1| + 1].at + 4) == TYPE_USED;
    ReadsSame(m, m[r.at + 4 := TYPE_USED], s, e, last, bs, fl);
  }

  lemma LiveReads(m: Memory, m': Memory, bs: seq<Block>)
    requires forall x :: Rd(m', x) == Rd(m, x)
    ensures LiveKept(m, m', bs)
  {
  }

  /** The tail of _kmalloc when nothing has to be cut off. */
  lemma TypeUsed(m: Memory, s: int, e: int, last: int, a: seq<Block>, c: Block, b: seq<Block>, fl: seq<int>, want: int)
    requires Carved(m, s, e, last, a, c, b, fl, want)
    ensures var m' := m[c.at + 4 := TYPE_USED];
      && WellFormed(m', s, e, last, a + [c] + b, fl) && LiveKept(m, m', a) && LiveKept(m, m', b)
    ensures Used(a + [c] + b) == Used(a) + [c] + Used(b)
  {
    hide Tags, Tiles, FreeSeq, Chained, Spaced, LiveKept, Around, WellFormed, Coalesced, Used;
    TypeWrite(m, s, e, last, a, c, b, fl, TYPE_USED);
    CoalescedUsed(a, c, b);
    Closed(m[c.at + 4 := TYPE_USED], s, e, last, a, c, b, fl);
    UsedAround(a, c, b);
  }

  /** Growing the heap by one block behind the last one. */
  lemma Extend(m: Memory, s: int, e: int, last: int, bs: seq<Block>, fl: seq<int>, size: int)
    requires WellFormed(m, s, e, last, bs, fl) && size >= MIN_SIZE && size % 8 == 0
    ensures var c := Block(e, size, false);
      var m' := SetBlock(m, size, e);
      Carved(m', s, End(c), last, bs, c, [], fl, size) && LiveKept(m, m', bs) && NextBlock(m', e) == End(c)
  {
    var c := Block(e, size, false);
    EndHole(m, s, e, last, bs, fl, End(c));
    hide Tags, Tiles, FreeSeq, Chained, Spaced, Around, WellFormed, Coalesced, LiveKept;
    WellFormedCoalesced(m, s, e, last, bs, fl);
    EmptyCoalesced();
    FillHole(m, s, End(c), last, bs, c, [], fl, multiset{});
  }

  lemma WellFormedCoalesced(m: Memory, s: int, e: int, last: int, bs: seq<Block>, fl: seq<int>)
    requires WellFormed(m, s, e, last, bs, fl)
    ensures Coalesced(bs)
  {
  }

  /** The address space behind the heap, seen as a hole. */
  lemma EndHole(m: Memory, s: int, e: int, last: int, bs: seq<Block>, fl: seq<int>, e': int)
    requires WellFormed(m, s, e, last, bs, fl) && e' >= e && (e' - e) % 8 == 0
    ensures Around(m, s, e', last, bs, e, e', [], fl, multiset{}) && e > 0 && e % 8 == 0
  {
    TilesEnds(bs, s, e);
    hide Tags, Chained, Spaced, Coalesced;
    assert FreeSeq([]) == [];
    EightGap(e, e');
  }

  lemma EightGap(x: int, y: int)
    requires x % 8 == 0 && (y - x) % 8 == 0
    ensures y % 8 == 0
  {
  }

  lemma AlignedResult(h: int)
    requires h % 8 == 0
    ensures var off := AlignmentOffset(h);
      && off % 8 == 0 && (off == 0 || off >= 0x100) && (h + off + HEADER) % PAGE_SIZE == 0 && (h + off + HEADER) % 8 == 0
  {
    OffsetEight(h);
    OffsetAligns(h);
    var off := AlignmentOffset(h);
    hide AlignmentOffset;
    EightSum(h, off);
  }

  lemma EightSum(x: int, y: int)
    requires x % 8 == 0 && y % 8 == 0
    ensures (x + y + HEADER) % 8 == 0 && (x + y) % 8 == 0 && (x + HEADER) % 8 == 0
  {
  }

  /** What the first part of _kmalloc comes to: the first fitting block of the list is cut to size, or, where none fits,
      the heap grows by a block. */
  predicate Obtained(bs: seq<Block>, fl0: seq<int>, end0: int, need: int, align: bool,
                     k: nat, a: seq<Block>, c: Block, b: seq<Block>, fl: seq<int>, end: int) {
    if NoneFit(bs, need, align) then
      a == bs && c == Block(end0, need + Shift(end0, align), false) && b == [] && fl == fl0 && end == End(c)
    else
      && k < |bs| && bs[k].free && Fits(bs[k], need, align) && FirstFitting(bs, fl0, bs[k].at, need, align) && end == end0
      && a == bs[..k] && Cut(bs, fl0, k, need + Shift(bs[k].at, align), c, b, fl)
  }

  /** The first part of _kmalloc: a fitting free block, or a new one at the end of the heap. */
  method Obtain(m0: Memory, start: int, end0: int, last0: int, need: int, align: bool, ghost bs: seq<Block>, ghost fl0: seq<int>)
    returns (m: Memory, end: int, last: int, h: int, off: int,
             ghost k: nat, ghost a: seq<Block>, ghost c: Block, ghost b: seq<Block>, ghost fl: seq<int>)
    requires WellFormed(m0, start, end0, last0, bs, fl0) && need >= MIN_SIZE && need % 8 == 0
    ensures Carved(m, start, end, last, a, c, b, fl, need + off) && h == c.at && off == Shift(h, align)
    ensures Obtained(bs, fl0, end0, need, align, k, a, c, b, fl, end)
    ensures Used(a) + Used(b) == Used(bs) && LiveKept(m0, m, bs)
  {
    hide Tags, Tiles, FreeSeq, Chained, Spaced, LiveKept, Around, WellFormed, Coalesced, Used, Carved, AlignmentOffset, Fits, FirstFitting,
      Cut, NoneFit, Obtained;
    m, last, h, k, c, b, fl := GetFreeBlock(m0, start, end0, last0, need, align, bs, fl0);
    off, end := 0, end0;
    if align {
      off := AlignmentOffset(if h != 0 then h else end);
    }
    if h == 0 {
      var size := need;
      if align && off != 0 {
        size := size + AlignmentOffset(end);
      }
      HeapEnd(m0, start, end, last0, bs, fl0);
      AlignedResult(end);
      EightSum(need, AlignmentOffset(end));
      Extend(m0, start, end, last0, bs, fl0, size);
      a, c, b := bs, Block(end, size, false), [];
      h := end;
      m := SetBlock(m0, size, end);
      end := NextBlock(m, h);
      NoneUsed(Used(bs));
      Missed(bs, fl0, end0, need, align, k, c);
    } else {
      a := bs[..k];
      CutAt(bs, fl0, k, need + off, c, b, fl);
      Hit(bs, fl0, end0, need, align, k, c, b, fl);
    }
  }

  lemma CutAt(bs: seq<Block>, fl0: seq<int>, k: nat, total: int, c: Block, b: seq<Block>, fl: seq<int>)
    requires Cut(bs, fl0, k, total, c, b, fl)
    ensures c.at == bs[k].at
  {
  }

  lemma Missed(bs: seq<Block>, fl: seq<int>, end: int, need: int, align: bool, k: nat, c: Block)
    requires NoneFit(bs, need, align) && c == Block(end, need + Shift(end, align), false)
    ensures Obtained(bs, fl, end, need, align, k, bs, c, [], fl, End(c))
  {
    hide NoneFit;
  }

  lemma Hit(bs: seq<Block>, fl0: seq<int>, end: int, need: int, align: bool, k: nat, c: Block, b: seq<Block>, fl: seq<int>)
    requires k < |bs| && bs[k].free && Fits(bs[k], need, align) && FirstFitting(bs, fl0, bs[k].at, need, align)
    requires Cut(bs, fl0, k, need + Shift(bs[k].at, align), c, b, fl)
    ensures Obtained(bs, fl0, end, need, align, k, bs[..k], c, b, fl, end)
  {
    hide Fits, FirstFitting, Cut;
  }

  /** The free block in front of the one that is handed out, if there is any. */
  function Front(x: int, off: int): (s: seq<Block>) { if off == 0 then [] else [Block(x, off - HEADER - FOOTER, true)] }

  /** What _kmalloc comes to. If some free block fits, the first one in the list is used, from the next page boundary on if
      that is asked for: as many bytes as are needed, or the whole rest of it if what is left is too small; what lies in
      front and behind is free, everything else is as before and the heap does not grow. If none fits, the heap grows by
      exactly the block, and by what lies in front of the page boundary, which is free. */
  predicate Served(bs0: seq<Block>, fl0: seq<int>, end0: int, need: int, align: bool,
                   k: nat, r: Block, bs: seq<Block>, fl: seq<int>, end: int) {
    if NoneFit(bs0, need, align) then
      var off := Shift(end0, align);
      var front := Block(end0, off - HEADER - FOOTER, false);
      && r == Block(end0 + off, need, false) && end == End(r)
      && bs == (if off == 0 then bs0 + [r] else Freed(bs0, front, [r]))
      && fl == (if off == 0 then fl0 else FreedList(bs0, front, [r], fl0))
    else
      && k < |bs0| && bs0[k].free && Fits(bs0[k], need, align) && FirstFitting(bs0, fl0, bs0[k].at, need, align) && end == end0
      && var (x, size, off) := (bs0[k].at, bs0[k].size, Shift(bs0[k].at, align));
      && r == Block(x + off, Taken(size - off, need), false)
      && bs == bs0[..k] + Front(x, off) + [r] + Rest(x + off, size - off, need) + bs0[k + 1..]
      && fl == Place(Front(x, off)) + Place(Rest(x + off, size - off, need)) + Minus(fl0, x)
  }

  /** Nothing had to be cut off in front. */
  lemma ServedWhole(bs0: seq<Block>, fl0: seq<int>, end0: int, need: int, align: bool,
                    k: nat, a: seq<Block>, c: Block, b: seq<Block>, fl: seq<int>, end: int)
    requires Obtained(bs0, fl0, end0, need, align, k, a, c, b, fl, end) && Shift(c.at, align) == 0
    ensures Served(bs0, fl0, end0, need, align, k, c, a + [c] + b, fl, end)
  {
    hide NoneFit, Fits, FirstFitting, AlignmentOffset, Minus, Freed;
  }

  /** The part in front of the page boundary is cut off. */
  lemma ServedFront(bs0: seq<Block>, fl0: seq<int>, end0: int, need: int, align: bool,
                    k: nat, a: seq<Block>, c: Block, b: seq<Block>, fl: seq<int>, end: int)
    requires Obtained(bs0, fl0, end0, need, align, k, a, c, b, fl, end) && Shift(c.at, align) != 0 && Coalesced(bs0)
    ensures var off := Shift(c.at, align);
      var front, r := Block(c.at, off - HEADER - FOOTER, false), Block(c.at + off, c.size - off, false);
      Served(bs0, fl0, end0, need, align, k, r, Freed(a, front, [r] + b), FreedList(a, front, [r] + b, fl), end)
  {
    hide NoneFit, Fits, FirstFitting, Minus, Shift, Freed, FreedList, Rest, Coalesced, Place;
    var off := Shift(c.at, align);
    var front, r := Block(c.at, off - HEADER - FOOTER, false), Block(c.at + off, c.size - off, false);
    if NoneFit(bs0, need, align) {
      assert [r] + b == [r];
    } else {
      BeforeFree(bs0, k);
      var x, size := bs0[k].at, bs0[k].size;
      FreedBetween(a, front, r, b, fl);
      RestBehind(x, size, need, off);
      Regroup(a, front.(free := true), r, Rest(x + off, size - off, need), bs0[k + 1..]);
      PlaceOne(front.(free := true));
      assert [x] + (Place(Rest(x + off, size - off, need)) + Minus(fl0, x)) == [x] + Place(Rest(x + off, size - off, need)) + Minus(fl0, x);
    }
  }

  lemma FreedBetween(a: seq<Block>, front: Block, r: Block, b: seq<Block>, fl: seq<int>)
    requires (|a| > 0 ==> !a[|a| - 1].free) && !r.free
    ensures Freed(a, front, [r] + b) == a + [front.(free := true)] + ([r] + b)
    ensures FreedList(a, front, [r] + b, fl) == [front.at] + fl
  {
  }

  lemma RestBehind(x: int, size: int, need: int, off: int)
    ensures Rest(x + off, size - off, need) == Rest(x, size, need + off) && Taken(size - off, need) == Taken(size, need + off) - off
  {
  }

  lemma Regroup(a: seq<Block>, f: Block, r: Block, rest: seq<Block>, b: seq<Block>)
    ensures a + [f] + ([r] + (rest + b)) == a + [f] + [r] + rest + b
  {
  }

  lemma PlaceOne(c: Block)
    ensures Place([c]) == [c.at]
  {
  }

  /** The test against the limit counts neither the tags of the new block nor what lies in front of the page boundary: a
      request that passes it leaves the heap inside its limit if and only if these fit too. */
  lemma GrowsInside(bs0: seq<Block>, fl0: seq<int>, end0: int, need: int, align: bool, k: nat, r: Block, bs: seq<Block>, fl: seq<int>, end: int,
                    max: int)
    requires Served(bs0, fl0, end0, need, align, k, r, bs, fl, end) && NoneFit(bs0, need, align) && end0 + need < max
    ensures end <= max <==> end0 + Shift(end0, align) + HEADER + need + FOOTER <= max
  {
    hide NoneFit, Freed, FreedList, AlignmentOffset;
  }

  /** Allocating undoes releasing: a block without free neighbours that is released and asked for again is given out again,
      whatever else is free, and the heap and its list are as they were. */
  lemma Reuse(m: Memory, s: int, e: int, last: int, a: seq<Block>, c: Block, b: seq<Block>, fl: seq<int>,
              k: nat, r: Block, bs': seq<Block>, fl': seq<int>, e': int)
    requires !c.free && (|a| > 0 ==> !a[|a| - 1].free) && (|b| > 0 ==> !b[0].free)
    requires WellFormed(m, s, e, last, Freed(a, c, b), FreedList(a, c, b, fl))
    requires Served(Freed(a, c, b), FreedList(a, c, b, fl), e, c.size, false, k, r, bs', fl', e')
    ensures r == c && bs' == a + [c] + b && fl' == fl && e' == e
  {
    var bs := Freed(a, c, b);
    var n := |a|;
    hide Tags, FreeSeq, Chained, Spaced, Coalesced;
    assert bs == a + [c.(free := true)] + b && bs[n] == c.(free := true);
    assert FreedList(a, c, b, fl) == [c.at] + fl;
    assert Fits(bs[n], c.size, false) && !NoneFit(bs, c.size, false);
    FirstListed(bs, [c.at] + fl, bs[k].at, n, c.size, false);
    SameBlock(bs, s, e, k, n);
    hide Tiles, Served, Fits, FirstFitting, NoneFit;
    assert bs[..n] == a && bs[n + 1..] == b;
  }

  /** If the first listed block fits, it is the one. */
  lemma FirstListed(bs: seq<Block>, fl: seq<int>, h: int, n: nat, sz: int, align: bool)
    requires FirstFitting(bs, fl, h, sz, align) && |fl| > 0 && n < |bs| && bs[n].at == fl[0] && Fits(bs[n], sz, align)
    ensures h == fl[0]
  {
  }

  lemma BeforeFree(bs: seq<Block>, k: nat)
    requires Coalesced(bs) && k < |bs| && bs[k].free
    ensures k > 0 ==> !bs[k - 1].free
  {
  }

  /** _kmalloc on the heap with blocks bs0. */
  method Allocate(m0: Memory, start: int, end0: int, last0: int, sz: nat, align: bool, ghost bs0: seq<Block>, ghost fl0: seq<int>)
    returns (m: Memory, end: int, last: int, p: int, ghost bs: seq<Block>, ghost fl: seq<int>, ghost r: Block, ghost n: nat, ghost k: nat)
    requires WellFormed(m0, start, end0, last0, bs0, fl0)
    ensures WellFormed(m, start, end, last, bs, fl)
    ensures p == r.at + HEADER && r.size >= sz && !r.free && p % 8 == 0 && (align ==> p % PAGE_SIZE == 0)
    ensures Served(bs0, fl0, end0, RoundUp(sz), align, k, r, bs, fl, end)
    ensures n <= |Used(bs0)| && Used(bs) == Used(bs0)[..n] + [r] + Used(bs0)[n..]
    ensures LiveKept(m0, m, bs0)
  {
    hide Tags, Tiles, FreeSeq, Chained, Spaced, LiveKept, Around, WellFormed, Coalesced, Used, Carved, AlignmentOffset, Obtained, Served,
      Freed, FreedList;
    var need := RoundUp(sz);
    var h, off;
    ghost var a, c, b;
    m, end, last, h, off, k, a, c, b, fl := Obtain(m0, start, end0, last0, need, align, bs0, fl0);
    ghost var m1 := m;
    CarvedAt(m, start, end, last, a, c, b, fl, need + off);
    WellFormedCoalesced(m0, start, end0, last0, bs0, fl0);
    AlignedResult(h);
    EightSum(h, 0);
    var header := h;
    if align && off != 0 {
      ServedFront(bs0, fl0, end0, need, align, k, a, c, b, fl, end);
      m, last, header, bs, fl, r := CutFront(m, start, end, last, h, off, need, a, c, b, fl);
    } else {
      ServedWhole(bs0, fl0, end0, need, align, k, a, c, b, fl, end);
      TypeUsed(m, start, end, last, a, c, b, fl, need + off);
      m := m[header + 4 := TYPE_USED];
      bs, r := a + [c] + b, c;
    }
    n := |Used(a)|;
    LiveThrough(m0, m1, m, bs0, a, b);
    p := header + HEADER;
    Inserted(Used(a), Used(b), Used(bs0));
  }

  lemma Inserted(a: seq<Block>, b: seq<Block>, s: seq<Block>)
    requires s == a + b
    ensures s[..|a|] == a && s[|a|..] == b
  {
  }

  // ---------------------------------------------------------------- the allocator

  class Heap {
    var mem: Memory
    var lastFree: int
    var allocEnd: int
    const allocStart: int
    const allocMax: int
    ghost var blocks: seq<Block>
    ghost var freeList: seq<int>

    ghost predicate Valid()
      reads this
    {
      WellFormed(mem, allocStart, allocEnd, lastFree, blocks, freeList)
    }

    /** kmalloc_init on the address space from start on. */
    constructor (m: Memory, start: int, pages: nat)
      requires start > 0 && start % PAGE_SIZE == 0
      ensures Valid() && blocks == [] && allocEnd == start && allocMax == start + pages * PAGE_SIZE && mem == m
    {
      mem, lastFree, allocStart, allocEnd, allocMax := m, 0, start, start, start + pages * PAGE_SIZE;
      blocks, freeList := [], [];
      new;
      assert start % 8 == 0 by {
        assert start == 8 * (512 * (start / PAGE_SIZE));
        EightMultiple(512 * (start / PAGE_SIZE));
      }
      assert FreeSeq([]) == [];
    }

    /** _kmalloc: a used block of at least sz bytes is added, from the first fitting free block or at the end of the heap,
        and nothing else changes among the used ones. The source panics if no free block fits and the heap end plus the
        rounded size reaches its limit. */
    method Kmalloc(sz: nat, align: bool) returns (p: int, ghost r: Block, ghost n: nat, ghost k: nat)
      requires Valid()
      requires allocEnd + RoundUp(sz) < allocMax || !NoneFit(blocks, RoundUp(sz), align)
      modifies this
      ensures Valid()
      ensures p == r.at + HEADER && r.size >= sz && !r.free && p % 8 == 0 && (align ==> p % PAGE_SIZE == 0)
      ensures n <= |Used(old(blocks))| && Used(blocks) == Used(old(blocks))[..n] + [r] + Used(old(blocks))[n..]
      ensures Served(old(blocks), old(freeList), old(allocEnd), RoundUp(sz), align, k, r, blocks, freeList, allocEnd)
      ensures LiveKept(old(mem), mem, old(blocks))
    {
      hide WellFormed, LiveKept, Used, Served, NoneFit;
      mem, allocEnd, lastFree, p, blocks, freeList, r, n, k :=
        Allocate(mem, allocStart, allocEnd, lastFree, sz, align, blocks, freeList);
    }

    /** _kfree: releases the block whose payload starts at ptr; the checks of the source leave everything
        unchanged for null, for addresses outside the heap and for free blocks. */
    method Kfree(ptr: int, ghost k: nat)
      requires Valid()
      requires Ignored(ptr) || (k < |blocks| && ptr == blocks[k].at + HEADER)
      modifies this
      ensures Valid() && allocEnd == old(allocEnd)
      ensures old(Ignored(ptr)) || old(blocks)[k].free ==>
        mem == old(mem) && lastFree == old(lastFree) && blocks == old(blocks) && freeList == old(freeList)
      ensures !old(Ignored(ptr)) && !old(blocks)[k].free ==>
        && blocks == Freed(old(blocks)[..k], old(blocks)[k], old(blocks)[k + 1..])
        && freeList == FreedList(old(blocks)[..k], old(blocks)[k], old(blocks)[k + 1..], old(freeList))
        && LiveKept(old(mem), mem, Used(blocks))
    {
      hide Tags, Tiles, FreeSeq, Chained, Spaced, LiveKept, Around, WellFormed, Coalesced, Used, Freed, FreedList;
      if ptr == 0 {
        return;
      }
      var header := ptr - HEADER;
      if header >= allocStart && ptr < allocEnd {
        OpenAt(mem, allocStart, allocEnd, lastFree, blocks, freeList, k);
      }
      if header < allocStart || ptr >= allocEnd || TypeAt(mem, header) == TYPE_FREE {
        return;
      }
      ghost var a, c, b := blocks[..k], blocks[k], blocks[k + 1..];
      ghost var m0 := mem;
      mem, lastFree, freeList := FreeBlock(mem, allocStart, allocEnd, lastFree, header, a, c, b, freeList);
      blocks := Freed(a, c, b);
      FreedUsed(a, c, b);
      LiveUsed(m0, mem, a);
      LiveUsed(m0, mem, b);
      LiveCat(m0, mem, Used(a), Used(b));
    }

    /** A client stores a word in a region it was given: the heap stays well formed, and every other region and block is
        as before. */
    method Store(x: int, value: int, ghost k: nat)
      requires Valid() && k < |blocks| && !blocks[k].free
      requires blocks[k].at + HEADER <= x && x + 4 <= blocks[k].at + HEADER + blocks[k].size
      modifies this`mem
      ensures Valid() && mem == old(mem)[x := value]
      ensures LiveKept(old(mem), mem, blocks[..k]) && LiveKept(old(mem), mem, blocks[k + 1..])
    {
      StoreInside(mem, allocStart, allocEnd, lastFree, blocks, freeList, k, x, value);
      hide WellFormed, LiveKept;
      mem := mem[x := value];
    }

    /** The pointers _kfree rejects by address alone. */
    ghost predicate Ignored(ptr: int)
      reads this
    {
      ptr == 0 || ptr - HEADER < allocStart || ptr >= allocEnd
    }

    /** kmalloc_get_stats. */
    method Stats() returns (total: int, used: int)
      requires Valid()
      ensures total == allocMax - allocStart
      ensures used == FullSum(Used(blocks)) + (HEADER + FOOTER) * |FreeSeq(blocks)|
    {
      hide Tags, Tiles, FreeSeq, Chained, Spaced, WellFormed, Used;
      total := allocMax - allocStart;
      used := allocEnd - allocStart;
      var fb := lastFree;
      ghost var i := 0;
      ListHead(mem, allocStart, allocEnd, lastFree, blocks, freeList);
      ListSizes(mem, allocStart, allocEnd, lastFree, blocks, freeList);
      HeapSum(mem, allocStart, allocEnd, lastFree, blocks, freeList);
      assert freeList[0..] == freeList;
      while fb != 0
        invariant 0 <= i <= |freeList| && fb == Link(freeList, i) && (i < |freeList| ==> fb != 0)
        invariant used == allocEnd - allocStart - FreeBytes(blocks) + SizeSum(mem, freeList[i..])
        decreases |freeList| - i
      {
        ghost var k := ListedBlock(mem, allocStart, allocEnd, lastFree, blocks, freeList, i);
        ListNext(mem, allocStart, allocEnd, lastFree, blocks, freeList, i + 1);
        assert freeList[i..][1..] == freeList[i + 1..];
        used := used - SizeAt(mem, fb - HEADER);
        fb := PrevFree(mem, fb);
        i := i + 1;
      }
    }
  }

  lemma StoreInside(m: Memory, s: int, e: int, last: int, bs: seq<Block>, fl: seq<int>, k: nat, x: int, value: int)
    requires WellFormed(m, s, e, last, bs, fl) && k < |bs| && !bs[k].free
    requires bs[k].at + HEADER <= x && x + 4 <= bs[k].at + HEADER + bs[k].size
    ensures WellFormed(m[x := value], s, e, last, bs, fl)
    ensures LiveKept(m, m[x := value], bs[..k]) && LiveKept(m, m[x := value], bs[k + 1..])
  {
    var m', a, c, b := m[x := value], bs[..k], bs[k], bs[k + 1..];
    SplitAt(bs, k);
    hide Tags, Tiles, FreeSeq, Chained, Spaced, Around, WellFormed, Coalesced, LiveKept;
    Closed(m, s, e, last, a, c, b, fl);
    AroundWrite(m, m', s, e, last, a, c.at, End(c), b, fl, Own(c));
    assert Stored(m', c);
    Closed(m', s, e, last, a, c, b, fl);
  }

  lemma HeapEnd(m: Memory, s: int, e: int, last: int, bs: seq<Block>, fl: seq<int>)
    requires WellFormed(m, s, e, last, bs, fl)
    ensures e % 8 == 0 && e > 0
  {
    TilesEnds(bs, s, e);
  }

  lemma NoneUsed(u: seq<Block>)
    ensures u + Used([]) == u
  {
  }

  lemma CarvedAt(m: Memory, s: int, e: int, last: int, a: seq<Block>, c: Block, b: seq<Block>, fl: seq<int>, want: int)
    requires Carved(m, s, e, last, a, c, b, fl, want)
    ensures c.at % 8 == 0 && c.at > 0 && c.size >= want && !c.free
  {
  }

  lemma SplitAt(bs: seq<Block>, k: nat)
    requires k < |bs|
    ensures bs == bs[..k] + [bs[k]] + bs[k + 1..]
  {
  }

  /** What the heap says of its k-th block. */
  lemma OpenAt(m: Memory, s: int, e: int, last: int, bs: seq<Block>, fl: seq<int>, k: nat)
    requires WellFormed(m, s, e, last, bs, fl) && k < |bs|
    ensures var a, c, b := bs[..k], bs[k], bs[k + 1..];
      && Around(m, s, e, last, a, c.at, End(c), b, fl, Own(c)) && Tagged(m, c) && Proper(c) && TypeAt(m, c.at) == TypeOf(c)
      && Coalesced(a) && Coalesced(b)
  {
    hide Tags, Tiles, FreeSeq, Chained, Spaced, Around, WellFormed, Coalesced;
    SplitAt(bs, k);
    Closed(m, s, e, last, bs[..k], bs[k], bs[k + 1..], fl);
    CoalescedParts(bs[..k], bs[k], bs[k + 1..]);
  }

  /** Releasing a used block takes exactly it away from the used ones. */
  lemma ReleaseUsed(bs: seq<Block>, k: nat)
    requires k < |bs| && !bs[k].free
    ensures var n := |Used(bs[..k])|;
      && n < |Used(bs)| && Used(bs)[n] == bs[k]
      && Used(Freed(bs[..k], bs[k], bs[k + 1..])) == Used(bs)[..n] + Used(bs)[n + 1..]
  {
    hide Used, Freed;
    SplitAt(bs, k);
    UsedAround(bs[..k], bs[k], bs[k + 1..]);
    FreedUsed(bs[..k], bs[k], bs[k + 1..]);
    var a, b := Used(bs[..k]), Used(bs[k + 1..]);
    assert (a + [bs[k]] + b)[..|a|] == a && (a + [bs[k]] + b)[|a| + 1..] == b;
  }

  // ---------------------------------------------------------------- live data

  /** Only used blocks matter for what is kept. */
  lemma {:induction false} LiveUsed(m: Memory, m': Memory, bs: seq<Block>)
    ensures LiveKept(m, m', bs) <==> LiveKept(m, m', Used(bs))
  {
    if |bs| > 0 {
      LiveUsed(m, m', bs[1..]);
      var x := if bs[0].free then [] else [bs[0]];
      LiveCat(m, m', x, Used(bs[1..]));
      LiveCat(m, m', [bs[0]], bs[1..]);
      assert bs == [bs[0]] + bs[1..];
      if bs[0].free {
        LiveFree(m, m', bs[0]);
      }
    }
  }

  lemma LiveFree(m: Memory, m': Memory, c: Block)
    requires c.free
    ensures LiveKept(m, m', [c]) && LiveKept(m, m', [])
  {
  }

  lemma LiveCat(m: Memory, m': Memory, a: seq<Block>, b: seq<Block>)
    ensures LiveKept(m, m', a + b) <==> LiveKept(m, m', a) && LiveKept(m, m', b)
  {
    if LiveKept(m, m', a + b) {
      LiveParts(m, m', a, b);
    }
  }

  lemma LiveThrough(m0: Memory, m1: Memory, m2: Memory, bs: seq<Block>, a: seq<Block>, b: seq<Block>)
    requires LiveKept(m0, m1, bs) && LiveKept(m1, m2, a) && LiveKept(m1, m2, b) && Used(bs) == Used(a) + Used(b)
    ensures LiveKept(m0, m2, bs)
  {
    hide LiveKept, Used;
    LiveUsed(m1, m2, a);
    LiveUsed(m1, m2, b);
    LiveCat(m1, m2, Used(a), Used(b));
    LiveUsed(m1, m2, bs);
    LiveTrans(m0, m1, m2, bs);
  }

  // ---------------------------------------------------------------- what a well-formed heap means

  /** PREV_BLOCK inverts NEXT_BLOCK at every block. */
  lemma PrevInvertsNext(m: Memory, s: int, e: int, last: int, bs: seq<Block>, fl: seq<int>, k: nat)
    requires WellFormed(m, s, e, last, bs, fl) && k < |bs|
    ensures PrevBlock(m, NextBlock(m, bs[k].at)) == bs[k].at
    ensures NextBlock(m, bs[k].at) == if k + 1 < |bs| then bs[k + 1].at else e
  {
    assert Tagged(m, bs[k]);
    SplitAt(bs, k);
    TilesCat(bs[..k] + [bs[k]], bs[k + 1..], s, e);
    assert EndOf(bs[..k] + [bs[k]], s) == End(bs[k]);
  }

  /** The regions handed out do not overlap and lie inside the heap. */
  lemma LiveApart(m: Memory, s: int, e: int, last: int, bs: seq<Block>, fl: seq<int>, i: nat, j: nat)
    requires WellFormed(m, s, e, last, bs, fl) && i < j < |Used(bs)|
    ensures s <= Used(bs)[i].at && End(Used(bs)[i]) <= Used(bs)[j].at && End(Used(bs)[j]) <= e
  {
    UsedApart(bs, s, e, i, j);
  }

  lemma {:induction false} UsedApart(bs: seq<Block>, s: int, e: int, i: nat, j: nat)
    requires Tiles(bs, s, e) && i < j < |Used(bs)|
    ensures s <= Used(bs)[i].at && End(Used(bs)[i]) <= Used(bs)[j].at && End(Used(bs)[j]) <= e
  {
    var rest := Used(bs[1..]);
    if bs[0].free {
      UsedApart(bs[1..], End(bs[0]), e, i, j);
    } else if i > 0 {
      assert Used(bs)[i] == rest[i - 1] && Used(bs)[j] == rest[j - 1];
      UsedApart(bs[1..], End(bs[0]), e, i - 1, j - 1);
    } else {
      assert Used(bs)[j] == rest[j - 1];
      UsedIn(bs[1..], End(bs[0]), e, j - 1);
    }
  }

  lemma {:induction false} UsedIn(bs: seq<Block>, s: int, e: int, j: nat)
    requires Tiles(bs, s, e) && j < |Used(bs)|
    ensures s <= Used(bs)[j].at && End(Used(bs)[j]) <= e
  {
    if !bs[0].free && j == 0 {
      TilesEnds(bs[1..], End(bs[0]), e);
    } else {
      UsedIn(bs[1..], End(bs[0]), e, if bs[0].free then j else j - 1);
    }
  }

  // ---------------------------------------------------------------- statistics

  function FullSum(bs: seq<Block>): int {
    if |bs| == 0 then 0 else bs[0].size + HEADER + FOOTER + FullSum(bs[1..])
  }

  /** The payload bytes of the free blocks. */
  function FreeBytes(bs: seq<Block>): int {
    if |bs| == 0 then 0 else (if bs[0].free then bs[0].size else 0) + FreeBytes(bs[1..])
  }

  function SizeSum(m: Memory, fl: seq<int>): int {
    if |fl| == 0 then 0 else SizeAt(m, fl[0]) + SizeSum(m, fl[1..])
  }

  /** The heap is the full sizes of its used blocks plus payload and overhead of its free ones. */
  lemma {:induction false} TilesSum(bs: seq<Block>, s: int, e: int)
    requires Tiles(bs, s, e)
    ensures e - s == FullSum(Used(bs)) + (HEADER + FOOTER) * |FreeSeq(bs)| + FreeBytes(bs)
  {
    if |bs| > 0 {
      TilesSum(bs[1..], End(bs[0]), e);
      if bs[0].free {
        assert Used(bs) == Used(bs[1..]);
      } else {
        assert Used(bs)[1..] == Used(bs[1..]);
        assert FreeSeq(bs) == FreeSeq(bs[1..]);
      }
    }
  }

  lemma HeapSum(m: Memory, s: int, e: int, last: int, bs: seq<Block>, fl: seq<int>)
    requires WellFormed(m, s, e, last, bs, fl)
    ensures e - s == FullSum(Used(bs)) + (HEADER + FOOTER) * |FreeSeq(bs)| + FreeBytes(bs)
  {
    TilesSum(bs, s, e);
  }

  /** Summing along the list is summing over the free blocks. */
  lemma ListSizes(m: Memory, s: int, e: int, last: int, bs: seq<Block>, fl: seq<int>)
    requires WellFormed(m, s, e, last, bs, fl)
    ensures SizeSum(m, fl) == FreeBytes(bs)
  {
    SumPermuted(m, fl, FreeSeq(bs));
    FreeSizes(m, bs);
  }

  lemma {:induction false} FreeSizes(m: Memory, bs: seq<Block>)
    requires Tags(m, bs)
    ensures SizeSum(m, FreeSeq(bs)) == FreeBytes(bs)
  {
    if |bs| > 0 {
      assert Tagged(m, bs[0]);
      forall k | 0 <= k < |bs[1..]| ensures Tagged(m, bs[1..][k]) && Rd(m, bs[1..][k].at + 4) == TypeOf(bs[1..][k]) {
        assert bs[1..][k] == bs[k + 1];
      }
      FreeSizes(m, bs[1..]);
      if bs[0].free {
        assert FreeSeq(bs)[1..] == FreeSeq(bs[1..]);
      } else {
        assert FreeSeq(bs) == FreeSeq(bs[1..]);
      }
    }
  }

  lemma {:induction false} SumPermuted(m: Memory, a: seq<int>, b: seq<int>)
    requires multiset(a) == multiset(b)
    ensures SizeSum(m, a) == SizeSum(m, b)
    decreases |a|
  {
    SameLength(a, b);
    if |a| > 0 {
      hide SizeSum;
      var i := BagIndex(a, b);
      WithoutBag(b, i);
      WithoutBag(a, 0);
      SumPermuted(m, Without(a, 0), Without(b, i));
      SumWithout(m, b, i);
      SumWithout(m, a, 0);
    }
  }

  lemma SameLength(a: seq<int>, b: seq<int>)
    requires multiset(a) == multiset(b)
    ensures |a| == |b|
  {
    assert |multiset(a)| == |a| && |multiset(b)| == |b|;
  }

  lemma BagIndex(a: seq<int>, b: seq<int>) returns (i: nat)
    requires multiset(a) == multiset(b) && |a| > 0
    ensures i < |b| && b[i] == a[0]
  {
    assert a[0] in multiset(b);
    i :| 0 <= i < |b| && b[i] == a[0];
  }

  lemma {:induction false} SumWithout(m: Memory, b: seq<int>, i: nat)
    requires i < |b|
    ensures SizeSum(m, b) == SizeAt(m, b[i]) + SizeSum(m, Without(b, i))
  {
    if i == 0 {
      assert b[..0] + b[1..] == b[1..];
    } else {
      SumWithout(m, b[1..], i - 1);
      var b' := b[..i] + b[i + 1..];
      assert b'[0] == b[0] && b'[1..] == b[1..][..i - 1] + b[1..][i..];
    }
  }
}
