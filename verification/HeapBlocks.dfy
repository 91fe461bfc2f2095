/** The kernel heap of src/mem/kmalloc.c at address level: boundary-tagged blocks that tile the heap, and
    the doubly linked free list threaded through the payloads of the free ones. */
module HeapBlocks {

  /** Memory in words of four bytes, by the address of their first byte; a word never written reads as 0. */
  type Memory = map<int, int>

  function Rd(m: Memory, a: int): int { if a in m then m[a] else 0 }

  // Sizes of struct mem_block, struct footer and struct free_block, each aligned to 8.
  const HEADER := 8
  const FOOTER := 8
  const MIN_SIZE := 8

  const TYPE_USED := 0
  const TYPE_FREE := 1

  /** A block: the address of its header, the size of its payload, and whether it is free. */
  datatype Block = Block(at: int, size: int, free: bool)

  /** NEXT_BLOCK: the first address behind the footer. */
  function End(b: Block): int { b.at + HEADER + b.size + FOOTER }

  function TypeOf(b: Block): int { if b.free then TYPE_FREE else TYPE_USED }

  // Fields of a block in memory.
  function SizeAt(m: Memory, h: int): int { Rd(m, h) }
  function TypeAt(m: Memory, h: int): int { Rd(m, h + 4) }
  function FooterAddr(m: Memory, h: int): int { h + SizeAt(m, h) + HEADER }
  function NextBlock(m: Memory, h: int): int { FooterAddr(m, h) + FOOTER }
  function PrevBlock(m: Memory, h: int): int { h - FOOTER - Rd(m, h - FOOTER) - HEADER }
  function FullSize(m: Memory, h: int): int { SizeAt(m, h) + FOOTER + HEADER }
  // Fields of the struct free_block at fb.
  function PrevFree(m: Memory, fb: int): int { Rd(m, fb) }
  function NextFree(m: Memory, fb: int): int { Rd(m, fb + 4) }

  /** set_block: the size goes into the header and into the footer the header now points to. */
  function SetBlock(m: Memory, sz: int, h: int): Memory { m[h := sz][h + sz + HEADER := sz] }

  // ---------------------------------------------------------------- tiling

  /** The blocks lie one behind the other from s to e, sizes and addresses multiples of 8. */
  predicate Tiles(bs: seq<Block>, s: int, e: int) {
    s > 0 && s % 8 == 0 &&
    if |bs| == 0 then s == e else
      bs[0].at == s && bs[0].size >= MIN_SIZE && bs[0].size % 8 == 0 && Tiles(bs[1..], End(bs[0]), e)
  }

  /** Where blocks that start at s end. */
  function EndOf(bs: seq<Block>, s: int): int { if |bs| == 0 then s else End(bs[|bs| - 1]) }

  lemma {:induction false} TilesCat(a: seq<Block>, b: seq<Block>, s: int, e: int)
    ensures Tiles(a + b, s, e) <==> Tiles(a, s, EndOf(a, s)) && Tiles(b, EndOf(a, s), e)
    decreases |a|
  {
    if |a| == 0 {
      assert a + b == b;
    } else {
      TilesCat(a[1..], b, End(a[0]), e);
      assert (a + b)[1..] == a[1..] + b;
      assert EndOf(a[1..], End(a[0])) == EndOf(a, s);
    }
  }

  lemma {:induction false} TilesIn(bs: seq<Block>, s: int, e: int, k: nat)
    requires Tiles(bs, s, e) && k < |bs|
    ensures s <= bs[k].at && End(bs[k]) <= e && bs[k].at % 8 == 0 && bs[k].size % 8 == 0 && bs[k].size >= MIN_SIZE
    ensures k > 0 ==> End(bs[0]) <= bs[k].at
  {
    if k > 0 {
      TilesIn(bs[1..], End(bs[0]), e, k - 1);
    } else {
      TilesEnds(bs[1..], End(bs[0]), e);
    }
  }

  lemma {:induction false} TilesEnds(bs: seq<Block>, s: int, e: int)
    requires Tiles(bs, s, e)
    ensures s <= e && e == EndOf(bs, s) && e % 8 == 0
  {
    if |bs| > 0 {
      TilesEnds(bs[1..], End(bs[0]), e);
    }
  }

  /** Earlier blocks end before later ones start. */
  lemma {:induction false} TilesOrder(bs: seq<Block>, s: int, e: int, i: nat, j: nat)
    requires Tiles(bs, s, e) && i < j < |bs|
    ensures End(bs[i]) <= bs[j].at
  {
    if i > 0 {
      TilesOrder(bs[1..], End(bs[0]), e, i - 1, j - 1);
    } else {
      TilesIn(bs, s, e, j);
    }
  }

  /** Header and footer of b hold its size. */
  predicate Tagged(m: Memory, b: Block) {
    Rd(m, b.at) == b.size && Rd(m, b.at + HEADER + b.size) == b.size
  }

  /** Every block is tagged and typed in memory. */
  predicate Tags(m: Memory, bs: seq<Block>) {
    forall k :: 0 <= k < |bs| ==> Tagged(m, bs[k]) && Rd(m, bs[k].at + 4) == TypeOf(bs[k])
  }

  /** No two neighbours are both free. */
  predicate Coalesced(bs: seq<Block>) {
    forall k :: 0 < k < |bs| ==> !(bs[k - 1].free && bs[k].free)
  }

  /** The addresses of the free blocks, in address order. */
  function FreeSeq(bs: seq<Block>): seq<int> {
    if |bs| == 0 then [] else (if bs[0].free then [bs[0].at] else []) + FreeSeq(bs[1..])
  }

  lemma {:induction false} FreeSeqCat(a: seq<Block>, b: seq<Block>)
    ensures FreeSeq(a + b) == FreeSeq(a) + FreeSeq(b)
  {
    if |a| == 0 {
      assert a + b == b;
    } else {
      FreeSeqCat(a[1..], b);
      assert (a + b)[1..] == a[1..] + b;
      assert (a + b)[0] == a[0];
      var x := if a[0].free then [a[0].at] else [];
      assert x + (FreeSeq(a[1..]) + FreeSeq(b)) == (x + FreeSeq(a[1..])) + FreeSeq(b);
    }
  }

  lemma {:induction false} FreeSeqIndex(bs: seq<Block>, a: int) returns (k: nat)
    requires a in FreeSeq(bs)
    ensures k < |bs| && bs[k].free && bs[k].at == a
  {
    if bs[0].free && bs[0].at == a {
      k := 0;
    } else {
      k := FreeSeqIndex(bs[1..], a);
      k := k + 1;
    }
  }

  lemma {:induction false} IndexFreeSeq(bs: seq<Block>, k: nat)
    requires k < |bs| && bs[k].free
    ensures bs[k].at in FreeSeq(bs)
  {
    if k > 0 {
      IndexFreeSeq(bs[1..], k - 1);
    }
  }

  // ---------------------------------------------------------------- free list

  /** The struct free_block address of the i-th listed block; null outside the list. */
  function Link(fl: seq<int>, i: int): int { if 0 <= i < |fl| then fl[i] + HEADER else 0 }

  /** The links of the i-th listed block: prev leads to the next one down, next to the one above. */
  predicate Linked(m: Memory, fl: seq<int>, i: nat)
    requires i < |fl|
  {
    Rd(m, fl[i] + HEADER) == Link(fl, i + 1) && Rd(m, fl[i] + HEADER + 4) == Link(fl, i - 1)
  }

  /** Following prev from last gives the blocks of fl in order, and next leads back. */
  predicate Chained(m: Memory, last: int, fl: seq<int>) {
    last == Link(fl, 0) && forall i :: 0 <= i < |fl| ==> Linked(m, fl, i)
  }

  /** The listed blocks are distinct, not null, and far enough apart not to share words. */
  predicate Spaced(fl: seq<int>) {
    && (forall i :: 0 <= i < |fl| ==> fl[i] > 0)
    && (forall i, j :: 0 <= i < |fl| && 0 <= j < |fl| && i != j ==> fl[i] + 24 <= fl[j] || fl[j] + 24 <= fl[i])
  }

  function Without(fl: seq<int>, i: nat): seq<int>
    requires i < |fl|
  {
    fl[..i] + fl[i + 1..]
  }

  /** unlink_free_block on the struct at fb: memory and the new last_free. */
  function Unlink(m: Memory, last: int, fb: int): (Memory, int) {
    var p, n := PrevFree(m, fb), NextFree(m, fb);
    var m1 := if n != 0 then m[n := p] else m;
    var m2 := if Rd(m1, fb) != 0 then m1[Rd(m1, fb) + 4 := Rd(m1, fb + 4)] else m1;
    (m2, if fb == last then Rd(m2, fb) else last)
  }

  lemma SpacedAt(fl: seq<int>, i: nat, j: nat)
    requires Spaced(fl) && i < |fl| && j < |fl|
    ensures fl[i] > 0 && (i != j ==> fl[i] + 24 <= fl[j] || fl[j] + 24 <= fl[i])
  {
  }

  /** What any word reads after Unlink: the links of the two list neighbours change. */
  lemma UnlinkRead(m: Memory, last: int, fl: seq<int>, i: nat, a: int)
    requires Chained(m, last, fl) && Spaced(fl) && i < |fl|
    ensures var (m', last') := Unlink(m, last, fl[i] + HEADER);
      && last' == (if i == 0 then Link(fl, 1) else last)
      && Rd(m', a) == (if i > 0 && a == fl[i - 1] + HEADER then Link(fl, i + 1)
                       else if i + 1 < |fl| && a == fl[i + 1] + HEADER + 4 then Link(fl, i - 1)
                       else Rd(m, a))
  {
    assert Linked(m, fl, i);
    if i > 0 {
      SpacedAt(fl, i - 1, i);
      SpacedAt(fl, 0, i);
      if i + 1 < |fl| {
        SpacedAt(fl, i - 1, i + 1);
      }
    }
    if i + 1 < |fl| {
      SpacedAt(fl, i + 1, i);
    }
    hide Spaced, Chained;
  }

  /** Unlinking drops exactly that block from the list. */
  lemma UnlinkChained(m: Memory, last: int, fl: seq<int>, i: nat)
    requires Chained(m, last, fl) && Spaced(fl) && i < |fl|
    ensures var (m', last') := Unlink(m, last, fl[i] + HEADER);
      Chained(m', last', Without(fl, i)) && Spaced(Without(fl, i))
  {
    var fl' := Without(fl, i);
    var (m', last') := Unlink(m, last, fl[i] + HEADER);
    hide Unlink, Linked;
    UnlinkRead(m, last, fl, i, 0);
    forall j | 0 <= j < |fl'| ensures Linked(m', fl', j) {
      UnlinkNode(m, last, fl, i, j);
    }
    WithoutSpaced(fl, i);
  }

  lemma WithoutSpaced(fl: seq<int>, i: nat)
    requires Spaced(fl) && i < |fl|
    ensures Spaced(Without(fl, i))
  {
    var fl' := Without(fl, i);
    assert forall j :: 0 <= j < |fl'| ==> fl'[j] == fl[if j < i then j else j + 1];
  }

  lemma UnlinkNode(m: Memory, last: int, fl: seq<int>, i: nat, j: nat)
    requires Chained(m, last, fl) && Spaced(fl) && i < |fl| && j < |fl| - 1
    ensures Linked(Unlink(m, last, fl[i] + HEADER).0, Without(fl, i), j)
  {
    hide Unlink, Spaced, Chained;
    var o: nat := if j < i then j else j + 1;
    assert Without(fl, i)[j] == fl[o];
    ChainedAt(m, last, fl, o);
    UnlinkRead(m, last, fl, i, fl[o] + HEADER);
    UnlinkRead(m, last, fl, i, fl[o] + HEADER + 4);
    if i > 0 {
      SpacedAt(fl, i - 1, o);
    }
    if i + 1 < |fl| {
      SpacedAt(fl, i + 1, o);
    }
  }

  lemma ChainedAt(m: Memory, last: int, fl: seq<int>, i: nat)
    requires Chained(m, last, fl) && i < |fl|
    ensures Linked(m, fl, i)
  {
  }

  /** The list words written when a free block is added in front. */
  function Push(m: Memory, last: int, h: int): Memory {
    var fb := h + HEADER;
    var m1 := m[fb := last][fb + 4 := 0];
    if last != 0 then m1[last + 4 := fb] else m1
  }

  lemma PushChained(m: Memory, last: int, fl: seq<int>, h: int)
    requires Chained(m, last, fl) && Spaced([h] + fl)
    ensures Chained(Push(m, last, h), h + HEADER, [h] + fl)
  {
    hide Push, Linked, Spaced;
    forall i | 0 <= i < |fl| + 1 ensures Linked(Push(m, last, h), [h] + fl, i) {
      PushNode(m, last, fl, h, i);
    }
  }

  lemma PushNode(m: Memory, last: int, fl: seq<int>, h: int, i: nat)
    requires Chained(m, last, fl) && Spaced([h] + fl) && i <= |fl|
    ensures Linked(Push(m, last, h), [h] + fl, i)
  {
    var fl' := [h] + fl;
    SpacedAt(fl', 0, i);
    if |fl| > 0 {
      SpacedAt(fl', 1, i);
      SpacedAt(fl', 0, 1);
    }
    if i > 0 {
      assert Linked(m, fl, i - 1);
    }
    hide Spaced, Chained;
  }

  /** The list depends on the links only. */
  lemma ChainedFrame(m: Memory, m': Memory, last: int, fl: seq<int>)
    requires Chained(m, last, fl)
    requires forall i :: 0 <= i < |fl| ==>
      Rd(m', fl[i] + HEADER) == Rd(m, fl[i] + HEADER) && Rd(m', fl[i] + HEADER + 4) == Rd(m, fl[i] + HEADER + 4)
    ensures Chained(m', last, fl)
  {
    forall i | 0 <= i < |fl| ensures Linked(m', fl, i) {
      assert Linked(m, fl, i);
    }
  }

  // ---------------------------------------------------------------- the heap around a hole

  /** The heap from s to e apart from [lo, hi): blocks a before it and b behind it are in order, and the free
      list holds their free blocks and, inside the hole, those at own. */
  predicate Around(m: Memory, s: int, e: int, last: int, a: seq<Block>, lo: int, hi: int, b: seq<Block>,
                   fl: seq<int>, own: multiset<int>) {
    && Tiles(a, s, lo) && Tiles(b, hi, e) && Tags(m, a) && Tags(m, b)
    && Chained(m, last, fl) && Spaced(fl)
    && multiset(fl) == multiset(FreeSeq(a)) + own + multiset(FreeSeq(b))
  }

  /** The heap is well formed. */
  predicate WellFormed(m: Memory, s: int, e: int, last: int, bs: seq<Block>, fl: seq<int>) {
    && Tiles(bs, s, e) && Tags(m, bs) && Coalesced(bs)
    && Chained(m, last, fl) && Spaced(fl) && multiset(fl) == multiset(FreeSeq(bs))
  }

  /** Every word of four bytes that reaches into the payload of a used block of bs reads the same, wherever it starts:
      no byte of a payload changes. */
  ghost predicate LiveKept(m: Memory, m': Memory, bs: seq<Block>) {
    forall k, x :: 0 <= k < |bs| && !bs[k].free && bs[k].at + HEADER - 3 <= x < bs[k].at + HEADER + bs[k].size ==>
      Rd(m', x) == Rd(m, x)
  }

  ghost predicate SameOutside(m: Memory, m': Memory, lo: int, hi: int) {
    forall x :: !(lo <= x < hi) ==> Rd(m', x) == Rd(m, x)
  }

  /** A listed block is a free block of a or b, or one of the hole's own. */
  lemma ListedWhere(m: Memory, s: int, e: int, last: int, a: seq<Block>, lo: int, hi: int, b: seq<Block>,
                    fl: seq<int>, own: multiset<int>, i: nat)
    requires Around(m, s, e, last, a, lo, hi, b, fl, own) && i < |fl|
    ensures fl[i] in own || (s <= fl[i] && fl[i] + 24 <= lo) || (hi <= fl[i] && fl[i] + 24 <= e)
  {
    assert fl[i] in multiset(fl);
    if fl[i] !in own {
      if fl[i] in FreeSeq(a) {
        var k := FreeSeqIndex(a, fl[i]);
        TilesIn(a, s, lo, k);
      } else {
        var k := FreeSeqIndex(b, fl[i]);
        TilesIn(b, hi, e, k);
      }
    }
  }

  lemma TagsBelow(m: Memory, m': Memory, bs: seq<Block>, s: int, e: int)
    requires Tiles(bs, s, e) && forall x :: s <= x < e ==> Rd(m', x) == Rd(m, x)
    ensures Tags(m, bs) ==> Tags(m', bs)
    ensures LiveKept(m, m', bs)
  {
    forall k | 0 <= k < |bs| ensures s <= bs[k].at && End(bs[k]) <= e && bs[k].size >= MIN_SIZE {
      TilesIn(bs, s, e, k);
    }
  }

  /** Writes inside the hole that spare the links of its own listed blocks. */
  lemma AroundWrite(m: Memory, m': Memory, s: int, e: int, last: int, a: seq<Block>, lo: int, hi: int, b: seq<Block>,
                    fl: seq<int>, own: multiset<int>)
    requires Around(m, s, e, last, a, lo, hi, b, fl, own) && SameOutside(m, m', lo, hi) && lo <= hi
    requires forall x :: x in own ==>
      Rd(m', x + HEADER) == Rd(m, x + HEADER) && Rd(m', x + HEADER + 4) == Rd(m, x + HEADER + 4)
    ensures Around(m', s, e, last, a, lo, hi, b, fl, own)
    ensures LiveKept(m, m', a) && LiveKept(m, m', b)
  {
    TilesEnds(a, s, lo);
    TilesEnds(b, hi, e);
    TagsBelow(m, m', a, s, lo);
    TagsBelow(m, m', b, hi, e);
    hide Tags, LiveKept, Spaced, Tiles;
    forall i | 0 <= i < |fl|
      ensures Rd(m', fl[i] + HEADER) == Rd(m, fl[i] + HEADER) && Rd(m', fl[i] + HEADER + 4) == Rd(m, fl[i] + HEADER + 4)
    {
      ListedWhere(m, s, e, last, a, lo, hi, b, fl, own, i);
    }
    ChainedFrame(m, m', last, fl);
  }

  /** The link words of a free block are neither tags of any block nor payload of a used one. */
  lemma LinkWordSafe(m: Memory, bs: seq<Block>, s: int, e: int, f: int, x: int, v: int)
    requires Tiles(bs, s, e) && Tags(m, bs)
    requires f in FreeSeq(bs) || f + 24 <= s || e <= f
    requires x == f + HEADER || x == f + HEADER + 4
    ensures Tags(m[x := v], bs) && LiveKept(m, m[x := v], bs)
  {
    forall j | 0 <= j < |bs| ensures
      && !(x == bs[j].at || x == bs[j].at + 4 || x == bs[j].at + HEADER + bs[j].size)
      && (!bs[j].free ==> !(bs[j].at + HEADER - 3 <= x < bs[j].at + HEADER + bs[j].size))
    {
      TilesIn(bs, s, e, j);
      if f in FreeSeq(bs) {
        var k := FreeSeqIndex(bs, f);
        TilesIn(bs, s, e, k);
        if j < k {
          TilesOrder(bs, s, e, j, k);
        } else if k < j {
          TilesOrder(bs, s, e, k, j);
        }
      }
    }
    forall j | 0 <= j < |bs| ensures Tagged(m[x := v], bs[j]) && Rd(m[x := v], bs[j].at + 4) == TypeOf(bs[j]) {
      assert Tagged(m, bs[j]);
    }
  }

  /** Writing a link of a listed block keeps the tags and the live data around the hole. */
  lemma AroundLink(m: Memory, a: seq<Block>, b: seq<Block>, s: int, lo: int, hi: int, e: int, f: int, x: int, v: int)
    requires Tiles(a, s, lo) && Tiles(b, hi, e) && Tags(m, a) && Tags(m, b) && lo <= hi
    requires f in FreeSeq(a) || f in FreeSeq(b) || (lo <= f && f + 24 <= hi)
    requires x == f + HEADER || x == f + HEADER + 4
    ensures var m' := m[x := v]; Tags(m', a) && Tags(m', b) && LiveKept(m, m', a) && LiveKept(m, m', b)
  {
    TilesEnds(a, s, lo);
    TilesEnds(b, hi, e);
    if f in FreeSeq(a) {
      var k := FreeSeqIndex(a, f);
      TilesIn(a, s, lo, k);
    } else if f in FreeSeq(b) {
      var k := FreeSeqIndex(b, f);
      TilesIn(b, hi, e, k);
    }
    hide Tiles, Tags, LiveKept;
    LinkWordSafe(m, a, s, lo, f, x, v);
    LinkWordSafe(m, b, hi, e, f, x, v);
  }

  /** Where a listed block may be: its membership, for the lemma above. */
  predicate OwnInside(own: multiset<int>, lo: int, hi: int) {
    forall f :: f in own ==> lo <= f && f + 24 <= hi
  }

  lemma ListedSafe(a: seq<Block>, b: seq<Block>, lo: int, hi: int, fl: seq<int>, own: multiset<int>, i: nat)
    requires multiset(fl) == multiset(FreeSeq(a)) + own + multiset(FreeSeq(b)) && OwnInside(own, lo, hi) && i < |fl|
    ensures fl[i] in FreeSeq(a) || fl[i] in FreeSeq(b) || (lo <= fl[i] && fl[i] + 24 <= hi)
  {
    assert fl[i] in multiset(fl);
  }

  lemma LiveTrans(m0: Memory, m1: Memory, m2: Memory, bs: seq<Block>)
    requires LiveKept(m0, m1, bs) && LiveKept(m1, m2, bs)
    ensures LiveKept(m0, m2, bs)
  {
  }

  /** The two writes of unlink_free_block. */
  function UnlinkFirst(m: Memory, fl: seq<int>, i: nat): Memory
    requires i < |fl|
  {
    if i > 0 then m[fl[i - 1] + HEADER := Link(fl, i + 1)] else m
  }

  function UnlinkBoth(m: Memory, fl: seq<int>, i: nat): Memory
    requires i < |fl|
  {
    var m1 := UnlinkFirst(m, fl, i);
    if i + 1 < |fl| then m1[fl[i + 1] + HEADER + 4 := Link(fl, i - 1)] else m1
  }

  lemma UnlinkSteps(m: Memory, last: int, fl: seq<int>, i: nat)
    requires Chained(m, last, fl) && Spaced(fl) && i < |fl|
    ensures Unlink(m, last, fl[i] + HEADER).0 == UnlinkBoth(m, fl, i)
  {
    assert Linked(m, fl, i);
    if i > 0 {
      SpacedAt(fl, i - 1, i);
    }
    if i + 1 < |fl| {
      SpacedAt(fl, i + 1, i);
    }
    hide Chained, Spaced;
  }

  lemma UnlinkTags(m: Memory, s: int, e: int, a: seq<Block>, lo: int, hi: int, b: seq<Block>,
                   fl: seq<int>, own: multiset<int>, i: nat)
    requires Tiles(a, s, lo) && Tiles(b, hi, e) && Tags(m, a) && Tags(m, b) && lo <= hi && i < |fl|
    requires multiset(fl) == multiset(FreeSeq(a)) + own + multiset(FreeSeq(b)) && OwnInside(own, lo, hi)
    ensures var m' := UnlinkBoth(m, fl, i); Tags(m', a) && Tags(m', b) && LiveKept(m, m', a) && LiveKept(m, m', b)
  {
    hide Tags, Tiles, LiveKept, OwnInside, FreeSeq, Link;
    var m1, m' := UnlinkFirst(m, fl, i), UnlinkBoth(m, fl, i);
    LiveSame(m, a);
    LiveSame(m, b);
    if i > 0 {
      ListedSafe(a, b, lo, hi, fl, own, i - 1);
      AroundLink(m, a, b, s, lo, hi, e, fl[i - 1], fl[i - 1] + HEADER, Link(fl, i + 1));
    }
    if i + 1 < |fl| {
      ListedSafe(a, b, lo, hi, fl, own, i + 1);
      AroundLink(m1, a, b, s, lo, hi, e, fl[i + 1], fl[i + 1] + HEADER + 4, Link(fl, i - 1));
      LiveTrans(m, m1, m', a);
      LiveTrans(m, m1, m', b);
    }
  }

  /** unlink_free_block on a block inside the hole. */
  lemma AroundUnlink(m: Memory, s: int, e: int, last: int, a: seq<Block>, lo: int, hi: int, b: seq<Block>,
                     fl: seq<int>, own: multiset<int>, i: nat)
    requires Around(m, s, e, last, a, lo, hi, b, fl, own) && OwnInside(own, lo, hi) && lo <= hi && i < |fl| && fl[i] in own
    ensures var (m', last') := Unlink(m, last, fl[i] + HEADER);
      && Around(m', s, e, last', a, lo, hi, b, Without(fl, i), own - multiset{fl[i]})
      && LiveKept(m, m', a) && LiveKept(m, m', b)
  {
    hide Tags, Tiles, LiveKept, OwnInside, FreeSeq, Chained, Spaced, Unlink, UnlinkBoth, Without;
    UnlinkChained(m, last, fl, i);
    UnlinkSteps(m, last, fl, i);
    UnlinkTags(m, s, e, a, lo, hi, b, fl, own, i);
    WithoutBag(fl, i);
  }

  lemma LiveSame(m: Memory, bs: seq<Block>)
    ensures LiveKept(m, m, bs)
  {
  }

  lemma WithoutBag(fl: seq<int>, i: nat)
    requires i < |fl|
    ensures multiset(Without(fl, i)) == multiset(fl) - multiset{fl[i]}
  {
    assert fl == fl[..i] + [fl[i]] + fl[i + 1..];
  }

  /** Adding a free block inside the hole to the front of the list. */
  lemma AroundPush(m: Memory, s: int, e: int, last: int, a: seq<Block>, lo: int, hi: int, b: seq<Block>, fl: seq<int>, h: int)
    requires Around(m, s, e, last, a, lo, hi, b, fl, multiset{}) && lo <= h && h + 24 <= hi && lo > 0
    ensures var m' := Push(m, last, h);
      && Around(m', s, e, h + HEADER, a, lo, hi, b, [h] + fl, multiset{h})
      && LiveKept(m, m', a) && LiveKept(m, m', b)
  {
    hide Tags, Tiles, LiveKept, FreeSeq, Chained, Spaced, SameOutside;
    var m1 := m[h + HEADER := last][h + HEADER + 4 := 0];
    var m' := Push(m, last, h);
    PushSpaced(m, s, e, last, a, lo, hi, b, fl, h);
    PushChained(m, last, fl, h);
    PushInside(m, last, h, lo, hi);
    ChainedHead(m, last, fl);
    AroundWrite(m, m1, s, e, last, a, lo, hi, b, fl, multiset{});
    if |fl| > 0 {
      ListedSafe(a, b, lo, hi, fl, multiset{}, 0);
      AroundLink(m1, a, b, s, lo, hi, e, fl[0], last + 4, h + HEADER);
      LiveTrans(m, m1, m', a);
      LiveTrans(m, m1, m', b);
    }
    assert multiset([h] + fl) == multiset{h} + multiset(fl);
  }

  lemma PushInside(m: Memory, last: int, h: int, lo: int, hi: int)
    requires lo <= h && h + 24 <= hi
    ensures SameOutside(m, m[h + HEADER := last][h + HEADER + 4 := 0], lo, hi)
  {
  }

  lemma ChainedHead(m: Memory, last: int, fl: seq<int>)
    requires Chained(m, last, fl) && Spaced(fl)
    ensures last == Link(fl, 0) && (|fl| > 0 ==> fl[0] > 0)
  {
  }

  lemma PushSpaced(m: Memory, s: int, e: int, last: int, a: seq<Block>, lo: int, hi: int, b: seq<Block>, fl: seq<int>, h: int)
    requires Around(m, s, e, last, a, lo, hi, b, fl, multiset{}) && lo <= h && h + 24 <= hi && lo > 0
    ensures Spaced([h] + fl)
  {
    hide Tags, Tiles, FreeSeq, Chained;
    var fl' := [h] + fl;
    forall i | 0 <= i < |fl| ensures fl'[i + 1] == fl[i] && fl[i] > 0 && (fl[i] + 24 <= h || h + 24 <= fl[i]) {
      ListedWhere(m, s, e, last, a, lo, hi, b, fl, multiset{}, i);
      SpacedAt(fl, i, i);
    }
    forall i, j | 0 <= i < |fl'| && 0 <= j < |fl'| && i != j ensures fl'[i] + 24 <= fl'[j] || fl'[j] + 24 <= fl'[i] {
      if i > 0 && j > 0 {
        SpacedAt(fl, i - 1, j - 1);
      }
    }
  }
}
