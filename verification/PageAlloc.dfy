/** The physical page allocator of src/mem/page_alloc.c, whose pages are never freed: pfree expands to nothing
    (src/mem/mem.h). */
module PageAlloc {
  import opened Common
  import opened Bitmap

  /** The pages of a block of num pages from first on. */
  function Pages(first: nat, num: nat): (s: set<nat>) { set p: nat | p < first + num && InBlock(p, first, num) }

  predicate InBlock(p: nat, first: nat, num: nat) { first <= p < first + num }

  datatype Block = Block(first: nat, num: nat)

  /** No page is in two of the blocks, and all are in use. */
  predicate NoneTwice(handed: seq<Block>, used: set<nat>) {
    && (forall i :: 0 <= i < |handed| ==> Pages(handed[i].first, handed[i].num) <= used)
    && (forall i, j :: 0 <= i < j < |handed| ==>
          Pages(handed[i].first, handed[i].num) !! Pages(handed[j].first, handed[j].num))
  }

  lemma HandOut(handed: seq<Block>, used: set<nat>, b: Block)
    requires NoneTwice(handed, used) && Pages(b.first, b.num) !! used
    ensures NoneTwice(handed + [b], used + Pages(b.first, b.num))
  {
  }

  lemma MoreUsed(handed: seq<Block>, used: set<nat>, more: set<nat>)
    requires NoneTwice(handed, used)
    ensures NoneTwice(handed, used + more)
  {
  }

  /** No run starts in a full word, so the search from the hint on finds what a search from bit 0 would. */
  lemma HintLosesNothing(data: seq<Word>, firstFree: nat, num: nat, r: int)
    requires firstFree <= |data| && AllFull(data, 0, firstFree)
    requires Searched(data, SearchFrom(firstFree, 0), num, r)
    ensures Searched(data, 0, num, r)
  {
    hide Bit, IsFull;
    var lo := firstFree * WORD_BITS;
    assert SearchFrom(firstFree, 0) == lo;
    forall q: nat | q < lo ensures !Run(data, q, Need(num)) {
      FullBit(data, firstFree, q);
      SetBreaks(data, q, Need(num), q);
    }
  }

  lemma FullBit(data: seq<Word>, firstFree: nat, q: nat)
    requires firstFree <= |data| && AllFull(data, 0, firstFree) && q < firstFree * WORD_BITS
    ensures Bit(data, q)
  {
    OffsetBound(q);
    assert IsFull(data[Index(q)]);
  }

  /** Setting bits keeps full words full. */
  lemma FillKeepsFull(old_: seq<Word>, data: seq<Word>, lo: nat, hi: nat, firstFree: nat)
    requires Filled(old_, data, lo, hi, true) && firstFree <= |data| && AllFull(old_, 0, firstFree)
    ensures AllFull(data, 0, firstFree)
  {
    forall k: nat | k < firstFree ensures IsFull(data[k]) {
      forall j: nat | j < WORD_BITS ensures data[k][j] {
        BitAt(data, k, j);
        BitAt(old_, k, j);
        assert Bit(data, k * WORD_BITS + j) == (if lo <= k * WORD_BITS + j < hi then true else Bit(old_, k * WORD_BITS + j));
        FullBit(old_, firstFree, k * WORD_BITS + j);
      }
      assert data[k] == Same(true);
    }
  }

  lemma HintKept(data: seq<Word>, from: nat, firstFree0: nat, firstFree: nat)
    requires Hinted(data, from, firstFree0, firstFree) && AllFull(data, 0, from) && from == firstFree0 <= |data|
    ensures AllFull(data, 0, firstFree) && firstFree <= |data|
  {
  }

  lemma FilledSet(old_: seq<Word>, data: seq<Word>, first: nat, num: nat)
    requires Filled(old_, data, first, first + num, true) && first + num <= |data| * WORD_BITS
    ensures SetBits(data, |data| * WORD_BITS) == SetBits(old_, |old_| * WORD_BITS) + Pages(first, num)
  {
  }

  lemma FitFresh(data: seq<Word>, num: nat, first: nat)
    requires FirstFit(data, 0, |data| * WORD_BITS, Need(num), first)
    ensures first < |data| * WORD_BITS && Pages(first, num) !! SetBits(data, |data| * WORD_BITS) && first + num <= |data| * WORD_BITS
  {
  }

  // ---------------------------------------------------------------- pages that are not there

  /** There are that many consecutive free pages below size. */
  ghost predicate Room(data: seq<Word>, size: nat, num: nat) {
    exists r: nat :: r + Need(num) <= size && Run(data, r, Need(num))
  }

  /** The search goes on behind the bitmap: what it finds lies below size if and only if there is room there. */
  lemma InsideIffRoom(data: seq<Word>, size: nat, num: nat, first: int)
    requires Searched(data, 0, num, first) && first >= 0
    ensures first + Need(num) <= size <==> Room(data, size, num)
  {
    hide Run;
  }

  /** The pages that addresses of 32 bits can name, and the address of a page. */
  const FRAMES := WRAP / PAGE_SIZE

  function AddressOf(page: nat): nat { page * PAGE_SIZE % WRAP }

  lemma AddressFits(p: nat)
    requires p < FRAMES
    ensures AddressOf(p) == p * PAGE_SIZE
  {
  }

  /** None of the pages has the address of a page in one of the blocks. */
  ghost predicate FreshAddresses(handed: seq<Block>, first: nat, num: nat) {
    forall i, p, q :: 0 <= i < |handed| && p in Pages(handed[i].first, handed[i].num) && q in Pages(first, num) ==>
      AddressOf(p) != AddressOf(q)
  }

  /** What is found has an address of its own, if no bit stands for a page past the 4 GiB. */
  lemma AddressesDiffer(data: seq<Word>, handed: seq<Block>, num: nat, first: nat)
    requires NoneTwice(handed, SetBits(data, |data| * WORD_BITS)) && Searched(data, 0, num, first)
    requires |data| * WORD_BITS <= FRAMES
    ensures FreshAddresses(handed, first, num)
  {
    FitFresh(data, num, first);
    forall i, p, q | 0 <= i < |handed| && p in Pages(handed[i].first, handed[i].num) && q in Pages(first, num)
      ensures AddressOf(p) != AddressOf(q)
    {
      assert p in SetBits(data, |data| * WORD_BITS);
      AddressFits(p);
      AddressFits(q);
    }
  }

  /** Otherwise page 1 can be handed out twice. */
  lemma AddressTwice(words: nat) returns (data: seq<Word>, handed: seq<Block>)
    requires words * WORD_BITS > FRAMES
    ensures |data| == words && NoneTwice(handed, SetBits(data, words * WORD_BITS))
    ensures Searched(data, 0, 1, FRAMES + 1) && !FreshAddresses(handed, FRAMES + 1, 1)
  {
    var last := FRAMES / WORD_BITS;
    var hole: Word := Same(true)[1 := false];
    data := seq(words, _ => Same(true))[last := hole];
    handed := [Block(1, 1)];
    forall n: nat | n <= FRAMES ensures Bit(data, n) {
      InWord(n, last);
    }
    BitAt(data, last, 1);
    assert !Bit(data, FRAMES + 1);
    forall q: nat | q <= FRAMES ensures !Run(data, q, 1) {
      SetBreaks(data, q, 1, q);
    }
    assert Run(data, FRAMES + 1, 1);
    assert handed[0] == Block(1, 1) && 1 in Pages(1, 1) && FRAMES + 1 in Pages(FRAMES + 1, 1) && AddressOf(1) == AddressOf(FRAMES + 1);
  }

  /** Addresses are handed out at most once in every state if and only if the words that are searched, with the one behind
      the bitmap, do not pass the 4 GiB. */
  lemma AddressesIff(words: nat)
    ensures (forall data: seq<Word>, handed: seq<Block>, num: nat, first: nat ::
               |data| == words && NoneTwice(handed, SetBits(data, words * WORD_BITS)) && Searched(data, 0, num, first) ==>
                 FreshAddresses(handed, first, num))
            <==> words * WORD_BITS <= FRAMES
  {
    hide NoneTwice, Searched, FreshAddresses, SetBits;
    if words * WORD_BITS <= FRAMES {
      forall data: seq<Word>, handed: seq<Block>, num: nat, first: nat
        | |data| == words && NoneTwice(handed, SetBits(data, words * WORD_BITS)) && Searched(data, 0, num, first)
        ensures FreshAddresses(handed, first, num)
      {
        AddressesDiffer(data, handed, num, first);
      }
    } else {
      var data, handed := AddressTwice(words);
    }
  }

  /** A context: the bitmap and the hint of its search. */
  class Allocator {
    var data: seq<Word>
    const size: nat
    var firstFree: nat
    // the blocks Alloc has returned so far
    ghost var handed: seq<Block>

    ghost predicate Valid() reads this {
      && |data| == Words(size) + 1 && firstFree <= |data| && AllFull(data, 0, firstFree)
      && NoneTwice(handed, Used())
    }

    /** The pages in use. */
    ghost function Used(): (s: set<nat>) reads this { SetBits(data, |data| * WORD_BITS) }

    /** mem_page_alloc_new: page 0 is taken, the pages of the quarter that is cleared are free, and the rest and the
        hint are what memory held before. */
    constructor (pages: nat, memory: seq<Word>, hint: nat)
      requires |memory| == Words(pages) + 1
      ensures size == pages && |data| == |memory| && firstFree == hint && handed == []
      ensures Used() == {0} + Left(memory, 8 * Words(pages))
      ensures Valid() <==> hint == 0 || (hint <= |data| && AllFull(data, 0, hint))
      ensures hint == 0 && Left(memory, 8 * Words(pages)) == {} ==> Valid() && Used() == {0}
    {
      var cleared := ClearAll(memory, pages);
      var marked := Fill(cleared, 0, 1, true);
      size, data, firstFree, handed := pages, marked, hint, [];
      new;
      FilledSet(cleared, marked, 0, 1);
      assert Pages(0, 1) == {0};
      ClearedSet(memory, cleared, 8 * Words(pages));
    }

    /** mem_page_alloc: the first num consecutive free pages in the whole bitmap, which nobody holds; NULL if there
        are none. The address is 32 bits wide; it is that of no page handed out before if no bit stands for a page past
        the 4 GiB. */
    method Alloc(num: nat) returns (address: nat, ghost first: int)
      requires Valid()
      modifies this
      ensures Valid() && Searched(old(data), 0, num, first)
      ensures first < 0 ==> address == 0 && data == old(data) && handed == old(handed)
      ensures first >= 0 ==>
        && address == AddressOf(first) && (first + Need(num) <= size <==> Room(old(data), size, num))
        && Pages(first, num) !! old(Used()) && Used() == old(Used()) + Pages(first, num)
        && handed == old(handed) + [Block(first, num)]
        && (|data| * WORD_BITS <= FRAMES ==> address == first * PAGE_SIZE && FreshAddresses(old(handed), first, num))
    {
      hide AllFull, Searched, FirstFit, Filled, Hinted, SetBits, NoneTwice, Pages, Room, FreshAddresses;
      var page, hint := Find(data, size, firstFree, 0, num);
      first := page;
      HintStart(firstFree);
      HintLosesNothing(data, firstFree, num, page);
      HintKept(data, firstFree, firstFree, hint);
      firstFree := hint;
      SearchedFit(data, num, page);
      if page == -1 {
        address := 0;
        return;
      }
      FitFresh(data, num, page);
      InsideIffRoom(data, size, num, page);
      if |data| * WORD_BITS <= FRAMES {
        AddressesDiffer(data, handed, num, page);
        AddressFits(page);
      }
      ghost var was := data;
      data := Fill(data, page, num, true);
      FilledLength(was, data, page, page + num, true);
      FillKeepsFull(was, data, page, page + num, firstFree);
      FilledSet(was, data, page, num);
      HandOut(handed, old(Used()), Block(page, num));
      handed := handed + [Block(page, num)];
      address := AddressOf(page);
    }

    /** mem_page_alloc_at marks pages whether or not somebody holds them. */
    method AllocAt(address: nat, num: nat)
      requires Valid() && address / PAGE_SIZE + num <= |data| * WORD_BITS
      modifies this
      ensures Valid() && Used() == old(Used()) + Pages(address / PAGE_SIZE, num)
      ensures handed == old(handed)
    {
      hide AllFull, Filled, SetBits, NoneTwice, Pages;
      ghost var was := data;
      data := Fill(data, address / PAGE_SIZE, num, true);
      FilledLength(was, data, address / PAGE_SIZE, address / PAGE_SIZE + num, true);
      FillKeepsFull(was, data, address / PAGE_SIZE, address / PAGE_SIZE + num, firstFree);
      FilledSet(was, data, address / PAGE_SIZE, num);
      MoreUsed(handed, old(Used()), Pages(address / PAGE_SIZE, num));
    }

    /** mem_page_alloc_stats. */
    method Stats() returns (total: nat, used: nat)
      requires Valid()
      ensures total == size * PAGE_SIZE % WRAP && used == |Used()| * PAGE_SIZE % WRAP
    {
      total := size * PAGE_SIZE % WRAP;
      var count := Count(data, size, firstFree);
      used := count * PAGE_SIZE % WRAP;
    }
  }

  /** The set bits from n on. */
  function Left(data: seq<Word>, n: nat): (s: set<nat>) {
    set k: nat | k < |data| * WORD_BITS && k >= n && Bit(data, k)
  }

  lemma ClearedSet(old_: seq<Word>, data: seq<Word>, n: nat)
    requires Filled(old_, data, 0, n, false)
    ensures SetBits(data, |data| * WORD_BITS) == Left(old_, n)
  {
    hide Bit;
  }

  lemma HintStart(firstFree: nat)
    ensures Index(SearchFrom(firstFree, 0)) == firstFree
  {
  }

  lemma SearchedFit(data: seq<Word>, num: nat, r: int)
    requires Searched(data, 0, num, r)
    ensures r >= -1 && (r >= 0 ==> FirstFit(data, 0, |data| * WORD_BITS, Need(num), r))
  {
  }
}
