/** The word-at-a-time bitmap of src/lib/bitmap.c. */
module Bitmap {
  import opened Common

  const WORD_BITS := 32

  /** A 32-bit word as its bits, bit 0 first. */
  type Word = w: seq<bool> | |w| == WORD_BITS witness seq(WORD_BITS, _ => false)

  /** The words 0xffffffff and 0. */
  function Same(v: bool): (w: Word)
    ensures forall j :: 0 <= j < WORD_BITS ==> w[j] == v
  {
    seq(WORD_BITS, _ => v)
  }

  predicate IsFull(w: Word) { w == Same(true) }
  predicate IsZero(w: Word) { w == Same(false) }

  /** bitmap_size: the words needed for size bits. The source's loops run to this index inclusive, so the data
      hold one word more. */
  function Words(size: nat): nat { (size + WORD_BITS - 1) / WORD_BITS }

  function Index(n: nat): nat { n / WORD_BITS }
  function Offset(n: nat): nat { n % WORD_BITS }

  /** Bit n of the bitmap. What lies behind the data is nobody's: a bit there reads as set, and nothing below looks
      there. */
  predicate Bit(data: seq<Word>, n: nat) {
    Index(n) < |data| ==> data[Index(n)][Offset(n)]
  }

  /** No bit of [lo, hi) is set. */
  predicate Clear(data: seq<Word>, lo: nat, hi: nat) {
    forall n :: lo <= n < hi ==> !Bit(data, n)
  }

  lemma BitAt(data: seq<Word>, i: nat, j: nat)
    requires i < |data| && j < WORD_BITS
    ensures Index(i * WORD_BITS + j) == i && Offset(i * WORD_BITS + j) == j
    ensures Bit(data, i * WORD_BITS + j) == data[i][j]
  {
  }

  /** The bits of word i are exactly those from 32 i to 32 i + 31. */
  lemma InWord(n: nat, i: nat)
    ensures Index(n) == i <==> i * WORD_BITS <= n < (i + 1) * WORD_BITS
    ensures Index(n) == i ==> Offset(n) == n - i * WORD_BITS
  {
  }

  // ---------------------------------------------------------------- set and clear

  /** Every bit of [lo, hi) is v and every other bit is as in old. */
  predicate Filled(old_: seq<Word>, data: seq<Word>, lo: nat, hi: nat, v: bool) {
    |data| == |old_| &&
    forall n :: 0 <= n < |data| * WORD_BITS ==> Bit(data, n) == (if lo <= n < hi then v else Bit(old_, n))
  }

  lemma FillWord(old_: seq<Word>, data: seq<Word>, lo: nat, hi: nat, v: bool)
    requires Filled(old_, data, lo, hi, v) && lo <= hi && Offset(hi) == 0 && Index(hi) < |data|
    ensures Filled(old_, data[Index(hi) := Same(v)], lo, hi + WORD_BITS, v)
  {
    var i := Index(hi);
    var data' := data[i := Same(v)];
    forall n | 0 <= n < |data| * WORD_BITS
      ensures Bit(data', n) == (if lo <= n < hi + WORD_BITS then v else Bit(old_, n))
    {
      InWord(n, i);
      assert Bit(data, n) == (if lo <= n < hi then v else Bit(old_, n));
    }
  }

  lemma FillBit(old_: seq<Word>, data: seq<Word>, lo: nat, hi: nat, v: bool)
    requires Filled(old_, data, lo, hi, v) && lo <= hi && Index(hi) < |data|
    ensures Filled(old_, data[Index(hi) := data[Index(hi)][Offset(hi) := v]], lo, hi + 1, v)
  {
    var i, j := Index(hi), Offset(hi);
    var data' := data[i := data[i][j := v]];
    forall n | 0 <= n < |data| * WORD_BITS
      ensures Bit(data', n) == (if lo <= n < hi + 1 then v else Bit(old_, n))
    {
      InWord(n, i);
      InWord(hi, i);
      assert Bit(data, n) == (if lo <= n < hi then v else Bit(old_, n));
    }
  }

  /** The loop of bitmap_set and bitmap_clear: whole words where it can, single bits elsewhere. */
  method Fill(data0: seq<Word>, pos: nat, num: nat, v: bool) returns (data: seq<Word>)
    requires pos + num <= |data0| * WORD_BITS
    ensures Filled(data0, data, pos, pos + num, v)
    ensures num == 0 ==> data == data0
  {
    data := data0;
    var i := 0;
    while i < num
      invariant 0 <= i <= num && Filled(data0, data, pos, pos + i, v)
      invariant i == 0 ==> data == data0
      decreases num - i
    {
      hide Filled, Index, Offset;
      OffsetBound(pos + i);
      FilledLength(data0, data, pos, pos + i, v);
      var index, offset := Index(pos + i), Offset(pos + i);
      if offset == 0 && num - i >= WORD_BITS {
        FillWord(data0, data, pos, pos + i, v);
        data := data[index := Same(v)];
        i := i + 31;
      } else {
        FillBit(data0, data, pos, pos + i, v);
        data := data[index := data[index][offset := v]];
      }
      i := i + 1;
    }
  }

  lemma FilledLength(old_: seq<Word>, data: seq<Word>, lo: nat, hi: nat, v: bool)
    requires Filled(old_, data, lo, hi, v)
    ensures |data| == |old_|
  {
  }

  /** bitmap_clear, which ignores a range whose end, on 32 bits, leaves the bitmap, and lowers the hint to the bit
      number. A range that gets past the test only because its end wraps would be cleared outside the data. */
  method ClearBits(data0: seq<Word>, size: nat, firstFree0: nat, pos: nat, num: nat)
    returns (data: seq<Word>, firstFree: nat)
    requires |data0| == Words(size) + 1 && ((pos + num) % WRAP <= size ==> pos + num <= |data0| * WORD_BITS)
    ensures (pos + num) % WRAP > size ==> data == data0 && firstFree == firstFree0
    ensures (pos + num) % WRAP <= size ==>
      Filled(data0, data, pos, pos + num, false) && firstFree == if firstFree0 < pos then firstFree0 else pos
  {
    data, firstFree := data0, firstFree0;
    if (pos + num) % WRAP > size {
      return;
    }
    data := Fill(data, pos, num, false);
    if pos < firstFree {
      firstFree := pos;
    }
  }

  /** bitmap_clear_all passes a number of words for a number of bytes: it clears a quarter of the words. */
  method ClearAll(data0: seq<Word>, size: nat) returns (data: seq<Word>)
    requires |data0| == Words(size) + 1
    ensures Filled(data0, data, 0, 8 * Words(size), false)
  {
    data := Fill(data0, 0, 8 * Words(size), false);
  }

  /** It leaves the bitmap empty if and only if the bits behind that quarter were clear before. */
  lemma ClearAllEmpties(data0: seq<Word>, data: seq<Word>, size: nat)
    requires |data0| == Words(size) + 1 && Filled(data0, data, 0, 8 * Words(size), false)
    ensures Clear(data, 0, |data| * WORD_BITS) <==> Clear(data0, 8 * Words(size), |data| * WORD_BITS)
  {
    hide Bit;
    if Clear(data, 0, |data| * WORD_BITS) {
      forall n: nat | 8 * Words(size) <= n < |data| * WORD_BITS ensures !Bit(data0, n) {
        assert !Bit(data, n);
      }
    }
    if Clear(data0, 8 * Words(size), |data| * WORD_BITS) {
      forall n: nat | n < |data| * WORD_BITS ensures !Bit(data, n) {
        assert n >= 8 * Words(size) ==> !Bit(data0, n);
      }
    }
  }

  /** The hint counts words, so lowering it to a bit number keeps the words below it full only where that number
      does not pass the word of the cleared bit. */
  lemma ClearKeepsHint(data0: seq<Word>, data: seq<Word>, firstFree0: nat, pos: nat, num: nat)
    requires Filled(data0, data, pos, pos + num, false) && num > 0 && pos + num <= |data| * WORD_BITS
    requires AllFull(data0, 0, firstFree0) && firstFree0 <= |data|
    ensures AllFull(data, 0, if firstFree0 < pos then firstFree0 else pos) <==> firstFree0 <= Index(pos) || pos == 0
  {
    var firstFree := if firstFree0 < pos then firstFree0 else pos;
    OffsetBound(pos);
    if firstFree0 <= Index(pos) || pos == 0 {
      forall k | 0 <= k < firstFree ensures IsFull(data[k]) {
        forall j: nat | j < WORD_BITS ensures data[k][j] {
          BitAt(data, k, j);
          BitAt(data0, k, j);
          assert IsFull(data0[k]);
          assert Bit(data, k * WORD_BITS + j) == Bit(data0, k * WORD_BITS + j);
        }
        assert data[k] == Same(true);
      }
    } else {
      BitAt(data, Index(pos), Offset(pos));
      assert !Bit(data, pos);
      assert !IsFull(data[Index(pos)]);
    }
  }

  // ---------------------------------------------------------------- search

  /** The num bits from r on are clear. */
  predicate Run(data: seq<Word>, r: nat, num: nat) { Clear(data, r, r + num) }

  /** No run of num bits from lo on ends by end. */
  ghost predicate NoRun(data: seq<Word>, lo: nat, end: nat, num: nat) {
    forall r: nat :: lo <= r && r + num <= end ==> !Run(data, r, num)
  }

  /** The state of the search at bit b: the last run bits before b are clear, what precedes them is set or the
      start of the search, and no run of num bits ends by b. */
  ghost predicate Scan(data: seq<Word>, lo: nat, b: nat, run: nat, num: nat) {
    && lo + run <= b && Clear(data, b - run, b)
    && (lo + run < b ==> Bit(data, b - run - 1))
    && NoRun(data, lo, b, num)
  }

  /** r is the first run of num clear bits at or after lo, within end. */
  ghost predicate FirstFit(data: seq<Word>, lo: nat, end: nat, num: nat, r: nat) {
    && lo <= r && r + num <= end && Run(data, r, num)
    && forall q: nat :: lo <= q < r ==> !Run(data, q, num)
  }

  lemma SetBreaks(data: seq<Word>, r: nat, num: nat, n: nat)
    requires r <= n < r + num && Bit(data, n)
    ensures !Run(data, r, num)
  {
  }

  lemma ScanSet(data: seq<Word>, lo: nat, b: nat, run: nat, num: nat)
    requires Scan(data, lo, b, run, num) && Bit(data, b) && num > 0
    ensures Scan(data, lo, b + 1, 0, num)
  {
    forall r: nat | lo <= r && r + num <= b + 1 ensures !Run(data, r, num) {
      if r + num == b + 1 {
        SetBreaks(data, r, num, b);
      }
    }
  }

  /** A full word resets the run. */
  lemma ScanFull(data: seq<Word>, lo: nat, b: nat, run: nat, num: nat, step: nat)
    requires Scan(data, lo, b, run, num) && num > 0 && step > 0
    requires forall n :: b <= n < b + step ==> Bit(data, n)
    ensures Scan(data, lo, b + step, 0, num)
  {
    forall r: nat | lo <= r && r + num <= b + step ensures !Run(data, r, num) {
      if r + num > b {
        SetBreaks(data, r, num, r + num - 1);
      }
    }
    assert Bit(data, b + step - 1);
  }

  lemma ScanClear(data: seq<Word>, lo: nat, b: nat, run: nat, num: nat, step: nat)
    requires Scan(data, lo, b, run, num) && Clear(data, b, b + step) && run < num
    ensures run + step < num ==> Scan(data, lo, b + step, run + step, num)
    ensures run + step >= num ==> FirstFit(data, lo, b + step, num, b - run)
  {
    var c := b - run;
    assert Clear(data, c, b + step);
    forall q: nat | lo <= q < c ensures !Run(data, q, num) {
      if q + num > b {
        SetBreaks(data, q, num, c - 1);
      }
    }
  }

  lemma ScanStart(data: seq<Word>, lo: nat, num: nat)
    requires num > 0
    ensures Scan(data, lo, lo, 0, num)
  {
  }

  /** Where bitmap_find starts looking: at start, or later if the hint says so. */
  function SearchFrom(firstFree: nat, start: nat): nat {
    if Index(start) < firstFree then firstFree * WORD_BITS + Offset(start) else start
  }

  lemma WordBits(data: seq<Word>, i: nat)
    requires i < |data|
    ensures IsFull(data[i]) ==> forall n :: i * WORD_BITS <= n < (i + 1) * WORD_BITS ==> Bit(data, n)
    ensures IsZero(data[i]) ==> Clear(data, i * WORD_BITS, (i + 1) * WORD_BITS)
  {
    forall n: nat | i * WORD_BITS <= n < (i + 1) * WORD_BITS
      ensures Index(n) == i && (IsFull(data[i]) ==> Bit(data, n)) && (IsZero(data[i]) ==> !Bit(data, n))
    {
      InWord(n, i);
    }
  }

  /** i is the first word at or after from that is not full. */
  predicate FirstNotFull(data: seq<Word>, from: nat, i: nat) {
    from <= i < |data| && !IsFull(data[i]) && AllFull(data, from, i)
  }

  /** The words from lo up to hi, those inside the data, are full. */
  predicate AllFull(data: seq<Word>, lo: nat, hi: nat) {
    forall k :: lo <= k < hi && k < |data| ==> IsFull(data[k])
  }

  /** A request for no bits is served like one for a single bit. */
  function Need(num: nat): nat { if num == 0 then 1 else num }

  /** What bitmap_find answers: the first fit, or -1 when there is none. */
  ghost predicate Searched(data: seq<Word>, lo: nat, num: nat, r: int) {
    var end := |data| * WORD_BITS;
    if r >= 0 then FirstFit(data, lo, end, Need(num), r) else r == -1 && NoRun(data, lo, end, Need(num))
  }

  /** Where the hint goes: to the first word seen that is not full; it stays if there is none. */
  predicate Hinted(data: seq<Word>, from: nat, firstFree0: nat, firstFree: nat) {
    FirstNotFull(data, from, firstFree) || (firstFree == firstFree0 && AllFull(data, from, |data|))
  }

  /** The bit-by-bit part of bitmap_find, over word i from bit offset on. */
  method ScanBits(data: seq<Word>, i: nat, offset: nat, contigStart0: nat, contigNum0: nat, num: nat, ghost lo: nat)
    returns (found: bool, contigStart: nat, contigNum: nat)
    requires i < |data| && offset < WORD_BITS
    requires Scan(data, lo, i * WORD_BITS + offset, contigNum0, Need(num)) && contigNum0 < Need(num)
    requires contigNum0 > 0 ==> contigStart0 + contigNum0 == i * WORD_BITS + offset
    ensures found ==> FirstFit(data, lo, |data| * WORD_BITS, Need(num), contigStart)
    ensures !found ==> Scan(data, lo, (i + 1) * WORD_BITS, contigNum, Need(num)) && contigNum < Need(num)
    ensures !found && contigNum > 0 ==> contigStart + contigNum == (i + 1) * WORD_BITS
  {
    hide Scan, FirstFit, NoRun, Clear, Bit, Index, Offset;
    contigStart, contigNum := contigStart0, contigNum0;
    ghost var need := Need(num);
    var j := offset;
    while j < WORD_BITS
      invariant offset <= j <= WORD_BITS
      invariant Scan(data, lo, i * WORD_BITS + j, contigNum, need) && contigNum < need
      invariant contigNum > 0 ==> contigStart + contigNum == i * WORD_BITS + j
    {
      ghost var b := i * WORD_BITS + j;
      BitAt(data, i, j);
      if data[i][j] {
        ScanSet(data, lo, b, contigNum, need);
        contigNum := 0;
      } else {
        ClearOne(data, b);
        ScanClear(data, lo, b, contigNum, need, 1);
        if contigNum == 0 {
          contigStart := i * WORD_BITS + j;
        }
        contigNum := contigNum + 1;
        if contigNum >= num {
          FitWithin(data, lo, b + 1, need, contigStart);
          found := true;
          return;
        }
      }
      j := j + 1;
    }
    found := false;
  }

  /** bitmap_find: the first run of num clear bits from where the search starts, or -1. */
  method Find(data: seq<Word>, size: nat, firstFree0: nat, start: nat, num: nat) returns (r: int, firstFree: nat)
    requires |data| == Words(size) + 1
    ensures Searched(data, SearchFrom(firstFree0, start), num, r)
    ensures Hinted(data, Index(SearchFrom(firstFree0, start)), firstFree0, firstFree)
  {
    hide Scan, FirstFit, NoRun, IsFull, IsZero, Clear, Bit, Index, Offset, AllFull, FirstNotFull;
    firstFree := firstFree0;
    ghost var lo, need := SearchFrom(firstFree0, start), Need(num);
    var contigStart: nat, contigNum: nat, allFull := 0, 0, true;
    var offset: nat := Offset(start);
    var i: nat := Index(start);
    if i < firstFree {
      i := firstFree;
    }
    ghost var from := i;
    FromWord(firstFree0, start);
    NoneFull(data, from);
    ScanStart(data, lo, need);
    while i <= Words(size)
      invariant from <= i && offset < WORD_BITS && (i <= |data| || from == i)
      invariant Scan(data, lo, i * WORD_BITS + offset, contigNum, need) && contigNum < need
      invariant contigNum > 0 ==> contigStart + contigNum == i * WORD_BITS + offset
      invariant allFull ==> firstFree == firstFree0 && AllFull(data, from, i)
      invariant !allFull ==> FirstNotFull(data, from, firstFree)
      decreases |data| - i
    {
      ghost var b := i * WORD_BITS + offset;
      WordBits(data, i);
      if IsFull(data[i]) {
        ScanFull(data, lo, b, contigNum, need, WORD_BITS - offset);
        contigNum, offset := 0, 0;
        if allFull {
          MoreFull(data, from, i);
        }
        i := i + 1;
        continue;
      }
      if allFull {
        FullThenNot(data, from, i);
        allFull := false;
        firstFree := i;
      }
      if offset == 0 && IsZero(data[i]) {
        ScanClear(data, lo, b, contigNum, need, WORD_BITS);
        if contigNum == 0 {
          contigStart := i * WORD_BITS;
        }
        contigNum := contigNum + WORD_BITS;
        if contigNum >= num {
          FitWithin(data, lo, b + WORD_BITS, need, contigStart);
          return contigStart, firstFree;
        }
        i := i + 1;
        continue;
      }
      var found;
      found, contigStart, contigNum := ScanBits(data, i, offset, contigStart, contigNum, num, lo);
      if found {
        return contigStart, firstFree;
      }
      offset := 0;
      i := i + 1;
    }
    ScanEnd(data, lo, i * WORD_BITS + offset, contigNum, need);
    if allFull {
      FullToEnd(data, from, i);
    }
    r := -1;
  }

  lemma FromWord(firstFree: nat, start: nat)
    ensures var lo := SearchFrom(firstFree, start);
      && var i := if Index(start) < firstFree then firstFree else Index(start);
      Index(lo) == i && lo == i * WORD_BITS + Offset(start) && Offset(start) < WORD_BITS
  {
  }

  lemma NoneFull(data: seq<Word>, from: nat)
    ensures AllFull(data, from, from)
  {
  }

  lemma MoreFull(data: seq<Word>, from: nat, i: nat)
    requires AllFull(data, from, i) && i < |data| && IsFull(data[i])
    ensures AllFull(data, from, i + 1)
  {
  }

  lemma FullThenNot(data: seq<Word>, from: nat, i: nat)
    requires from <= i < |data| && AllFull(data, from, i) && !IsFull(data[i])
    ensures FirstNotFull(data, from, i)
  {
  }

  lemma FullToEnd(data: seq<Word>, from: nat, i: nat)
    requires AllFull(data, from, i) && i >= |data|
    ensures AllFull(data, from, |data|)
  {
  }

  lemma ClearOne(data: seq<Word>, n: nat)
    requires !Bit(data, n)
    ensures Clear(data, n, n + 1)
  {
  }

  lemma FitWithin(data: seq<Word>, lo: nat, end: nat, num: nat, r: nat)
    requires FirstFit(data, lo, end, num, r) && end <= |data| * WORD_BITS
    ensures FirstFit(data, lo, |data| * WORD_BITS, num, r)
  {
  }

  lemma ScanEnd(data: seq<Word>, lo: nat, b: nat, run: nat, num: nat)
    requires Scan(data, lo, b, run, num) && b >= |data| * WORD_BITS
    ensures NoRun(data, lo, |data| * WORD_BITS, num)
  {
  }

  // ---------------------------------------------------------------- the conflict test

  /** __builtin_ctz and __builtin_clz, whose results are undefined on zero: the zero bits below the lowest and
      above the highest set bit. */
  function TrailingZeros(w: Word, j: nat := 0): (c: nat)
    requires j < WORD_BITS && !IsZero(w) && forall k :: 0 <= k < j ==> !w[k]
    ensures j <= c < WORD_BITS && w[c] && forall k :: 0 <= k < c ==> !w[k]
    decreases WORD_BITS - j
  {
    if w[j] then j else BelowTop(w, j); TrailingZeros(w, j + 1)
  }

  function LeadingZeros(w: Word, j: nat := 0): (c: nat)
    requires j < WORD_BITS && !IsZero(w) && forall k :: WORD_BITS - j <= k < WORD_BITS ==> !w[k]
    ensures j <= c < WORD_BITS && w[31 - c] && forall k :: 31 - c < k < WORD_BITS ==> !w[k]
    decreases WORD_BITS - j
  {
    if w[31 - j] then j else AboveBottom(w, j); LeadingZeros(w, j + 1)
  }

  lemma BelowTop(w: Word, j: nat)
    requires j < WORD_BITS && !IsZero(w) && forall k :: 0 <= k <= j ==> !w[k]
    ensures j + 1 < WORD_BITS
  {
    assert j + 1 == WORD_BITS ==> w == Same(false);
  }

  lemma AboveBottom(w: Word, j: nat)
    requires j < WORD_BITS && !IsZero(w) && forall k :: 31 - j <= k < WORD_BITS ==> !w[k]
    ensures j + 1 < WORD_BITS
  {
    assert j + 1 == WORD_BITS ==> w == Same(false);
  }

  lemma ZerosHit(data: seq<Word>, i: nat, n: nat)
    requires i < |data| && !IsZero(data[i])
    ensures n <= WORD_BITS ==> (TrailingZeros(data[i]) < n <==> Hit(data, i, 0, n))
    ensures n <= WORD_BITS ==> (LeadingZeros(data[i]) < n <==> Hit(data, i, WORD_BITS - n, WORD_BITS))
  {
    assert data[i][31 - LeadingZeros(data[i])];
  }

  /** Some bit of word i from bit lo up to hi is set. */
  predicate Hit(data: seq<Word>, i: nat, lo: nat, hi: nat) {
    i < |data| && exists j :: lo <= j < hi && j < WORD_BITS && data[i][j]
  }

  /** The answer of the word loop of bitmap_get_range at word i with rem bits still to test. */
  predicate LoopHit(data: seq<Word>, i: nat, rem: nat)
    decreases |data| - i
  {
    if rem == 0 || i >= |data| then false
    else if IsZero(data[i]) then rem > WORD_BITS && LoopHit(data, i + 1, rem - WORD_BITS)
    else rem >= WORD_BITS || Hit(data, i, 0, rem) || LoopHit(data, i + 1, rem)
  }

  /** The bits left to test after the partial first word; the subtraction wraps when the range ends inside it. */
  function Remainder(start: nat, num: nat): nat {
    if Offset(start) == 0 then num % WRAP else (num - (WORD_BITS - Offset(start))) % WRAP
  }

  function FirstWhole(start: nat): nat {
    if Offset(start) == 0 then Index(start) else Index(start) + 1
  }

  /** bitmap_get_range says that the range is taken. */
  predicate Reported(data: seq<Word>, start: nat, num: nat) {
    || (Offset(start) != 0 && Hit(data, Index(start), Offset(start), WORD_BITS))
    || LoopHit(data, FirstWhole(start), Remainder(start, num))
  }

  lemma NonZeroHit(data: seq<Word>, i: nat)
    requires i < |data|
    ensures IsZero(data[i]) <==> !Hit(data, i, 0, WORD_BITS)
  {
    if !Hit(data, i, 0, WORD_BITS) {
      assert data[i] == Same(false);
    }
  }

  lemma HitNonZero(data: seq<Word>, i: nat, lo: nat, hi: nat)
    requires Hit(data, i, lo, hi)
    ensures !IsZero(data[i])
  {
  }

  /** bitmap_get_range. */
  method GetRange(data: seq<Word>, size: nat, start: nat, num: nat) returns (r: nat)
    requires |data| == Words(size) + 1 && Index(start) < |data| && num < WRAP
    ensures r == if Reported(data, start, num) then 1 else 0
  {
    hide IsZero, Words, Index, Offset, Hit;
    OffsetBound(start);
    var remainder: nat := num;
    var i: nat := Index(start);
    if Offset(start) != 0 {
      var unaligned: nat := WORD_BITS - Offset(start);
      if !IsZero(data[i]) {
        ZerosHit(data, i, unaligned);
        if LeadingZeros(data[i]) < unaligned {
          return 1;
        }
      }
      if Hit(data, i, Offset(start), WORD_BITS) {
        HitNonZero(data, i, Offset(start), WORD_BITS);
      }
      remainder := (remainder - unaligned) % WRAP;
      i := i + 1;
    }
    assert Reported(data, start, num) == LoopHit(data, i, remainder);
    hide Reported;
    while remainder > 0 && i <= Words(size)
      invariant Reported(data, start, num) == LoopHit(data, i, remainder)
      decreases |data| - i
    {
      if IsZero(data[i]) {
        if remainder <= WORD_BITS {
          return 0;
        }
        remainder := remainder - WORD_BITS;
        i := i + 1;
        continue;
      } else {
        if remainder >= WORD_BITS {
          return 1;
        }
      }
      ZerosHit(data, i, remainder);
      if TrailingZeros(data[i]) < remainder {
        return 1;
      }
      i := i + 1;
    }
    r := 0;
  }

  lemma OffsetBound(n: nat)
    ensures Offset(n) < WORD_BITS && n == Index(n) * WORD_BITS + Offset(n)
  {
  }

  /** Some bit of [lo, hi) that lies inside the data is set. */
  predicate Taken(data: seq<Word>, lo: nat, hi: nat) {
    exists n :: lo <= n < hi && n < |data| * WORD_BITS && Bit(data, n)
  }

  lemma HitTaken(data: seq<Word>, i: nat, lo: nat, hi: nat)
    requires i < |data| && lo <= hi <= WORD_BITS
    ensures Hit(data, i, lo, hi) <==> Taken(data, i * WORD_BITS + lo, i * WORD_BITS + hi)
  {
    if Hit(data, i, lo, hi) {
      var j :| lo <= j < hi && data[i][j];
      BitAt(data, i, j);
    }
    if Taken(data, i * WORD_BITS + lo, i * WORD_BITS + hi) {
      var n :| i * WORD_BITS + lo <= n < i * WORD_BITS + hi && Bit(data, n);
      InWord(n, i);
    }
  }

  lemma TakenSplit(data: seq<Word>, lo: nat, mid: nat, hi: nat)
    requires lo <= mid <= hi
    ensures Taken(data, lo, hi) <==> Taken(data, lo, mid) || Taken(data, mid, hi)
  {
  }

  /** The word loop never misses a set bit of the rem bits from word i on. */
  lemma {:induction false} LoopSound(data: seq<Word>, i: nat, rem: nat)
    requires Taken(data, i * WORD_BITS, i * WORD_BITS + rem)
    ensures LoopHit(data, i, rem)
    decreases |data| - i
  {
    hide Taken, Hit, IsZero;
    TakenInside(data, i * WORD_BITS, i * WORD_BITS + rem);
    NonZeroHit(data, i);
    HitTaken(data, i, 0, WORD_BITS);
    if rem <= WORD_BITS {
      HitTaken(data, i, 0, rem);
      TakenSplit(data, i * WORD_BITS, i * WORD_BITS + rem, (i + 1) * WORD_BITS);
    } else if IsZero(data[i]) {
      TakenSplit(data, i * WORD_BITS, (i + 1) * WORD_BITS, i * WORD_BITS + rem);
      LoopSound(data, i + 1, rem - WORD_BITS);
    }
  }

  lemma TakenInside(data: seq<Word>, lo: nat, hi: nat)
    requires Taken(data, lo, hi)
    ensures lo < hi && lo < |data| * WORD_BITS
  {
  }

  /** bitmap_get_range answers 0 only if every bit of the range that lies inside the bitmap is clear. */
  lemma RangeSound(data: seq<Word>, start: nat, num: nat)
    requires num < WRAP && Index(start) < |data| && Taken(data, start, start + num)
    ensures Reported(data, start, num)
  {
    hide Taken, Hit;
    OffsetBound(start);
    var i, o := Index(start), Offset(start);
    var next := (i + 1) * WORD_BITS;
    if o == 0 {
      LoopSound(data, i, num);
    } else {
      HitTaken(data, i, o, WORD_BITS);
      if start + num <= next {
        TakenSplit(data, start, start + num, next);
      } else {
        TakenSplit(data, start, next, start + num);
        if !Hit(data, i, o, WORD_BITS) {
          LoopSound(data, i + 1, num - (WORD_BITS - o));
        }
      }
    }
  }

  /** The loop is exact on whole words. */
  lemma {:induction false} LoopExact(data: seq<Word>, i: nat, rem: nat)
    requires rem % WORD_BITS == 0 && LoopHit(data, i, rem)
    ensures Taken(data, i * WORD_BITS, i * WORD_BITS + rem)
    decreases |data| - i
  {
    hide Taken, Hit, IsZero;
    NonZeroHit(data, i);
    HitTaken(data, i, 0, WORD_BITS);
    TakenSplit(data, i * WORD_BITS, (i + 1) * WORD_BITS, i * WORD_BITS + rem);
    if IsZero(data[i]) {
      LoopExact(data, i + 1, rem - WORD_BITS);
    }
  }

  /** The range ends on a word boundary. */
  predicate EndsOnWord(start: nat, num: nat) { (start + num) % WORD_BITS == 0 }

  /** On ranges that end on a word boundary bitmap_get_range reports a conflict only if there is one. */
  lemma RangeExact(data: seq<Word>, start: nat, num: nat)
    requires num < WRAP && Index(start) < |data| && EndsOnWord(start, num) && Reported(data, start, num)
    ensures Taken(data, start, start + num)
  {
    hide Taken, Hit;
    OffsetBound(start);
    var i, o := Index(start), Offset(start);
    var next := (i + 1) * WORD_BITS;
    if o == 0 {
      LoopExact(data, i, num);
    } else {
      assert start + num >= next;
      HitTaken(data, i, o, WORD_BITS);
      TakenSplit(data, start, next, start + num);
      if !Hit(data, i, o, WORD_BITS) {
        LoopExact(data, i + 1, num - (WORD_BITS - o));
      }
    }
  }

  /** The loop passes over zero words. */
  lemma {:induction false} LoopSkips(data: seq<Word>, i: nat, k: nat, rem: nat)
    requires i <= k < |data| && rem > 0 && forall n :: i <= n < k ==> IsZero(data[n])
    ensures LoopHit(data, i, (k - i) * WORD_BITS + rem) == LoopHit(data, k, rem)
    decreases k - i
  {
    if i < k {
      LoopSkips(data, i + 1, k, rem);
    }
  }

  function DecoyWord(i: int, k: nat): (w: Word)
    ensures forall j :: 0 <= j < WORD_BITS ==> w[j] == (i == k + 1 || (i == k && j == 31))
  {
    if i == k then Same(false)[31 := true] else Same(i == k + 1)
  }

  /** Nothing but the top bit of word k and all of word k + 1. */
  function Decoy(words: nat, k: nat): (data: seq<Word>) {
    seq(words, i => DecoyWord(i, k))
  }

  /** On every other range inside the bitmap some contents make it report a conflict that is not there. */
  lemma RangeInexact(size: nat, start: nat, num: nat) returns (data: seq<Word>)
    requires start + num <= size < WRAP && !EndsOnWord(start, num)
    ensures |data| == Words(size) + 1
    ensures Reported(data, start, num) && !Taken(data, start, start + num)
  {
    hide Taken, LoopHit;
    var e := start + num;
    var k := Index(e);
    data := Decoy(Words(size) + 1, k);
    OffsetBound(start);
    OffsetBound(e);
    DecoyHits(Words(size) + 1, k, Offset(e));
    if Offset(start) != 0 && Index(start) == k {
      assert data[k][31];
    } else {
      LoopSkips(data, FirstWhole(start), k, Offset(e));
    }
    DecoyClear(Words(size) + 1, k, e);
    ClearNotTaken(data, e, start);
  }

  lemma ClearNotTaken(data: seq<Word>, e: nat, start: nat)
    requires Clear(data, 0, e)
    ensures !Taken(data, start, e)
  {
  }

  /** The loop goes past the word whose set bit does not matter, and stumbles over the next one. */
  lemma DecoyHits(words: nat, k: nat, rem: nat)
    requires k + 1 < words && 0 < rem < WORD_BITS
    ensures LoopHit(Decoy(words, k), k, rem)
  {
    var data := Decoy(words, k);
    assert data[k][31] && data[k + 1][0];
    assert LoopHit(data, k + 1, rem);
  }

  lemma DecoyClear(words: nat, k: nat, e: nat)
    requires Index(e) == k && k + 1 < words
    ensures Clear(Decoy(words, k), 0, e)
  {
    forall n: nat | n < e ensures !Bit(Decoy(words, k), n) {
      OffsetBound(n);
    }
  }

  // ---------------------------------------------------------------- counting

  /** The set bits below bit n. */
  function SetBits(data: seq<Word>, n: nat): (s: set<nat>) { set k: nat | k < n && Bit(data, k) }

  /** __builtin_popcount, over the first j bits. */
  function PopCount(w: Word, j: nat := WORD_BITS): (c: nat)
    requires j <= WORD_BITS
    ensures c <= j
  {
    if j == 0 then 0 else PopCount(w, j - 1) + if w[j - 1] then 1 else 0
  }

  lemma SetBitsStep(data: seq<Word>, n: nat)
    ensures |SetBits(data, n + 1)| == |SetBits(data, n)| + if Bit(data, n) then 1 else 0
  {
    hide Bit;
    assert SetBits(data, n + 1) == SetBits(data, n) + if Bit(data, n) then {n} else {};
  }

  lemma {:induction false} PopCountSet(data: seq<Word>, i: nat, j: nat)
    requires i < |data| && j <= WORD_BITS
    ensures |SetBits(data, i * WORD_BITS + j)| == |SetBits(data, i * WORD_BITS)| + PopCount(data[i], j)
  {
    hide SetBits, Bit;
    if j > 0 {
      var n := i * WORD_BITS + j - 1;
      PopCountSet(data, i, j - 1);
      BitAt(data, i, j - 1);
      SetBitsStep(data, n);
    }
  }

  lemma {:induction false} FullCount(data: seq<Word>, i: nat)
    requires i <= |data| && AllFull(data, 0, i)
    ensures |SetBits(data, i * WORD_BITS)| == i * WORD_BITS
  {
    if i > 0 {
      FullCount(data, i - 1);
      PopCountSet(data, i - 1, WORD_BITS);
      FullPop(WORD_BITS);
    }
  }

  lemma {:induction false} FullPop(j: nat)
    requires j <= WORD_BITS
    ensures PopCount(Same(true), j) == j
  {
    if j > 0 { FullPop(j - 1); }
  }

  /** bitmap_count: the number of set bits, provided that the words below the hint are full. */
  method Count(data: seq<Word>, size: nat, firstFree: nat) returns (count: nat)
    requires |data| == Words(size) + 1 && firstFree <= |data| && AllFull(data, 0, firstFree)
    ensures count == |SetBits(data, |data| * WORD_BITS)|
  {
    hide AllFull, SetBits, PopCount;
    count := firstFree * WORD_BITS;
    FullCount(data, firstFree);
    var i := firstFree;
    while i <= Words(size)
      invariant firstFree <= i <= |data| && count == |SetBits(data, i * WORD_BITS)|
    {
      PopCountSet(data, i, WORD_BITS);
      count := count + PopCount(data[i]);
      i := i + 1;
    }
  }
}
