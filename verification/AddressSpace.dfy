/** The three views of an address space in src/mem/vm.c: areas, bitmap and page tables. */
module AddressSpace {
  import opened Common
  import opened Paging
  import opened RangeList
  import Bitmap

  type Data = seq<Bitmap.Word>

  /** VM_BITMAP_SIZE. */
  const SIZE := 0xfffff
  const WORDS := 32768

  function First(a: Area): nat { a.addr / PAGE_SIZE }
  function Num(a: Area): nat { a.size / PAGE_SIZE }

  /** Page p lies in the area. */
  predicate Covers(a: Area, p: nat) { First(a) <= p < First(a) + Num(a) }

  /** The area consists of whole pages of the 4 GiB. */
  predicate Shaped(a: Area) { a.addr % PAGE_SIZE == 0 && a.size % PAGE_SIZE == 0 && a.addr + a.size <= WRAP }

  /** The bitmap has its 32768 words and the word behind them, which the search reads too and which may hold
      anything; page 0 is taken. */
  predicate Framed(data: Data) { |data| == WORDS + 1 && Bitmap.Bit(data, 0) }

  predicate AllShaped(areas: seq<Area>) { forall i :: 0 <= i < |areas| ==> Shaped(areas[i]) }

  /** No page lies in two areas. */
  ghost predicate Apart(areas: seq<Area>) {
    forall i, j, p: nat :: 0 <= i < j < |areas| && Covers(areas[i], p) ==> !Covers(areas[j], p)
  }

  /** Every page of an area is marked, and none is page 0. */
  ghost predicate Marked(data: Data, areas: seq<Area>) {
    forall i, p: nat {:trigger Covers(areas[i], p)} ::
      0 <= i < |areas| && Covers(areas[i], p) ==> p > 0 && Bitmap.Bit(data, p)
  }

  ghost predicate Agree(data: Data, areas: seq<Area>) {
    Framed(data) && AllShaped(areas) && Apart(areas) && Marked(data, areas)
  }

  /** The page tables show page p of an area: the part of its physical memory, or its shard. */
  ghost predicate Shows(t: Tables, a: Area, p: nat)
    requires WellFormed(t) && p < PAGES && Covers(a, p)
  {
    if a.phys != NULL then Walk(t, p) == EntryFor(a.phys, p - First(a), a.flags.rw, a.flags.user)
    else forall s :: s in a.shards && s.addr / PAGE_SIZE == p ==>
      Walk(t, p) == EntryFor(s.phys, 0, a.flags.rw, a.flags.user)
  }

  /** The page tables show every page of every area. */
  ghost predicate Mapped(t: Tables, areas: seq<Area>) {
    && WellFormed(t)
    && forall i, p: nat :: 0 <= i < |areas| && Covers(areas[i], p) && p < PAGES ==> Shows(t, areas[i], p)
  }

  /** So every byte of every area with memory is at its place in that memory. */
  lemma MappedLocated(t: Tables, areas: seq<Area>, i: nat)
    requires Mapped(t, areas) && i < |areas| && Shaped(areas[i]) && areas[i].phys != NULL
    ensures Located(t, areas[i].addr, areas[i].phys, Num(areas[i]), areas[i].flags.rw, areas[i].flags.user)
  {
    hide WellFormed, Walk, LocatedByte;
    var a := areas[i];
    ShapedPages(a);
    hide First, Num, Shaped;
    forall j: nat | j < Num(a) * PAGE_SIZE ensures LocatedByte(t, a.addr, a.phys, j, a.flags.rw, a.flags.user) {
      var p := First(a) + j / PAGE_SIZE;
      assert Covers(a, p) && Shows(t, a, p);
      LocatedEntry(t, First(a), a.phys, j, a.flags.rw, a.flags.user);
    }
  }

  /** And so is every byte of a shard. */
  lemma ShardLocated(t: Tables, areas: seq<Area>, i: nat, s: Shard)
    requires Mapped(t, areas) && i < |areas| && areas[i].phys == NULL && s in areas[i].shards
    requires Covers(areas[i], s.addr / PAGE_SIZE) && s.addr < WRAP
    ensures Located(t, s.addr, s.phys, 1, areas[i].flags.rw, areas[i].flags.user)
  {
    hide WellFormed, Walk, LocatedByte, First, Num;
    var a, p := areas[i], s.addr / PAGE_SIZE;
    assert Shows(t, a, p);
    forall j: nat | j < 1 * PAGE_SIZE ensures LocatedByte(t, p * PAGE_SIZE, s.phys, j, a.flags.rw, a.flags.user) {
      LocatedEntry(t, p, s.phys, j, a.flags.rw, a.flags.user);
    }
    SameLocated(t, s.addr, s.phys, 1, a.flags.rw, a.flags.user);
  }

  /** The page tables map no page that lies in no area. */
  ghost predicate NoStray(t: Tables, areas: seq<Area>) {
    && WellFormed(t)
    && forall p: nat :: p < PAGES && Walk(t, p).present ==> Owned(areas, p)
  }

  ghost predicate Owned(areas: seq<Area>, p: nat) { exists i :: 0 <= i < |areas| && Covers(areas[i], p) }

  lemma OneOwner(areas: seq<Area>, i: nat, j: nat, p: nat)
    requires Apart(areas) && i < |areas| && j < |areas| && i != j && Covers(areas[i], p)
    ensures !Covers(areas[j], p)
  {
  }

  // ---------------------------------------------------------------- adding an area

  lemma ShapedPages(a: Area)
    requires Shaped(a)
    ensures First(a) + Num(a) <= PAGES && a.addr == First(a) * PAGE_SIZE && a.size == Num(a) * PAGE_SIZE
    ensures PagesOf(a.size) == Num(a)
  {
  }

  lemma FreeUnowned(data: Data, areas: seq<Area>, i: nat, p: nat)
    requires Marked(data, areas) && i < |areas| && !Bitmap.Bit(data, p)
    ensures !Covers(areas[i], p)
  {
  }

  lemma AddAgree(data: Data, data': Data, areas: seq<Area>, a: Area)
    requires Agree(data, areas) && Shaped(a)
    requires Bitmap.Clear(data, First(a), First(a) + Num(a))
    requires Bitmap.Filled(data, data', First(a), First(a) + Num(a), true)
    ensures Agree(data', [a] + areas)
  {
    hide Shaped, First, Num;
    ShapedPages(a);
    var all := [a] + areas;
    FilledBits(data, data', First(a), Num(a));
    hide Bitmap.Filled, Bitmap.Bit;
    forall i, j, p: nat | 0 <= i < j < |all| && Covers(all[i], p) ensures !Covers(all[j], p) {
      assert all[j] == areas[j - 1];
      if i > 0 {
        assert all[i] == areas[i - 1];
      } else {
        FreeUnowned(data, areas, j - 1, p);
      }
    }
    forall i, p: nat | 0 <= i < |all| && Covers(all[i], p) ensures p > 0 && Bitmap.Bit(data', p) {
      if i > 0 {
        assert all[i] == areas[i - 1];
      }
    }
    FilledFramed(data, data', First(a), Num(a));
  }

  lemma FilledBits(data: Data, data': Data, lo: nat, num: nat)
    requires Bitmap.Filled(data, data', lo, lo + num, true) && Framed(data) && lo + num <= PAGES
    ensures forall p: nat :: Bitmap.Bit(data, p) ==> Bitmap.Bit(data', p)
    ensures forall p: nat :: lo <= p < lo + num ==> Bitmap.Bit(data', p)
  {
    forall p: nat ensures Bitmap.Bit(data, p) || lo <= p < lo + num ==> Bitmap.Bit(data', p) {
      Bitmap.OffsetBound(p);
    }
  }

  lemma FilledFramed(data: Data, data': Data, lo: nat, num: nat)
    requires Bitmap.Filled(data, data', lo, lo + num, true) && Framed(data) && lo + num <= PAGES
    ensures Framed(data')
  {
    FilledBits(data, data', lo, num);
  }

  lemma AddMapped(t: Tables, t': Tables, areas: seq<Area>, a: Area)
    requires Mapped(t, areas) && Apart([a] + areas) && a.phys != NULL
    requires Painted(t, t', First(a), Num(a), a.phys, a.flags.rw, a.flags.user)
    ensures Mapped(t', [a] + areas)
  {
    hide WellFormed, Walk, First, Num;
    var all := [a] + areas;
    forall i, p: nat | 0 <= i < |all| && Covers(all[i], p) && p < PAGES ensures Shows(t', all[i], p) {
      if i > 0 {
        assert all[i] == areas[i - 1];
        assert Shows(t, all[i], p);
        OneOwner(all, i, 0, p);
      }
    }
  }

  /** An area without memory and shards needs no entry. */
  lemma AddBare(t: Tables, areas: seq<Area>, a: Area)
    requires Mapped(t, areas) && a.phys == NULL && a.shards == []
    ensures Mapped(t, [a] + areas)
  {
    hide WellFormed, Walk, First, Num;
    var all := [a] + areas;
    forall i, p: nat | 0 <= i < |all| && Covers(all[i], p) && p < PAGES ensures Shows(t, all[i], p) {
      if i > 0 {
        assert all[i] == areas[i - 1];
      }
    }
  }

  lemma AddBareNoStray(t: Tables, areas: seq<Area>, a: Area)
    requires NoStray(t, areas)
    ensures NoStray(t, [a] + areas)
  {
    hide WellFormed, Walk, First, Num;
    var all := [a] + areas;
    forall p: nat | p < PAGES && Walk(t, p).present ensures Owned(all, p) {
      var i :| 0 <= i < |areas| && Covers(areas[i], p);
      assert Covers(all[i + 1], p);
    }
  }

  lemma AddNoStray(t: Tables, t': Tables, areas: seq<Area>, a: Area)
    requires NoStray(t, areas)
    requires Painted(t, t', First(a), Num(a), a.phys, a.flags.rw, a.flags.user)
    ensures NoStray(t', [a] + areas)
  {
    hide WellFormed, Walk, First, Num;
    var all := [a] + areas;
    forall p: nat | p < PAGES && Walk(t', p).present ensures Owned(all, p) {
      if Covers(a, p) {
        assert Covers(all[0], p);
      } else {
        assert Walk(t', p) == Walk(t, p);
        var i :| 0 <= i < |areas| && Covers(areas[i], p);
        assert Covers(all[i + 1], p);
      }
    }
  }

  // ---------------------------------------------------------------- dropping an area

  function Drop(areas: seq<Area>, k: nat): (s: seq<Area>)
    requires k < |areas|
    ensures |s| == |areas| - 1 && forall i :: 0 <= i < |s| ==> s[i] == areas[if i < k then i else i + 1]
  {
    areas[..k] + areas[k + 1..]
  }

  lemma DropAgree(data: Data, data': Data, areas: seq<Area>, k: nat)
    requires Agree(data, areas) && k < |areas|
    requires data' == data || Bitmap.Filled(data, data', First(areas[k]), First(areas[k]) + Num(areas[k]), false)
    ensures Agree(data', Drop(areas, k))
  {
    hide Shaped, First, Num;
    var a, rest := areas[k], Drop(areas, k);
    ShapedPages(a);
    ClearedBits(data, data', a);
    hide Bitmap.Filled, Bitmap.Bit;
    forall i, j, p: nat | 0 <= i < j < |rest| && Covers(rest[i], p) ensures !Covers(rest[j], p) {
      assert rest[i] == areas[if i < k then i else i + 1];
      assert rest[j] == areas[if j < k then j else j + 1];
    }
    forall i, p: nat | 0 <= i < |rest| && Covers(rest[i], p) ensures p > 0 && Bitmap.Bit(data', p) {
      var j := if i < k then i else i + 1;
      assert rest[i] == areas[j];
      OneOwner(areas, j, k, p);
    }
    assert !Covers(a, 0);
  }

  lemma ClearedBits(data: Data, data': Data, a: Area)
    requires Framed(data) && First(a) + Num(a) <= PAGES
    requires data' == data || Bitmap.Filled(data, data', First(a), First(a) + Num(a), false)
    ensures |data'| == |data| && forall p: nat :: Bitmap.Bit(data, p) && !Covers(a, p) ==> Bitmap.Bit(data', p)
  {
    forall p: nat | Bitmap.Bit(data, p) && !Covers(a, p) ensures Bitmap.Bit(data', p) {
      Bitmap.OffsetBound(p);
    }
  }

  lemma DropMapped(t: Tables, t': Tables, areas: seq<Area>, k: nat)
    requires Mapped(t, areas) && Apart(areas) && k < |areas|
    requires Erased(t, t', First(areas[k]), Num(areas[k]))
    ensures Mapped(t', Drop(areas, k))
  {
    hide WellFormed, Walk, First, Num;
    var rest := Drop(areas, k);
    forall i, p: nat | 0 <= i < |rest| && Covers(rest[i], p) && p < PAGES ensures Shows(t', rest[i], p) {
      var j := if i < k then i else i + 1;
      assert rest[i] == areas[j];
      assert Shows(t, areas[j], p);
      OneOwner(areas, j, k, p);
    }
  }

  lemma DropNoStray(t: Tables, t': Tables, areas: seq<Area>, k: nat)
    requires NoStray(t, areas) && k < |areas|
    requires Erased(t, t', First(areas[k]), Num(areas[k]))
    ensures NoStray(t', Drop(areas, k))
  {
    hide WellFormed, First, Num;
    var rest := Drop(areas, k);
    forall p: nat | p < PAGES && Walk(t', p).present ensures Owned(rest, p) {
      assert Walk(t', p) == Walk(t, p) && !Covers(areas[k], p);
      var i :| 0 <= i < |areas| && Covers(areas[i], p);
      assert rest[if i < k then i else i - 1] == areas[i];
    }
  }

  // ---------------------------------------------------------------- alloc_virt

  /** The pages alloc_virt may return: where it was told to, or at the first fit from the (hinted) request on. */
  ghost predicate Chosen(data: Data, firstFree: nat, size: nat, request: nat, fixed: bool, page: int) {
    if request != NULL && fixed then page == request / PAGE_SIZE && Bitmap.Clear(data, page, page + size)
    else Bitmap.Searched(data, Bitmap.SearchFrom(firstFree, request / PAGE_SIZE), size, page)
  }

  /** From lo on there is a free run of the size inside the address space. */
  ghost predicate RoomInside(data: Data, lo: nat, size: nat) {
    exists r: nat :: lo <= r && r + Bitmap.Need(size) <= PAGES && Bitmap.Run(data, r, Bitmap.Need(size))
  }

  /** There is none at all, not even with the bits of the word behind the bitmap. */
  ghost predicate NoRoom(data: Data, lo: nat, size: nat) {
    Bitmap.NoRun(data, lo, |data| * Bitmap.WORD_BITS, Bitmap.Need(size))
  }

  /** The search of alloc_virt stays in the address space: a fixed request does, and there is room or none is found. */
  ghost predicate Orderly(data: Data, firstFree: nat, size: nat, request: nat, fixed: bool) {
    if request != NULL && fixed then request / PAGE_SIZE + size <= PAGES
    else
      var lo := Bitmap.SearchFrom(firstFree, request / PAGE_SIZE);
      RoomInside(data, lo, size) || NoRoom(data, lo, size)
  }

  lemma SearchedClear(data: Data, lo: nat, num: nat, r: int)
    requires Bitmap.Searched(data, lo, num, r) && r >= 0
    ensures Bitmap.Clear(data, r, r + num) && Bitmap.Clear(data, r, r + Bitmap.Need(num)) && r >= lo
    ensures r + Bitmap.Need(num) <= |data| * Bitmap.WORD_BITS && !Bitmap.Bit(data, r) && !NoRoom(data, lo, num)
  {
  }

  /** What the search finds lies inside the address space if and only if there is a free run in it. */
  lemma InsideIffRoom(data: Data, lo: nat, num: nat, r: int)
    requires Bitmap.Searched(data, lo, num, r) && r >= 0
    ensures r + Bitmap.Need(num) <= PAGES <==> RoomInside(data, lo, num)
  {
    hide Bitmap.Run;
  }

  lemma ClearPositive(data: Data, r: nat)
    requires Framed(data) && !Bitmap.Bit(data, r)
    ensures r > 0
  {
  }

  /** Where there is none, a clear bit of the word behind the bitmap is handed out as a page: here the second page of
      the address space, which is taken. */
  lemma Overrun() returns (data: Data)
    ensures Framed(data) && !RoomInside(data, 0, 1) && Bitmap.Bit(data, 1)
    ensures Bitmap.Searched(data, Bitmap.SearchFrom(0, 0), 1, PAGES + 1) && (PAGES + 1) * PAGE_SIZE % WRAP == 1 * PAGE_SIZE
  {
    var last := Bitmap.Same(false)[0 := true];
    data := seq(WORDS, _ => Bitmap.Same(true)) + [last];
    forall n: nat | n <= PAGES ensures Bitmap.Bit(data, n) {
      Bitmap.OffsetBound(n);
    }
    Bitmap.OffsetBound(PAGES + 1);
    assert !Bitmap.Bit(data, PAGES + 1);
    forall q: nat | q <= PAGES ensures !Bitmap.Run(data, q, 1) {
      Bitmap.SetBreaks(data, q, 1, q);
    }
  }

  /** alloc_virt: size pages that were free and are now marked, or NULL and an unchanged bitmap. The address is 32 bits
      wide, whatever page the search found. */
  method AllocVirt(data0: Data, firstFree0: nat, size: nat, request: nat, fixed: bool)
    returns (virt: nat, data: Data, firstFree: nat, ghost page: int)
    requires Framed(data0) && request < WRAP && (request != NULL && fixed ==> request / PAGE_SIZE + size <= PAGES)
    ensures page >= 0 ==>
      && virt == page * PAGE_SIZE % WRAP && Chosen(data0, firstFree0, size, request, fixed, page)
      && Bitmap.Clear(data0, page, page + size) && Bitmap.Filled(data0, data, page, page + size, true)
      && (!(request != NULL && fixed) || size > 0 ==> page > 0 && !Bitmap.Bit(data0, page))
    ensures page >= 0 && !(request != NULL && fixed) ==>
      (page + Bitmap.Need(size) <= PAGES <==> RoomInside(data0, Bitmap.SearchFrom(firstFree0, request / PAGE_SIZE), size))
    ensures page < 0 ==>
      && virt == NULL && data == data0 && (forall p: nat :: !Chosen(data0, firstFree0, size, request, fixed, p))
      && (!(request != NULL && fixed) ==> NoRoom(data0, Bitmap.SearchFrom(firstFree0, request / PAGE_SIZE), size))
    ensures size == 0 ==> data == data0
  {
    hide Framed, Bitmap.Bit, Bitmap.Filled, Bitmap.Searched, Bitmap.Hinted, RoomInside, NoRoom;
    data, firstFree := data0, firstFree0;
    var pageNum := request / PAGE_SIZE;
    FramedSize(data);
    if request != NULL && fixed {
      var i := 0;
      while i < size
        invariant 0 <= i <= size && Bitmap.Clear(data, pageNum, pageNum + i)
      {
        if Bitmap.Bit(data, pageNum + i) {
          return NULL, data, firstFree, -1;
        }
        i := i + 1;
      }
      if size > 0 {
        ClearPositive(data, pageNum);
      }
    } else {
      ghost var lo := Bitmap.SearchFrom(firstFree, pageNum);
      var r;
      r, firstFree := Bitmap.Find(data, SIZE, firstFree, pageNum, size);
      SearchedSigns(data, lo, size, r);
      if r == -1 {
        return NULL, data, firstFree, -1;
      }
      SearchedClear(data, lo, size, r);
      InsideIffRoom(data, lo, size, r);
      ClearPositive(data, r);
      pageNum := r;
    }
    page := pageNum;
    virt := pageNum * PAGE_SIZE % WRAP;
    data := Bitmap.Fill(data, pageNum, size, true);
  }

  /** Where the search stays in the address space, so does the result, and NULL means that nothing was found. */
  lemma OrderlyResult(data: Data, firstFree: nat, size: nat, request: nat, fixed: bool, page: int)
    requires Framed(data) && Orderly(data, firstFree, size, request, fixed) && request < WRAP
    requires page >= 0 && Chosen(data, firstFree, size, request, fixed, page)
    requires !(request != NULL && fixed) || size > 0 ==> page > 0
    ensures page + size <= PAGES && page < PAGES && page * PAGE_SIZE % WRAP == page * PAGE_SIZE
    ensures page == 0 ==> size == 0
  {
    hide Bitmap.Searched, RoomInside, NoRoom;
    if !(request != NULL && fixed) {
      var lo := Bitmap.SearchFrom(firstFree, request / PAGE_SIZE);
      SearchedClear(data, lo, size, page);
      InsideIffRoom(data, lo, size, page);
    }
  }

  /** Then something is found if and only if there is room. */
  lemma OrderlyRoom(data: Data, firstFree: nat, size: nat, page: int)
    requires Framed(data) && Orderly(data, firstFree, size, NULL, false)
    requires page >= 0 ==> Chosen(data, firstFree, size, NULL, false, page)
    requires page < 0 ==> NoRoom(data, Bitmap.SearchFrom(firstFree, 0), size)
    ensures page >= 0 <==> RoomInside(data, Bitmap.SearchFrom(firstFree, 0), size)
  {
    var lo := Bitmap.SearchFrom(firstFree, 0);
    hide Bitmap.SearchFrom, Bitmap.Run;
    if page >= 0 {
      SearchedClear(data, lo, size, page);
    }
  }

  lemma FramedSize(data: Data)
    requires Framed(data)
    ensures |data| == Bitmap.Words(SIZE) + 1 == WORDS + 1
  {
  }

  lemma SearchedSigns(data: Data, lo: nat, num: nat, r: int)
    requires Bitmap.Searched(data, lo, num, r)
    ensures r >= -1 && (r == -1 ==> NoRoom(data, lo, num) && forall page: nat :: !Bitmap.Searched(data, lo, num, page))
  {
  }

  // ---------------------------------------------------------------- vm_map

  /** Page p lies in an unsharded area whose physical memory has it in the given frame. */
  ghost predicate Backing(areas: seq<Area>, p: nat, frame: nat) {
    exists i :: 0 <= i < |areas| && BackedBy(areas[i], p, frame)
  }

  predicate BackedBy(a: Area, p: nat, frame: nat) {
    Covers(a, p) && a.phys != NULL && frame == EntryFor(a.phys, p - First(a), false, false).frame
  }

  /** The tables of a consistent address space agree with its areas on the frame behind a page. */
  lemma BackingWalk(t: Tables, areas: seq<Area>, p: nat, frame: nat)
    requires Mapped(t, areas) && Backing(areas, p, frame) && p < PAGES
    ensures Walk(t, p).present && Walk(t, p).frame == frame
  {
    hide WellFormed, Walk;
    var i :| 0 <= i < |areas| && BackedBy(areas[i], p, frame);
    assert Shows(t, areas[i], p);
  }

  /** The i-th page from address base on, around the end of the address space. */
  function PageAfter(base: nat, i: nat): (p: nat)
    ensures p < PAGES
  {
    (base + i * PAGE_SIZE) % WRAP / PAGE_SIZE
  }

  /** The k pages from v on map to the frames behind the pages from base on in another address space; every other
      page is as in t0. */
  ghost predicate Copied(t0: Tables, t: Tables, v: nat, k: nat, source: seq<Area>, base: nat, flags: Flags) {
    && WellFormed(t0) && WellFormed(t)
    && forall p: nat :: p < PAGES ==> CopiedPage(t0, t, v, k, source, base, flags, p)
  }

  ghost predicate CopiedPage(t0: Tables, t: Tables, v: nat, k: nat, source: seq<Area>, base: nat, flags: Flags, p: nat)
    requires WellFormed(t0) && WellFormed(t) && p < PAGES
  {
    if v <= p < v + k then
      && Walk(t, p) == Entry(true, Walk(t, p).frame, flags.rw, flags.user)
      && Backing(source, PageAfter(base, p - v), Walk(t, p).frame)
    else Walk(t, p) == Walk(t0, p)
  }

  /** The i-th page of a window is the memory that some area of the source has for its i-th page. */
  lemma WindowMemory(t0: Tables, t: Tables, v: nat, k: nat, source: seq<Area>, base: nat, flags: Flags, i: nat) returns (a: Area)
    requires Copied(t0, t, v, k, source, base, flags) && i < k && v + k <= PAGES
    ensures var (e, p) := (Walk(t, v + i), PageAfter(base, i));
      && a in source && Covers(a, p) && a.phys != NULL && e.present && e.rw == flags.rw && e.user == flags.user
      && e.frame * PAGE_SIZE == (PageStart(a.phys) + (p - First(a)) * PAGE_SIZE) % WRAP
  {
    hide WellFormed, Walk, PageAfter, First, Num;
    var p := PageAfter(base, i);
    assert CopiedPage(t0, t, v, k, source, base, flags, v + i);
    var j :| 0 <= j < |source| && BackedBy(source[j], p, Walk(t, v + i).frame);
    a := source[j];
    FrameByte(a.phys, (p - First(a)) * PAGE_SIZE);
    WholePages(p - First(a));
  }

  lemma WholePages(n: nat)
    ensures n * PAGE_SIZE / PAGE_SIZE == n && n * PAGE_SIZE % PAGE_SIZE == 0
  {
  }

  lemma CopyMore(t0: Tables, t: Tables, t': Tables, v: nat, k: nat, source: seq<Area>, base: nat, flags: Flags, phys: nat)
    requires Copied(t0, t, v, k, source, base, flags) && Painted(t, t', v + k, 1, phys, flags.rw, flags.user)
    requires Backing(source, PageAfter(base, k), EntryFor(phys, 0, flags.rw, flags.user).frame)
    ensures Copied(t0, t', v, k + 1, source, base, flags)
  {
    hide WellFormed, Walk, Backing, PageAfter, EntryFor;
    var k' := k + 1;
    forall p: nat | p < PAGES ensures CopiedPage(t0, t', v, k', source, base, flags, p) {
      assert CopiedPage(t0, t, v, k, source, base, flags, p);
      EntryForm(phys, flags);
    }
  }

  lemma EntryForm(phys: nat, flags: Flags)
    ensures var e := EntryFor(phys, 0, flags.rw, flags.user); e == Entry(true, e.frame, flags.rw, flags.user)
  {
  }

  lemma StartCopy(t: Tables, v: nat, source: seq<Area>, base: nat, flags: Flags)
    requires WellFormed(t)
    ensures Copied(t, t, v, 0, source, base, flags)
  {
    hide WellFormed, Walk;
  }

  /** ALIGN_DOWN to the page size, on 32 bits. */
  function AlignDown(n: nat): nat { n - n % PAGE_SIZE }

  /** vm_map computes the physical address of a page of the source from the distance of the unaligned start to the
      start of the range, which is negative for all ranges but the first; on 32 bits it comes out right. */
  lemma ShardAddress(a: Area, addr: nat, k: nat)
    requires Shaped(a) && addr < WRAP
    requires Covers(a, PageAfter(AlignDown(addr), k))
    ensures var phys := (a.phys + AlignDown((addr - a.addr) % WRAP) + k * PAGE_SIZE) % WRAP;
      phys == (a.phys + (PageAfter(AlignDown(addr), k) - First(a)) * PAGE_SIZE) % WRAP
  {
    ShapedPages(a);
    var base := AlignDown(addr);
    var page := PageAfter(base, k);
    var rest := k * PAGE_SIZE;
    assert base + rest >= 0;
    WholePage(base, k);
    AlignDistance(addr, a.addr);
    hide First, Num, PageAfter, AlignDown;
    WrapAround(base + rest, a.addr);
    WrapSum(AlignDown((addr - a.addr) % WRAP), base - a.addr, rest);
    assert (base + rest) % WRAP == page * PAGE_SIZE;
    WrapSum(AlignDown((addr - a.addr) % WRAP) + rest, page * PAGE_SIZE - a.addr, a.phys);
  }

  lemma WholePage(base: nat, k: nat)
    requires base % PAGE_SIZE == 0
    ensures (base + k * PAGE_SIZE) % WRAP == PageAfter(base, k) * PAGE_SIZE
  {
  }

  lemma AlignDistance(addr: nat, start: nat)
    requires start % PAGE_SIZE == 0
    ensures AlignDown((addr - start) % WRAP) % WRAP == (AlignDown(addr) - start) % WRAP
    ensures AlignDown(addr) % PAGE_SIZE == 0
  {
    var d, n := addr - start, start / PAGE_SIZE;
    var q, r := d / WRAP, d % WRAP;
    assert r == addr - PAGE_SIZE * (n + q * PAGES);
    PageMultiple(addr, n + q * PAGES);
    assert AlignDown(r) == AlignDown(addr) - start - q * WRAP;
    WrapMultiple(AlignDown(addr) - start, q);
  }

  lemma PageMultiple(x: int, n: int)
    ensures (x - PAGE_SIZE * n) % PAGE_SIZE == x % PAGE_SIZE
  {
  }

  lemma WrapMultiple(x: int, q: int)
    ensures (x - q * WRAP) % WRAP == x % WRAP
  {
  }

  lemma WrapAround(x: int, y: int)
    ensures (x % WRAP - y) % WRAP == (x - y) % WRAP
  {
  }

  lemma WrapSum(x: int, y: int, z: int)
    requires x % WRAP == y % WRAP
    ensures (z + x) % WRAP == (z + y) % WRAP
  {
  }

  // ---------------------------------------------------------------- shards

  function AddShard(a: Area, s: Shard): (a': Area) { a.(shards := [s] + a.shards) }

  /** A new shard changes nothing that the bitmap knows of. */
  lemma ShardAgree(data: Data, areas: seq<Area>, a: Area, s: Shard)
    requires Agree(data, [a] + areas)
    ensures Agree(data, [AddShard(a, s)] + areas)
  {
    hide Framed, Bitmap.Bit, First, Num;
    var was, now := [a] + areas, [AddShard(a, s)] + areas;
    forall i | 0 <= i < |now| ensures now[i] == was[i].(shards := now[i].shards, phys := now[i].phys) {
    }
    hide AddShard;
    SamePlaces(data, was, now);
  }

  lemma SamePlaces(data: Data, was: seq<Area>, now: seq<Area>)
    requires |was| == |now| && Agree(data, was)
    requires forall i :: 0 <= i < |now| ==> now[i] == was[i].(shards := now[i].shards, phys := now[i].phys)
    ensures Agree(data, now)
  {
    hide Framed, Bitmap.Bit, First, Num;
    forall i, p: nat | 0 <= i < |now| ensures Covers(now[i], p) == Covers(was[i], p) {
      SamePlace(was[i], now[i]);
    }
    forall i | 0 <= i < |now| ensures Shaped(now[i]) {
      assert Shaped(was[i]);
    }
    forall i, j, p: nat | 0 <= i < j < |now| && Covers(now[i], p) ensures !Covers(now[j], p) {
      OneOwner(was, i, j, p);
    }
    forall i, p: nat | 0 <= i < |now| && Covers(now[i], p) ensures p > 0 && Bitmap.Bit(data, p) {
      assert Covers(was[i], p);
    }
  }

  lemma SamePlace(a: Area, a': Area)
    requires a' == a.(shards := a'.shards, phys := a'.phys)
    ensures First(a') == First(a) && Num(a') == Num(a)
  {
  }

  /** The shards of the area lie among its first k pages. */
  predicate ShardsWithin(a: Area, k: nat) {
    forall s :: s in a.shards ==> s.addr / PAGE_SIZE < First(a) + k
  }

  lemma ShardMapped(t: Tables, t': Tables, areas: seq<Area>, a: Area, k: nat, phys: nat)
    requires Mapped(t, [a] + areas) && Apart([a] + areas) && a.phys == NULL && ShardsWithin(a, k)
    requires Painted(t, t', First(a) + k, 1, phys, a.flags.rw, a.flags.user)
    requires forall i :: 0 <= i < |areas| ==> !Covers(areas[i], First(a) + k)
    requires a.addr % PAGE_SIZE == 0
    ensures var a' := AddShard(a, Shard(a.addr + k * PAGE_SIZE, phys)); Mapped(t', [a'] + areas) && ShardsWithin(a', k + 1)
  {
    hide WellFormed, Walk, EntryFor;
    var s := Shard(a.addr + k * PAGE_SIZE, phys);
    var a' := AddShard(a, s);
    assert s.addr / PAGE_SIZE == First(a) + k && First(a') == First(a) && Num(a') == Num(a);
    hide First, Num;
    var was, now := [a] + areas, [a'] + areas;
    forall i, p: nat | 0 <= i < |now| && Covers(now[i], p) && p < PAGES ensures Shows(t', now[i], p) {
      assert Covers(was[i], p);
      assert Shows(t, was[i], p);
      if i > 0 {
        assert now[i] == areas[i - 1];
      }
    }
  }

  /** Both addresses are mapped, to the same byte. */
  ghost predicate SameByte(t: Tables, x: nat, t': Tables, y: nat) {
    && WellFormed(t) && WellFormed(t') && x < WRAP && y < WRAP
    && Walk(t, x / PAGE_SIZE).present && Walk(t', y / PAGE_SIZE).present
    && PhysicalByte(t, x) == PhysicalByte(t', y)
  }

  /** The n bytes from x on are the n bytes from y on, around the end of the address space. */
  ghost predicate SameBytes(t: Tables, x: nat, t': Tables, y: nat, n: int) {
    forall j: nat :: j < n ==> SameByteAt(t, x, t', y, j)
  }

  ghost predicate SameByteAt(t: Tables, x: nat, t': Tables, y: nat, j: nat) { SameByte(t, x + j, t', (y + j) % WRAP) }

  /** Byte j of the window and byte j of its source are the same byte. */
  lemma WindowByte(t0: Tables, t: Tables, virt: nat, mapped: nat, source: seq<Area>, srcTables: Tables, srcAddr: nat,
                   flags: Flags, j: nat)
    requires Copied(t0, t, virt / PAGE_SIZE, mapped, source, AlignDown(srcAddr), flags) && Mapped(srcTables, source)
    requires virt % PAGE_SIZE == 0 && virt / PAGE_SIZE + mapped <= PAGES && srcAddr < WRAP
    requires srcAddr % PAGE_SIZE + j < mapped * PAGE_SIZE
    ensures SameByteAt(t, virt + srcAddr % PAGE_SIZE, srcTables, srcAddr, j)
  {
    var x, y := virt + srcAddr % PAGE_SIZE + j, (srcAddr + j) % WRAP;
    var i := (srcAddr % PAGE_SIZE + j) / PAGE_SIZE;
    WindowPage(virt, srcAddr, j);
    hide Walk, WellFormed, Backing, PageAfter, AlignDown;
    var p := virt / PAGE_SIZE + i;
    assert CopiedPage(t0, t, virt / PAGE_SIZE, mapped, source, AlignDown(srcAddr), flags, p);
    BackingWalk(srcTables, source, PageAfter(AlignDown(srcAddr), i), Walk(t, p).frame);
  }

  lemma WindowPage(virt: nat, srcAddr: nat, j: nat)
    requires virt % PAGE_SIZE == 0
    ensures var i := (srcAddr % PAGE_SIZE + j) / PAGE_SIZE;
      && (virt + srcAddr % PAGE_SIZE + j) / PAGE_SIZE == virt / PAGE_SIZE + i
      && (srcAddr + j) % WRAP / PAGE_SIZE == PageAfter(AlignDown(srcAddr), i)
      && (virt + srcAddr % PAGE_SIZE + j) % PAGE_SIZE == (srcAddr + j) % WRAP % PAGE_SIZE
  {
    var base, inside := AlignDown(srcAddr), srcAddr % PAGE_SIZE;
    assert srcAddr == base + inside && base % PAGE_SIZE == 0;
    hide AlignDown, PageAfter;
    var i, rest := (inside + j) / PAGE_SIZE, (inside + j) % PAGE_SIZE;
    assert inside + j == i * PAGE_SIZE + rest;
    PageBase(base, i);
    PageBase(virt, i);
    PageAfterIs(base, i);
    PageThenByte(base + i * PAGE_SIZE, rest);
    InPage(virt + i * PAGE_SIZE, rest);
  }

  lemma PageBase(x: nat, i: nat)
    requires x % PAGE_SIZE == 0
    ensures (x + i * PAGE_SIZE) % PAGE_SIZE == 0 && (x + i * PAGE_SIZE) / PAGE_SIZE == x / PAGE_SIZE + i
  {
  }

  lemma PageAfterIs(base: nat, i: nat)
    ensures PageAfter(base, i) == (base + i * PAGE_SIZE) % WRAP / PAGE_SIZE
  {
  }

  lemma InPage(x: nat, rest: nat)
    requires x % PAGE_SIZE == 0 && rest < PAGE_SIZE
    ensures (x + rest) / PAGE_SIZE == x / PAGE_SIZE && (x + rest) % PAGE_SIZE == rest
  {
  }

  lemma PageThenByte(x: nat, rest: nat)
    requires x % PAGE_SIZE == 0 && rest < PAGE_SIZE
    ensures (x + rest) % WRAP == x % WRAP + rest
    ensures (x + rest) % WRAP / PAGE_SIZE == x % WRAP / PAGE_SIZE && (x + rest) % WRAP % PAGE_SIZE == rest
  {
    var n := x / PAGE_SIZE;
    var q, m := n / PAGES, n % PAGES;
    assert x == q * WRAP + m * PAGE_SIZE;
    assert m <= PAGES - 1;
    WrapMultiple(x + rest, q);
    WrapMultiple(x, q);
    assert (x + rest) % WRAP == m * PAGE_SIZE + rest && x % WRAP == m * PAGE_SIZE;
  }

  /** A window leaves the tables free of stray pages unless it was opened with no pages of its own. */
  lemma WindowStray(areas: seq<Area>, a: Area, n: nat, t0: Tables, t: Tables, k: nat, source: seq<Area>, base: nat, flags: Flags)
    requires NoStray(t0, areas) && Copied(t0, t, First(a), k, source, base, flags)
    requires n == (if Num(a) == 0 then 1 else Num(a)) && k <= n && First(a) + n <= PAGES
    requires forall i, p: nat :: 0 <= i < |areas| && First(a) <= p < First(a) + n ==> !Covers(areas[i], p)
    ensures NoStray(t, [a] + areas) <==> Num(a) > 0 || k == 0
  {
    hide WellFormed, Walk, First, Num, Backing, PageAfter;
    var all := [a] + areas;
    if Num(a) > 0 || k == 0 {
      forall p: nat | p < PAGES && Walk(t, p).present ensures Owned(all, p) {
        assert CopiedPage(t0, t, First(a), k, source, base, flags, p);
        if First(a) <= p < First(a) + k {
          assert Covers(all[0], p);
        } else {
          var i :| 0 <= i < |areas| && Covers(areas[i], p);
          assert Covers(all[i + 1], p);
        }
      }
    } else {
      var p := First(a);
      assert CopiedPage(t0, t, First(a), k, source, base, flags, p);
      assert !Owned(all, p) by {
        forall i | 0 <= i < |all| ensures !Covers(all[i], p) {
          if i > 0 { assert all[i] == areas[i - 1]; }
        }
      }
    }
  }

  // ---------------------------------------------------------------- vm_pagedir

  /** The pages of all areas together. */
  function TotalPages(areas: seq<Area>): nat {
    if areas == [] then 0 else Num(areas[0]) + TotalPages(areas[1..])
  }

  /** The tables show the first k areas and nothing else. */
  lemma AppendMapped(t: Tables, t': Tables, areas: seq<Area>, k: nat)
    requires k < |areas| && Mapped(t, areas[..k]) && NoStray(t, areas[..k]) && Apart(areas) && areas[k].shards == []
    requires Painted(t, t', First(areas[k]), Num(areas[k]), areas[k].phys, areas[k].flags.rw, areas[k].flags.user)
    ensures Mapped(t', areas[..k + 1]) && NoStray(t', areas[..k + 1])
  {
    hide WellFormed, Walk, First, Num;
    var was, now := areas[..k], areas[..k + 1];
    forall i, p: nat | 0 <= i < |now| && Covers(now[i], p) && p < PAGES ensures Shows(t', now[i], p) {
      if i < k {
        assert now[i] == was[i];
        assert Shows(t, was[i], p);
        OneOwner(areas, i, k, p);
      }
    }
    forall p: nat | p < PAGES && Walk(t', p).present ensures Owned(now, p) {
      if Covers(areas[k], p) {
        assert Covers(now[k], p);
      } else {
        var i :| 0 <= i < |was| && Covers(was[i], p);
        assert Covers(now[i], p);
      }
    }
  }

  lemma NothingMapped()
    ensures Mapped(Tables(BlankTable(), map[]), []) && NoStray(Tables(BlankTable(), map[]), [])
  {
  }
}
