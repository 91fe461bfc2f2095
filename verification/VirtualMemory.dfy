/** Address spaces and the operations on them of src/mem/vm.c. */
module VirtualMemory {
  import opened Common
  import opened Paging
  import opened RangeList
  import opened AddressSpace
  import Bitmap

  /** No area is made of shards. */
  predicate Plain(areas: seq<Area>) { forall i :: 0 <= i < |areas| ==> areas[i].shards == [] }

  /** The three views of one address space agree. Without a page directory there is nothing to show. */
  ghost predicate Consistent(data: Data, areas: seq<Area>, hasDir: bool, t: Tables) {
    Agree(data, areas) && WellFormed(t) && if hasDir then Mapped(t, areas) else Plain(areas)
  }

  /** The tables now show the area, if there are tables and it has memory, and every other page as before. */
  ghost predicate Entered(hasDir: bool, t0: Tables, t: Tables, a: Area) {
    if hasDir && a.phys != NULL then Painted(t0, t, First(a), Num(a), a.phys, a.flags.rw, a.flags.user) else t == t0
  }

  /** Every byte of such an area is at its place in the memory it was given. */
  lemma EnteredLocated(t0: Tables, t: Tables, a: Area)
    requires Entered(true, t0, t, a) && a.phys != NULL && Shaped(a)
    ensures Located(t, a.addr, a.phys, Num(a), a.flags.rw, a.flags.user)
  {
    ShapedPages(a);
    hide Painted, Located, First, Num, Shaped;
    PaintedLocated(t0, t, First(a), Num(a), a.phys, a.flags.rw, a.flags.user);
  }

  lemma AddConsistent(data: Data, data': Data, areas: seq<Area>, hasDir: bool, t: Tables, t': Tables, a: Area)
    requires Consistent(data, areas, hasDir, t) && Shaped(a) && a.shards == []
    requires Bitmap.Clear(data, First(a), First(a) + Num(a))
    requires Bitmap.Filled(data, data', First(a), First(a) + Num(a), true)
    requires Entered(hasDir, t, t', a)
    ensures Consistent(data', [a] + areas, hasDir, t')
  {
    hide Agree, Mapped, Painted, Walk, WellFormed, Bitmap.Clear, Bitmap.Filled;
    AddAgree(data, data', areas, a);
    if hasDir && a.phys != NULL {
      ApartOf(data', [a] + areas);
      AddMapped(t, t', areas, a);
      PaintedForm(t, t', First(a), Num(a), a.phys, a.flags.rw, a.flags.user);
    } else if hasDir {
      AddBare(t, areas, a);
    }
  }

  /** An area that is entered brings no stray pages. */
  lemma EnteredNoStray(hasDir: bool, t: Tables, t': Tables, areas: seq<Area>, a: Area)
    requires Entered(hasDir, t, t', a) && hasDir && NoStray(t, areas)
    ensures NoStray(t', [a] + areas)
  {
    hide NoStray, Painted, WellFormed, First, Num;
    if a.phys != NULL {
      AddNoStray(t, t', areas, a);
    } else {
      AddBareNoStray(t, areas, a);
    }
  }

  /** The pages of the area were free, are marked now, and show its memory if there are tables and there is some. */
  ghost predicate Claimed(d0: Data, data: Data, hasDir: bool, t0: Tables, t: Tables, a: Area) {
    && Shaped(a) && a.shards == [] && Bitmap.Clear(d0, First(a), First(a) + Num(a))
    && Bitmap.Filled(d0, data, First(a), First(a) + Num(a), true) && Entered(hasDir, t0, t, a)
  }

  lemma ClaimedLocated(d0: Data, data: Data, hasDir: bool, t0: Tables, t: Tables, a: Area)
    requires Claimed(d0, data, hasDir, t0, t, a)
    ensures hasDir && a.phys != NULL ==> Located(t, a.addr, a.phys, Num(a), a.flags.rw, a.flags.user)
  {
    hide Located, Entered, Shaped, Num, First, Bitmap.Clear, Bitmap.Filled;
    if hasDir && a.phys != NULL {
      EnteredLocated(t0, t, a);
    }
  }

  /** The area as it is listed when its memory was lost on the way. */
  function Listed(a: Area, lost: bool): (b: Area) { if lost then a.(phys := NULL) else a }

  lemma Forget(data: Data, areas: seq<Area>, hasDir: bool, t: Tables, a: Area)
    requires Consistent(data, [a] + areas, hasDir, t) && a.shards == []
    ensures Consistent(data, [a.(phys := NULL)] + areas, hasDir, t)
  {
    hide WellFormed, Walk, Agree, First, Num;
    var was, now := [a] + areas, [a.(phys := NULL)] + areas;
    forall i | 0 <= i < |now| ensures now[i] == was[i].(shards := now[i].shards, phys := now[i].phys) {
    }
    SamePlaces(data, was, now);
    if hasDir {
      forall i, p: nat | 0 <= i < |now| && Covers(now[i], p) && p < PAGES ensures Shows(t, now[i], p) {
        if i > 0 {
          assert now[i] == was[i];
        }
      }
    } else {
      forall i | 0 <= i < |now| ensures now[i].shards == [] {
        assert was[i].shards == [];
      }
    }
  }

  lemma ForgetNoStray(t: Tables, areas: seq<Area>, a: Area)
    requires NoStray(t, [a] + areas)
    ensures NoStray(t, [a.(phys := NULL)] + areas)
  {
    hide WellFormed, Walk, First, Num;
    var was, now := [a] + areas, [a.(phys := NULL)] + areas;
    forall p: nat | p < PAGES && Walk(t, p).present ensures Owned(now, p) {
      var i :| 0 <= i < |was| && Covers(was[i], p);
      SamePlace(was[i], now[i]);
      assert Covers(now[i], p);
    }
  }

  // ---------------------------------------------------------------- zeroing through the kernel's address space

  /** How many of the size pages from page on are given back: RDIV(size, PAGE_SIZE) of them, or none if they end behind
      the bitmap. */
  function Returned(page: nat, size: nat): (k: nat)
    ensures k <= size
  {
    if page + PagesOf(size) > SIZE then 0 else PagesOf(size)
  }

  /** What the detour leaves in the kernel's address space. */
  ghost predicate Passed(d0: Data, firstFree: nat, d: Data, t0: Tables, t: Tables, size: nat) {
    if RoomInside(d0, Bitmap.SearchFrom(firstFree, 0), size) then
      exists page: nat ::
        && Chosen(d0, firstFree, size, NULL, false, page) && Erased(t0, t, page, size)
        && Bitmap.Filled(d0, d, page + Returned(page, size), page + size, true)
    else d == d0 && t == t0
  }

  ghost predicate SameWalks(t0: Tables, t: Tables) {
    && WellFormed(t0) && WellFormed(t)
    && forall p: nat :: p < PAGES ==> Walk(t, p) == Walk(t0, p)
  }

  /** The detour leaves no mark behind if and only if it zeroes at most one page, and that below the last one. */
  lemma MarksStay(d0: Data, d: Data, page: nat, size: nat)
    requires Framed(d0) && page + size <= PAGES && Bitmap.Clear(d0, page, page + size)
    requires Bitmap.Filled(d0, d, page + Returned(page, size), page + size, true)
    ensures (forall p: nat :: p < |d0| * Bitmap.WORD_BITS ==> Bitmap.Bit(d, p) == Bitmap.Bit(d0, p)) <==>
      size == 0 || (size == 1 && page < SIZE)
  {
    hide Bitmap.Bit;
    if size > 1 || (size == 1 && page >= SIZE) {
      var p := page + size - 1;
      assert Returned(page, size) < size;
      assert Bitmap.Bit(d, p) && !Bitmap.Bit(d0, p);
    }
  }

  lemma PassedBy(d: Data, firstFree: nat, t: Tables, size: nat)
    requires !RoomInside(d, Bitmap.SearchFrom(firstFree, 0), size)
    ensures Passed(d, firstFree, d, t, t, size)
  {
  }

  lemma PassedThrough(d0: Data, firstFree: nat, d: Data, t0: Tables, t: Tables, page: nat, size: nat)
    requires RoomInside(d0, Bitmap.SearchFrom(firstFree, 0), size) && Chosen(d0, firstFree, size, NULL, false, page)
    requires Erased(t0, t, page, size) && Bitmap.Filled(d0, d, page + Returned(page, size), page + size, true)
    ensures Passed(d0, firstFree, d, t0, t, size)
  {
    hide RoomInside, Chosen, Erased, Bitmap.Filled, Bitmap.SearchFrom, Returned;
  }

  lemma WalksItself(t: Tables)
    requires WellFormed(t)
    ensures SameWalks(t, t)
  {
  }

  lemma FreshNone(t: Tables)
    ensures Fresh(t, [])
  {
  }

  lemma PaintThenErase(t0: Tables, t: Tables, t': Tables, first: nat, num: nat, phys: nat, rw: bool, user: bool)
    requires Painted(t0, t, first, num, phys, rw, user) && Erased(t, t', first, num)
    ensures Erased(t0, t', first, num)
  {
    hide Walk, WellFormed, EntryFor;
  }

  lemma MarksLeft(d0: Data, d: Data, d': Data, page: nat, size: nat)
    requires Bitmap.Clear(d0, page, page + size) && Bitmap.Filled(d0, d, page, page + size, true)
    requires if page + PagesOf(size) > SIZE then d' == d else Bitmap.Filled(d, d', page, page + PagesOf(size), false)
    ensures Bitmap.Filled(d0, d', page + Returned(page, size), page + size, true)
  {
    hide Bitmap.Bit;
    assert PagesOf(size) <= size;
    hide PagesOf;
    forall n: nat | n < |d'| * Bitmap.WORD_BITS
      ensures Bitmap.Bit(d', n) == if page + Returned(page, size) <= n < page + size then true else Bitmap.Bit(d0, n)
    {
    }
  }

  /** More marks, and pages unmapped that no area has, leave an address space consistent. */
  lemma StillConsistent(d0: Data, d: Data, areas: seq<Area>, t0: Tables, t: Tables, page: nat, size: nat)
    requires Consistent(d0, areas, true, t0) && Bitmap.Clear(d0, page, page + size) && page + size <= PAGES
    requires Erased(t0, t, page, size) && Bitmap.Filled(d0, d, page + Returned(page, size), page + size, true)
    ensures Consistent(d, areas, true, t)
    ensures NoStray(t0, areas) ==> SameWalks(t0, t)
  {
    hide Bitmap.Bit, Walk, WellFormed, First, Num, Shaped;
    var k := Returned(page, size);
    FilledFramed(d0, d, page + k, size - k);
    FilledBits(d0, d, page + k, size - k);
    forall i, p: nat | 0 <= i < |areas| && page <= p < page + size ensures !Covers(areas[i], p) {
      FreeUnowned(d0, areas, i, p);
    }
    hide Bitmap.Filled, Bitmap.Clear, Returned;
    forall i, p: nat | 0 <= i < |areas| && Covers(areas[i], p) && p < PAGES ensures Shows(t, areas[i], p) {
      assert Shows(t0, areas[i], p);
    }
    if NoStray(t0, areas) {
      UnmappedThere(t0, t, areas, page, size);
    }
  }

  lemma UnmappedThere(t0: Tables, t: Tables, areas: seq<Area>, page: nat, size: nat)
    requires NoStray(t0, areas) && Erased(t0, t, page, size)
    requires forall i, p: nat :: 0 <= i < |areas| && page <= p < page + size ==> !Covers(areas[i], p)
    ensures SameWalks(t0, t)
  {
    hide WellFormed, Covers;
    forall p: nat | p < PAGES ensures Walk(t, p) == Walk(t0, p) {
      if page <= p < page + size {
        assert !Owned(areas, p);
        AbsentWalk(t0, p);
      }
    }
  }

  lemma AbsentWalk(t: Tables, p: nat)
    requires WellFormed(t) && p < PAGES && !Walk(t, p).present
    ensures Walk(t, p) == UNMAPPED
  {
  }

  lemma OrderlyFixed(data: Data, firstFree: nat, size: nat, request: nat, fixed: bool)
    requires Orderly(data, firstFree, size, request, fixed)
    ensures request != NULL && fixed ==> request / PAGE_SIZE + size <= PAGES
  {
  }

  lemma ApartOf(data: Data, areas: seq<Area>)
    requires Agree(data, areas)
    ensures Apart(areas) && Framed(data)
  {
  }

  /** Area k is gone from the list, from the tables and, unless it ends past the bitmap, from the bitmap; nothing else
      changed. */
  ghost predicate Freed(data: Data, data': Data, areas: seq<Area>, areas': seq<Area>, t: Tables, t': Tables, k: nat) {
    && k < |areas| && areas' == Drop(areas, k)
    && Erased(t, t', First(areas[k]), Num(areas[k]))
    && (if First(areas[k]) + Num(areas[k]) > SIZE then data' == data
        else Bitmap.Filled(data, data', First(areas[k]), First(areas[k]) + Num(areas[k]), false))
    && (NoStray(t, areas) ==> NoStray(t', areas'))
  }

  lemma PageOf(a: Area)
    ensures First(a) == a.addr / PAGE_SIZE && Num(a) == a.size / PAGE_SIZE
  {
  }

  /** The pages of a freed area can be allocated again if and only if they end by page 0xfffff; the last page of the
      address space and all that were allocated with it stay marked. */
  lemma PagesReturn(data: Data, data': Data, areas: seq<Area>, areas': seq<Area>, hasDir: bool, t: Tables, t': Tables, k: nat)
    requires Consistent(data, areas, hasDir, t) && Freed(data, data', areas, areas', t, t', k) && Num(areas[k]) > 0
    ensures Bitmap.Clear(data', First(areas[k]), First(areas[k]) + Num(areas[k])) <==> First(areas[k]) + Num(areas[k]) <= SIZE
  {
    hide WellFormed, Mapped, NoStray, Erased, Bitmap.Bit, First, Num, Plain;
    var a := areas[k];
    ShapedPages(a);
    if First(a) + Num(a) <= SIZE {
      ClearedRun(data, data', First(a), First(a) + Num(a));
    } else {
      assert Covers(a, First(a));
    }
  }

  lemma ClearedRun(data: Data, data': Data, lo: nat, hi: nat)
    requires Framed(data) && Bitmap.Filled(data, data', lo, hi, false) && hi <= PAGES
    ensures Bitmap.Clear(data', lo, hi)
  {
    hide Bitmap.Bit;
  }

  lemma FreedViews(data: Data, data': Data, areas: seq<Area>, areas': seq<Area>, t: Tables, t': Tables, k: nat)
    requires Consistent(data, areas, true, t) && k < |areas| && areas' == areas[..k] + areas[k + 1..]
    requires Erased(t, t', First(areas[k]), Num(areas[k]))
    requires if First(areas[k]) + Num(areas[k]) > SIZE then data' == data
      else Bitmap.Filled(data, data', First(areas[k]), First(areas[k]) + Num(areas[k]), false)
    ensures Freed(data, data', areas, areas', t, t', k) && Consistent(data', areas', true, t')
  {
    hide Agree, WellFormed, Mapped, NoStray, Erased, Bitmap.Filled, First, Num;
    DropAgree(data, data', areas, k);
    ErasedForm(t, t', First(areas[k]), Num(areas[k]));
    ApartOf(data, areas);
    DropMapped(t, t', areas, k);
    if NoStray(t, areas) {
      DropNoStray(t, t', areas, k);
    }
  }

  /** struct vm_ctx. */
  class Context {
    var data: Data
    var firstFree: nat
    var head: nat
    var nodes: map<nat, Node>
    var hasDir: bool
    var tables: Tables
    // the pointers of the range list, first to last
    ghost var order: seq<nat>

    ghost function View(): (s: seq<Area>) reads this { Areas(nodes, order) }

    ghost predicate Valid() reads this {
      Linked(nodes, head, order) && Consistent(data, View(), hasDir, tables)
    }

    /** vm_new: an empty address space whose page 0 is taken. What the quarter of the bitmap that is cleared does not
        reach, and the hint, are what memory held before. */
    constructor (withDir: bool, dir: Tables, memory: Data, hint: nat)
      requires WellFormed(dir) && |memory| == WORDS + 1
      ensures Valid() && View() == [] && hasDir == withDir && tables == dir && firstFree == hint
      ensures forall p: nat :: p < |data| * Bitmap.WORD_BITS ==>
        (Bitmap.Bit(data, p) <==> p == 0 || (p >= 8 * WORDS && Bitmap.Bit(memory, p)))
    {
      var cleared := Bitmap.ClearAll(memory, SIZE);
      var marked := Bitmap.Fill(cleared, 0, 1, true);
      data, firstFree, head, nodes, hasDir, tables, order := marked, hint, NULL, map[], withDir, dir, [];
      new;
      hide Bitmap.Bit;
      assert Bitmap.Bit(marked, 0);
    }

    /** The paging part of setup_phys, which is left out where there is no memory. */
    method Enter(a: Area, supply: seq<nat>)
      requires WellFormed(tables) && Shaped(a) && Fresh(tables, supply) && (|supply| >= Num(a) || Complete(tables))
      modifies this`tables
      ensures Entered(hasDir, old(tables), tables, a)
    {
      hide WellFormed, Painted, Fresh;
      ShapedPages(a);
      if hasDir && a.phys != NULL {
        var rest;
        tables, rest := SetRange(tables, a.addr, a.phys, a.size, a.flags.rw, a.flags.user, supply);
      }
    }

    /** The first half of vm_alloc_at: the virtual pages are marked and, if there is memory, mapped to it. */
    method Claim(size: nat, request: nat, fixed: bool, phys: nat, flags: Flags, supply: seq<nat>) returns (virt: nat)
      requires Valid() && request < WRAP && Orderly(data, firstFree, size, request, fixed)
      requires Fresh(tables, supply) && (|supply| >= size || Complete(tables))
      modifies this`data, this`firstFree, this`tables
      ensures virt == NULL ==>
        && data == old(data) && tables == old(tables)
        && (size > 0 ==> forall page: nat :: !Chosen(old(data), old(firstFree), size, request, fixed, page))
      ensures virt != NULL ==>
        && Claimed(old(data), data, hasDir, old(tables), tables, Area(virt, size * PAGE_SIZE, phys, [], flags))
        && Chosen(old(data), old(firstFree), size, request, fixed, virt / PAGE_SIZE)
    {
      hide Linked, Areas, Agree, WellFormed, Mapped, Painted, Entered, Chosen, Fresh, Orderly, Shaped, First, Num,
        Bitmap.Clear, Bitmap.Filled;
      ApartOf(data, View());
      hide Framed, Apart;
      var data', firstFree';
      ghost var page;
      OrderlyFixed(data, firstFree, size, request, fixed);
      virt, data', firstFree', page := AllocVirt(data, firstFree, size, request, fixed);
      if page >= 0 {
        OrderlyResult(data, firstFree, size, request, fixed, page);
      }
      firstFree := firstFree';
      data := data';
      if virt == NULL {
        return;
      }
      var a := Area(virt, size * PAGE_SIZE, phys, [], flags);
      PageTimes(page);
      RunShaped(a, page, size);
      Enter(a, supply);
    }

    /** The second half: the range is listed, with its memory or, where that could not be zeroed, without it. */
    method Record(a: Area, lost: bool, spare: nat, ghost d0: Data, ghost t0: Tables)
      requires Linked(nodes, head, order) && Consistent(d0, View(), hasDir, t0) && Claimed(d0, data, hasDir, t0, tables, a)
      requires spare != NULL && spare !in nodes
      modifies this`nodes, this`head, this`order
      ensures Valid() && order == [spare] + old(order) && View() == [Listed(a, lost)] + old(View())
      ensures hasDir && NoStray(t0, old(View())) ==> NoStray(tables, View())
    {
      hide Linked, Areas, Consistent, Entered, NoStray, Shaped, First, Num, Bitmap.Clear, Bitmap.Filled;
      AddConsistent(d0, data, View(), hasDir, t0, tables, a);
      if lost {
        Forget(data, View(), hasDir, tables, a);
      }
      if hasDir && NoStray(t0, View()) {
        EnteredNoStray(hasDir, t0, tables, View(), a);
        ForgetNoStray(tables, View(), a);
      }
      nodes, head := Insert(nodes, head, spare, Listed(a, lost), order);
      order := [spare] + order;
    }

    /** The part of setup_phys that zeroes pages through the kernel's address space: they are mapped there for a while. No
        translation changes in the end, but the pages they were mapped at stay marked, all but those that RDIV(size,
        PAGE_SIZE) counts. */
    method ZeroThrough(size: nat, phys: nat) returns (ok: bool)
      requires Valid() && hasDir && Complete(tables) && Orderly(data, firstFree, size, NULL, false)
      modifies this`data, this`firstFree, this`tables
      ensures Valid() && hasDir && Passed(old(data), old(firstFree), data, old(tables), tables, size)
      ensures ok <==> RoomInside(old(data), Bitmap.SearchFrom(old(firstFree), 0), size)
      ensures old(NoStray(tables, View())) ==> SameWalks(old(tables), tables)
    {
      hide Linked, Areas, Consistent, WellFormed, Complete, Chosen, Orderly, RoomInside, NoRoom, NoStray, Painted, Erased, Passed,
        Bitmap.Clear, Bitmap.Filled, Bitmap.SearchFrom, SameWalks, Framed;
      FramedOf(data, View(), hasDir, tables);
      FramedSize(data);
      ghost var d0, ff0, t0 := data, firstFree, tables;
      var data', firstFree', zeroAddr;
      ghost var page;
      zeroAddr, data', firstFree', page := AllocVirt(data, firstFree, size, NULL, false);
      OrderlyRoom(data, firstFree, size, page);
      if page >= 0 {
        OrderlyResult(data, firstFree, size, NULL, false, page);
        PageTimes(page);
      }
      firstFree := firstFree';
      if zeroAddr == NULL {
        PassedBy(d0, ff0, t0, size);
        WalksItself(t0);
        return false;
      }
      ok := true;
      PageTimes(size);
      assert PagesOf(size * PAGE_SIZE) == size;
      FreshNone(tables);
      var t, rest := SetRange(tables, zeroAddr, phys, size * PAGE_SIZE, true, false, []);
      PaintedForm(tables, t, page, size, phys, true, false);
      var t' := ClearRange(t, zeroAddr, size * PAGE_SIZE);
      PaintThenErase(tables, t, t', page, size, phys, true, false);
      tables := t';
      Bitmap.FilledLength(data, data', page, page + size, true);
      var data'', firstFree'' := Bitmap.ClearBits(data', SIZE, firstFree, zeroAddr / PAGE_SIZE, PagesOf(size));
      MarksLeft(data, data', data'', page, size);
      data, firstFree := data'', firstFree'';
      PassedThrough(d0, ff0, data, t0, tables, page, size);
      StillConsistent(d0, data, View(), t0, tables, page, size);
    }

    /** vm_alloc_at for size pages: NULL and nothing but the hint changed, or a new area of formerly free pages at the
        head of the list. palloc is what the page allocator gives when the caller brings no memory; if it gives none, the
        area is there all the same, but the tables do not show it. Pages that are to be zeroed are mapped into the
        kernel's address space in between; where that has no room, the area forgets its memory. */
    method AllocAt(kernel: Context, size: nat, request: nat, fixed: bool, phys0: nat, palloc: nat, flags: Flags, zero: bool, spare: nat,
                   supply: seq<nat>)
      returns (virt: nat, ghost lost: bool)
      requires Valid() && request < WRAP
      requires Orderly(data, firstFree, size, request, fixed)
      requires spare != NULL && spare !in nodes && Fresh(tables, supply) && (|supply| >= size || Complete(tables))
      requires zero && kernel != this ==>
        kernel.Valid() && kernel.hasDir && Complete(kernel.tables) && Orderly(kernel.data, kernel.firstFree, size, NULL, false)
      modifies this, kernel`data, kernel`firstFree, kernel`tables
      ensures Valid() && hasDir == old(hasDir)
      ensures virt == NULL ==>
        && View() == old(View()) && data == old(data) && tables == old(tables) && order == old(order)
        && (size > 0 ==> forall page: nat :: !Chosen(old(data), old(firstFree), size, request, fixed, page))
      ensures virt != NULL ==>
        var a := Area(virt, size * PAGE_SIZE, if phys0 == NULL then palloc else phys0, [], flags);
        && Chosen(old(data), old(firstFree), size, request, fixed, virt / PAGE_SIZE) && Num(a) == size
        && Claimed(old(data), data, hasDir, old(tables), tables, a)
        && order == [spare] + old(order) && View() == [Listed(a, lost)] + old(View())
        && (hasDir && a.phys != NULL ==> Located(tables, virt, a.phys, size, flags.rw, flags.user))
      ensures hasDir && old(NoStray(tables, View())) ==> NoStray(tables, View())
      ensures
        if virt != NULL && zero && kernel != this && (phys0 != NULL || palloc != NULL) then
          && kernel.Valid() && Passed(old(kernel.data), old(kernel.firstFree), kernel.data, old(kernel.tables), kernel.tables, size)
          && (lost <==> !RoomInside(old(kernel.data), Bitmap.SearchFrom(old(kernel.firstFree), 0), size))
          && (old(NoStray(kernel.tables, kernel.View())) ==> SameWalks(old(kernel.tables), kernel.tables))
        else !lost && (kernel != this ==> unchanged(kernel))
    {
      hide Linked, Areas, Consistent, Complete, Chosen, Fresh, NoStray, Orderly, Claimed, RoomInside, Bitmap.SearchFrom, Passed, SameWalks, Located;
      lost := false;
      ghost var t0, d0 := tables, data;
      var phys := if phys0 == NULL then palloc else phys0;
      virt := Claim(size, request, fixed, phys, flags, supply);
      if virt == NULL {
        return;
      }
      var a := Area(virt, size * PAGE_SIZE, phys, [], flags);
      PageTimes(size);
      ClaimedLocated(d0, data, hasDir, t0, tables, a);
      var ok := true;
      if zero && kernel != this && phys != NULL {
        ok := kernel.ZeroThrough(size, phys);
        lost := !ok;
      }
      Record(a, !ok, spare, d0, t0);
    }

    /** What vm_alloc_many does to one of its contexts: the pages are marked, shown and listed. */
    method Adopt(a: Area, spare: nat, supply: seq<nat>)
      requires Valid() && Shaped(a) && a.shards == [] && Bitmap.Clear(data, First(a), First(a) + Num(a))
      requires spare != NULL && spare !in nodes && Fresh(tables, supply) && (|supply| >= Num(a) || Complete(tables))
      modifies this
      ensures Valid() && hasDir == old(hasDir) && order == [spare] + old(order) && View() == [a] + old(View())
      ensures Entered(hasDir, old(tables), tables, a)
      ensures Bitmap.Filled(old(data), data, First(a), First(a) + Num(a), true)
      ensures hasDir && old(NoStray(tables, View())) ==> NoStray(tables, View())
    {
      hide Linked, Areas, Agree, WellFormed, Mapped, Painted, Entered, Fresh, NoStray, Shaped, Framed, First, Num, Bitmap.Clear, Bitmap.Filled;
      ghost var t0, d0 := tables, data;
      ShapedPages(a);
      FramedOf(data, View(), hasDir, tables);
      FramedSize(data);
      PageOf(a);
      data := Bitmap.Fill(data, a.addr / PAGE_SIZE, a.size / PAGE_SIZE, true);
      Enter(a, supply);
      AddConsistent(d0, data, View(), hasDir, t0, tables, a);
      if hasDir && NoStray(t0, View()) {
        EnteredNoStray(hasDir, t0, tables, View(), a);
      }
      nodes, head := Insert(nodes, head, spare, a, order);
      order := [spare] + order;
    }

    /** vm_free: the k-th area goes, and every other page keeps its mark and its translation. */
    method Free(range: nat) returns (ghost k: nat)
      requires Valid() && range in nodes && hasDir
      modifies this
      ensures Valid() && hasDir
      ensures k < |old(order)| && old(order)[k] == range && order == Without(old(order), k)
      ensures Freed(old(data), data, old(View()), View(), old(tables), tables, k)
    {
      hide Linked, Areas, Consistent, WellFormed, Mapped, NoStray, Erased, Without, Drop, Bitmap.Filled, Freed, Shaped, First, Num;
      k := IndexOf(nodes, head, order, range);
      ghost var areas := View();
      LinkedAreas(nodes, head, order);
      Parts(data, areas, hasDir, tables, k);
      var a := nodes[range].area;
      ShapedPages(a);
      hide Framed, PagesOf;
      FramedSize(data);
      nodes, head := Remove(nodes, head, range, order, k);
      data, firstFree := Bitmap.ClearBits(data, SIZE, firstFree, a.addr / PAGE_SIZE, PagesOf(a.size));
      tables := ClearRange(tables, a.addr, a.size);
      order := Without(order, k);
      PageOf(a);
      FreedViews(old(data), data, areas, View(), old(tables), tables, k);
    }

    /** get_range: the first range of the list that holds the address, by virtual or by physical address. By virtual
        address it is the range of the page, unless that one ends at 4 GiB. */
    method Lookup(addr: nat, phys: bool) returns (range: nat)
      requires Valid() && addr < WRAP
      ensures !phys ==> (range != NULL <==> Seen(View(), addr / PAGE_SIZE))
      ensures !phys && range != NULL ==> range in nodes && Covers(nodes[range].area, addr / PAGE_SIZE)
      ensures range == NULL ==> forall i :: 0 <= i < |View()| ==> !Holds(View()[i], addr, phys)
      ensures range != NULL ==> range in nodes && exists i: nat ::
        && i < |View()| && range == At(order, i) && View()[i] == nodes[range].area && Holds(View()[i], addr, phys)
        && forall j :: 0 <= j < i ==> !Holds(View()[j], addr, phys)
    {
      hide Linked, Areas, Consistent, Mapped, Bitmap.Bit, Covers, Seen;
      LinkedAreas(nodes, head, order);
      SeenIsHeld(data, View(), hasDir, tables, addr);
      if !phys && !Bitmap.Bit(data, addr / PAGE_SIZE) {
        forall i | 0 <= i < |View()| ensures !Holds(View()[i], addr, false) {
          NotHeld(data, View(), hasDir, tables, i, addr);
        }
        return NULL;
      }
      range := head;
      ghost var i := 0;
      HeadOf(nodes, head, order);
      while range != NULL
        invariant 0 <= i <= |order| && range == At(order, i) && (range == NULL <==> i == |order|)
        invariant forall j :: 0 <= j < i ==> !Holds(View()[j], addr, phys)
        decreases |order| - i
      {
        var start := if phys then nodes[range].area.phys else nodes[range].area.addr;
        if addr >= start && addr < (start + nodes[range].area.size) % WRAP {
          return;
        }
        Member(nodes, head, order, i);
        if i + 1 < |order| {
          Member(nodes, head, order, i + 1);
        }
        range := nodes[range].next;
        i := i + 1;
      }
    }

    /** vm_pagedir: tables built late show exactly what the areas say; an area without memory is mapped to physical
        memory from address 0 on. */
    method Pagedir(supply: seq<nat>)
      requires Valid() && |supply| >= TotalPages(View()) && Fresh(Tables(BlankTable(), map[]), supply)
      modifies this`hasDir, this`tables
      ensures Valid() && hasDir
      ensures old(hasDir) ==> tables == old(tables)
      ensures !old(hasDir) ==> NoStray(tables, View())
    {
      hide Linked, Areas, Consistent, WellFormed, Fresh, Mapped, NoStray, Painted, TotalPages, First, Num, Shaped, Plain;
      if !hasDir {
        var t, rest := Tables(BlankTable(), map[]), supply;
        ghost var areas, i := View(), 0;
        LinkedAreas(nodes, head, order);
        HeadOf(nodes, head, order);
        NothingMapped();
        assert areas[..0] == [] && areas[0..] == areas;
        var range := head;
        while range != NULL
          invariant 0 <= i <= |order| && range == At(order, i) && (range == NULL <==> i == |order|)
          invariant !hasDir && tables == old(tables)
          invariant Mapped(t, areas[..i]) && NoStray(t, areas[..i])
          invariant Fresh(t, rest) && |rest| >= TotalPages(areas[i..])
          decreases |order| - i
        {
          var a := nodes[range].area;
          ghost var t0 := t;
          PlainParts(data, areas, tables, i);
          ShapedPages(a);
          PageOf(a);
          NextTotal(areas, i);
          MappedForm(t, areas[..i]);
          t, rest := SetRange(t, a.addr, a.phys, a.size, a.flags.rw, a.flags.user, rest);
          AppendMapped(t0, t, areas, i);
          Member(nodes, head, order, i);
          if i + 1 < |order| {
            Member(nodes, head, order, i + 1);
          }
          range := nodes[range].next;
          i := i + 1;
        }
        assert areas[..i] == areas;
        LateConsistent(data, areas, tables, t);
        hasDir, tables := true, t;
      }
    }

    /** One pass of vm_map: the k-th page of the window shows the k-th page of the source. */
    method MapPage(ghost source: seq<Area>, area: Area, srcAddr: nat, k: nat, supply: seq<nat>, ghost t0: Tables)
      returns (rest: seq<nat>)
      requires hasDir && Linked(nodes, head, order) && head != NULL && head in nodes
      requires Opening(data, Areas(nodes, order[1..]), nodes[head].area, t0, tables, k, source, AlignDown(srcAddr))
      requires k < WindowPages(nodes[head].area) && Fresh(tables, supply) && |supply| > 0
      requires area in source && Shaped(area) && srcAddr < WRAP && area.phys != NULL
      requires Covers(area, PageAfter(AlignDown(srcAddr), k))
      modifies this`nodes, this`tables
      ensures Linked(nodes, head, order) && nodes.Keys == old(nodes).Keys && head in nodes
      ensures Areas(nodes, order[1..]) == old(Areas(nodes, order[1..]))
      ensures SameWindow(old(nodes)[head].area, nodes[head].area)
      ensures Opening(data, Areas(nodes, order[1..]), nodes[head].area, t0, tables, k + 1, source, AlignDown(srcAddr))
      ensures Fresh(tables, rest) && |rest| >= |supply| - 1
    {
      hide Linked, Areas, Opening, Fresh, WellFormed, Painted, Backing, BackedBy, Shaped, First, PageAfter, AlignDown, Num, AddShard, ShardsWithin;
      var a := nodes[head].area;
      var shard := Shard(a.addr + k * PAGE_SIZE, (area.phys + AlignDown((srcAddr - area.addr) % WRAP) + k * PAGE_SIZE) % WRAP);
      ShardAddress(area, srcAddr, k);
      BackingFrame(source, area, PageAfter(AlignDown(srcAddr), k), shard.phys, a.flags);
      HeadOf(nodes, head, order);
      Retouch(nodes, head, order, AddShard(a, shard));
      Retouched(nodes, head, order, AddShard(a, shard));
      nodes := nodes[head := nodes[head].(area := AddShard(a, shard))];
      ghost var t := tables;
      OpeningParts(data, Areas(nodes, order[1..]), a, t0, t, k, source, AlignDown(srcAddr));
      tables, rest := SetRange(tables, shard.addr, shard.phys, PAGE_SIZE, a.flags.rw, a.flags.user, supply);
      OpenMore(data, Areas(nodes, order[1..]), a, t0, t, tables, k, source, AlignDown(srcAddr), shard);
      AddShardKeeps(a, shard);
    }

    /** The first part of vm_map: an area on free pages, without shards yet. */
    method OpenWindow(pages: nat, flags: Flags, spare: nat, ghost source: seq<Area>, ghost base: nat) returns (virt: nat)
      requires Valid() && hasDir && spare != NULL && spare !in nodes && Orderly(data, firstFree, pages, NULL, false)
      modifies this`data, this`firstFree, this`nodes, this`head, this`order
      ensures virt != NULL <==> RoomInside(old(data), Bitmap.SearchFrom(old(firstFree), 0), pages)
      ensures virt == NULL ==>
        nodes == old(nodes) && head == old(head) && order == old(order) && data == old(data)
      ensures virt != NULL ==> var a := Area(virt, pages * PAGE_SIZE, NULL, [], flags);
        && Linked(nodes, head, order) && head == spare && head in nodes && order == [spare] + old(order)
        && nodes[spare].area == a && Areas(nodes, order[1..]) == old(View())
        && Opening(data, old(View()), a, tables, tables, 0, source, base)
        && First(a) == virt / PAGE_SIZE && Num(a) == pages && First(a) + WindowPages(a) <= PAGES && virt % PAGE_SIZE == 0
        && WindowPages(a) == (if pages == 0 then 1 else pages)
        && Vacant(old(View()), First(a), WindowPages(a)) && Bitmap.Clear(old(data), First(a), First(a) + Num(a))
    {
      hide Linked, Areas, Consistent, Opening, WellFormed, Bitmap.Clear, Bitmap.Filled, Vacant, Framed, Shaped, Chosen, First, Num,
        WindowPages, Orderly, RoomInside, NoRoom, Bitmap.SearchFrom;
      FramedOf(data, View(), hasDir, tables);
      var data', firstFree';
      ghost var page;
      virt, data', firstFree', page := AllocVirt(data, firstFree, pages, NULL, false);
      OrderlyRoom(data, firstFree, pages, page);
      if page >= 0 {
        OrderlyResult(data, firstFree, pages, NULL, false, page);
      }
      firstFree := firstFree';
      if virt == NULL {
        return;
      }
      var a := Area(virt, pages * PAGE_SIZE, NULL, [], flags);
      OpenEmpty(data, data', View(), tables, a, pages, source, base);
      data := data';
      ghost var areas := View();
      nodes, head := Insert(nodes, head, spare, a, order);
      order := [spare] + order;
      ListHead(nodes, head, order, spare, a, areas);
    }

    /** vm_map: a window onto size bytes of another address space. Whatever happens the views of both spaces agree. A
        window is opened if and only if there is room for it, and what then happens is decided by the first page of
        the source that cannot be had. */
    method Map(src: Context, srcAddr: nat, size: nat, flags: Flags, userOnly: bool, lessOk: bool, spare: nat, supply: seq<nat>)
      returns (r: MapResult, ghost mapped: nat)
      requires Valid() && hasDir && src.Valid() && src != this && srcAddr < WRAP && size < WRAP
      requires spare != NULL && spare !in nodes && Fresh(tables, supply) && |supply| > MapPages(srcAddr, size)
      requires Orderly(data, firstFree, MapPages(srcAddr, size), NULL, false)
      modifies this
      ensures Valid() && hasDir
      ensures order == old(order) ==> View() == old(View()) && tables == old(tables) && data == old(data) && r == Failed && mapped == 0
      ensures order != old(order) <==> Opens(old(data), old(firstFree), srcAddr, size)
      ensures order != old(order) ==>
        && spare in nodes
        && Outcome(src.View(), AlignDown(srcAddr), WindowPages(nodes[spare].area), userOnly, lessOk, mapped, r,
             nodes[spare].area.addr + srcAddr % PAGE_SIZE)
      ensures !lessOk ==> (r.Window? <==> Whole(old(data), old(firstFree), src.View(), srcAddr, size, userOnly))
      ensures Whole(old(data), old(firstFree), src.View(), srcAddr, size, userOnly) ==> r.Window? && mapped == Bitmap.Need(MapPages(srcAddr, size))
      ensures Whole(old(data), old(firstFree), src.View(), srcAddr, size, userOnly) && Countable(srcAddr, size) && src.hasDir ==>
        r.Window? && SameBytes(tables, r.addr, src.tables, srcAddr, size)
      ensures order == old(order) || (order == [spare] + old(order) && spare in nodes && View() == [nodes[spare].area] + old(View()))
      ensures r.Window? ==> order != old(order) && mapped > 0 && r.addr == nodes[spare].area.addr + srcAddr % PAGE_SIZE
      ensures r.Window? && !lessOk ==> mapped == WindowPages(nodes[spare].area)
      ensures order != old(order) ==>
        WindowOpen(old(data), old(View()), nodes[spare].area, old(tables), tables, mapped, src.View(), srcAddr, size, flags)
      ensures r.Window? && src.hasDir ==>
        SameBytes(tables, r.addr, src.tables, srcAddr, mapped * PAGE_SIZE - srcAddr % PAGE_SIZE)
    {
      hide Linked, Areas, Consistent, Opening, Fresh, WellFormed, Bitmap.Clear, Bitmap.Filled, Vacant, Copied, Framed, Shaped,
        Chosen, Covers, PageAfter, AlignDown, First, Num, WindowPages, MapPages, Holds, SameWindow, NoStray, SameBytes, WindowOpen, Orderly,
        RoomInside, Bitmap.SearchFrom, Seen, AllLent, Outcome, Whole, Lent, Sharded, Opens, Countable;
      mapped := 0;
      var base := AlignDown(srcAddr);
      OpensWhen(data, firstFree, srcAddr, size);
      WholeOpens(data, firstFree, src.View(), srcAddr, size, userOnly);
      if base == NULL {
        return Failed, 0;
      }
      var pages := MapPages(srcAddr, size);
      var virt := OpenWindow(pages, flags, spare, src.View(), base);
      if virt == NULL {
        return Failed, 0;
      }
      ghost var a := Area(virt, pages * PAGE_SIZE, NULL, [], flags);
      ghost var areas, t0 := old(View()), old(tables);
      SameItself(a);
      assert |order| != |old(order)|;
      var addr, k, rest := virt + srcAddr % PAGE_SIZE, 0, supply;
      NoneLent(src.View(), base, userOnly);
      while true
        invariant hasDir && Linked(nodes, head, order) && head == spare && head in nodes && order == [spare] + old(order)
        invariant Areas(nodes, order[1..]) == areas == old(View())
        invariant SameWindow(a, nodes[head].area) && AlignDown(srcAddr) == base
        invariant Opening(data, areas, nodes[head].area, t0, tables, k, src.View(), base)
        invariant Fresh(tables, rest) && |rest| > pages - k && 0 <= k == mapped && (k < pages || k == 0)
        invariant AllLent(src.View(), base, k, userOnly)
        decreases pages - k
      {
        OpenValid(data, nodes, head, order, t0, tables, a, k, src.View(), base);
        OpenStray(old(data), areas, a, nodes[head].area, t0, tables, k, src.View(), srcAddr, size, flags);
        var srcRange := src.Lookup((base + k * PAGE_SIZE) % WRAP, false);
        if srcRange == NULL {
          NotLent(src.View(), base, k, userOnly);
          r := if k > 0 && lessOk then Window(addr) else Failed;
          Ended(old(data), old(firstFree), src.View(), srcAddr, size, userOnly, lessOk, k, r, addr);
          if k > 0 && lessOk {
            break;
          }
          return;
        }
        var area := src.nodes[srcRange].area;
        HeldCovers(src.data, src.View(), src.hasDir, src.tables, area, base, k, userOnly);
        if area.phys == NULL {
          r := Panicked;
          Ended(old(data), old(firstFree), src.View(), srcAddr, size, userOnly, lessOk, k, r, addr);
          return;
        }
        if userOnly && !area.flags.user {
          r := Failed;
          Ended(old(data), old(firstFree), src.View(), srcAddr, size, userOnly, lessOk, k, r, addr);
          return;
        }
        OneMoreLent(src.View(), base, k, userOnly);
        ghost var before := nodes[head].area;
        rest := MapPage(src.View(), area, srcAddr, k, rest, t0);
        SameTwice(a, before, nodes[head].area);
        k := k + 1;
        mapped := k;
        if k >= pages {
          r := Window(addr);
          Ended(old(data), old(firstFree), src.View(), srcAddr, size, userOnly, lessOk, k, r, addr);
          break;
        }
      }
      OpenValid(data, nodes, head, order, t0, tables, a, k, src.View(), base);
      OpenStray(old(data), areas, a, nodes[head].area, t0, tables, k, src.View(), srcAddr, size, flags);
      if src.hasDir {
        WindowBytes(t0, tables, virt, k, src.data, src.View(), src.tables, srcAddr, flags);
        WholeBytes(tables, r.addr, src.tables, srcAddr, size, k);
      }
    }
  }

  lemma PlainParts(data: Data, areas: seq<Area>, t: Tables, k: nat)
    requires Consistent(data, areas, false, t) && k < |areas|
    ensures areas[k].shards == [] && Shaped(areas[k]) && Apart(areas)
  {
  }

  lemma NextTotal(areas: seq<Area>, k: nat)
    requires k < |areas|
    ensures TotalPages(areas[k..]) == Num(areas[k]) + TotalPages(areas[k + 1..])
  {
    assert areas[k..][1..] == areas[k + 1..];
  }

  lemma MappedForm(t: Tables, areas: seq<Area>)
    requires Mapped(t, areas)
    ensures WellFormed(t)
  {
  }

  lemma LateConsistent(data: Data, areas: seq<Area>, t: Tables, t': Tables)
    requires Consistent(data, areas, false, t) && Mapped(t', areas)
    ensures Consistent(data, areas, true, t')
  {
  }

  datatype MapResult = Window(addr: nat) | Failed | Panicked

  /** The pages vm_map allocates, computed on 32 bits. */
  function MapPages(srcAddr: nat, size: nat): nat { (size + srcAddr % PAGE_SIZE + PAGE_SIZE - 1) % WRAP / PAGE_SIZE }

  /** The pages a window shows when it is complete; even a window of no pages gets one. */
  function WindowPages(a: Area): nat { if Num(a) == 0 then 1 else Num(a) }

  /** No area covers any of the n pages from v on. */
  ghost predicate Vacant(areas: seq<Area>, v: nat, n: nat) {
    forall i, p: nat :: 0 <= i < |areas| && v <= p < v + n ==> !Covers(areas[i], p)
  }

  /** vm_map has opened the first k pages of window a onto the pages from base on of the source. */
  ghost predicate Opening(data: Data, areas: seq<Area>, a: Area, t0: Tables, t: Tables, k: nat, source: seq<Area>, base: nat) {
    && Consistent(data, [a] + areas, true, t) && a.phys == NULL && ShardsWithin(a, k)
    && Vacant(areas, First(a), WindowPages(a)) && First(a) + WindowPages(a) <= PAGES
    && Copied(t0, t, First(a), k, source, base, a.flags)
  }

  lemma FramedOf(data: Data, areas: seq<Area>, hasDir: bool, t: Tables)
    requires Consistent(data, areas, hasDir, t)
    ensures Framed(data) && WellFormed(t)
  {
  }

  lemma OpenEmpty(data: Data, data': Data, areas: seq<Area>, t: Tables, a: Area, pages: nat, source: seq<Area>, base: nat)
    requires Consistent(data, areas, true, t) && a.phys == NULL && a.shards == []
    requires a.addr % PAGE_SIZE == 0 && a.size == pages * PAGE_SIZE && a.addr / PAGE_SIZE + pages <= PAGES && a.addr < WRAP
    requires Bitmap.Clear(data, a.addr / PAGE_SIZE, a.addr / PAGE_SIZE + pages) && !Bitmap.Bit(data, a.addr / PAGE_SIZE)
    requires Bitmap.Filled(data, data', a.addr / PAGE_SIZE, a.addr / PAGE_SIZE + pages, true)
    ensures Opening(data', areas, a, t, t, 0, source, base)
    ensures First(a) + WindowPages(a) <= PAGES
    ensures First(a) == a.addr / PAGE_SIZE && Num(a) == pages && WindowPages(a) == if pages == 0 then 1 else pages
    ensures Vacant(areas, First(a), WindowPages(a)) && Bitmap.Clear(data, First(a), First(a) + Num(a))
  {
    assert First(a) == a.addr / PAGE_SIZE && Num(a) == pages && Shaped(a);
    hide First, Num, WellFormed, Walk, Shaped;
    AddAgree(data, data', areas, a);
    forall i, p: nat | 0 <= i < |areas| && First(a) <= p < First(a) + WindowPages(a) ensures !Covers(areas[i], p) {
      assert !Bitmap.Bit(data, p);
      FreeUnowned(data, areas, i, p);
    }
    hide Bitmap.Clear, Bitmap.Filled, Bitmap.Bit, Agree;
    StartCopy(t, First(a), source, base, a.flags);
    var all := [a] + areas;
    forall i, p: nat | 0 <= i < |all| && Covers(all[i], p) && p < PAGES ensures Shows(t, all[i], p) {
      if i > 0 {
        assert all[i] == areas[i - 1];
      }
    }
  }

  lemma ListHead(nodes: map<nat, Node>, head: nat, order: seq<nat>, spare: nat, a: Area, areas: seq<Area>)
    requires Linked(nodes, head, order) && order != [] && order[0] == spare && Areas(nodes, order) == [a] + areas
    ensures head == spare && head in nodes && nodes[head].area == a && Areas(nodes, order[1..]) == areas
  {
    hide Linked, Areas;
    Retouch(nodes, head, order, a);
    assert Areas(nodes, order)[0] == a && Areas(nodes, order)[1..] == areas;
  }

  lemma OpenValid(data: Data, nodes: map<nat, Node>, head: nat, order: seq<nat>, t0: Tables, t: Tables, a: Area, k: nat,
                  source: seq<Area>, base: nat)
    requires Linked(nodes, head, order) && order != [] && head in nodes && SameWindow(a, nodes[head].area)
    requires Opening(data, Areas(nodes, order[1..]), nodes[head].area, t0, t, k, source, base)
    ensures Areas(nodes, order) == [nodes[head].area] + Areas(nodes, order[1..])
    ensures Consistent(data, Areas(nodes, order), true, t)
    ensures var b := nodes[head].area;
      && First(b) == First(a) && Num(b) == Num(a) && WindowPages(b) == WindowPages(a) && b.addr == a.addr && b.size == a.size
      && Copied(t0, t, First(b), k, source, base, a.flags) && Vacant(Areas(nodes, order[1..]), First(b), WindowPages(b))
  {
    hide Linked, Areas, Consistent, Copied, Vacant;
    Retouch(nodes, head, order, nodes[head].area);
    SamePlace(a, nodes[head].area);
  }

  lemma HeldCovers(data: Data, areas: seq<Area>, hasDir: bool, t: Tables, area: Area, base: nat, k: nat, userOnly: bool)
    requires Consistent(data, areas, hasDir, t)
    requires exists i: nat :: i < |areas| && areas[i] == area && Holds(areas[i], (base + k * PAGE_SIZE) % WRAP, false)
    ensures area in areas && Shaped(area) && Covers(area, PageAfter(base, k))
    ensures var p := PageAfter(base, k);
      && Seen(areas, p) && (Sharded(areas, p) <==> area.phys == NULL)
      && (Lent(areas, p, userOnly) <==> area.phys != NULL && (userOnly ==> area.flags.user))
  {
    hide Mapped, Marked, Framed, WellFormed, Covers, BelowEnd, Holds, Shaped, PageAfter;
    var p, addr := PageAfter(base, k), (base + k * PAGE_SIZE) % WRAP;
    PageAfterIs(base, k);
    var i :| 0 <= i < |areas| && areas[i] == area && Holds(areas[i], addr, false);
    HoldsExactly(area, addr);
    forall j | 0 <= j < |areas| && j != i ensures !Covers(areas[j], p) {
      OneOwner(areas, i, j, p);
    }
  }

  // ---------------------------------------------------------------- when vm_map succeeds

  /** The page lies in an area that vm_map can take it from: one that it finds, that is unsharded, and that the user may
      see if only such are asked for. */
  ghost predicate Lent(areas: seq<Area>, p: nat, userOnly: bool) {
    exists i :: 0 <= i < |areas| && Covers(areas[i], p) && Lends(areas[i], userOnly)
  }

  predicate Lends(a: Area, userOnly: bool) { BelowEnd(a) && a.phys != NULL && (userOnly ==> a.flags.user) }

  /** The page lies in an area that is found and is made of shards. */
  ghost predicate Sharded(areas: seq<Area>, p: nat) {
    exists i :: 0 <= i < |areas| && Covers(areas[i], p) && BelowEnd(areas[i]) && areas[i].phys == NULL
  }

  /** The first k pages from base on can be had. */
  ghost predicate AllLent(source: seq<Area>, base: nat, k: nat, userOnly: bool) {
    forall i: nat :: i < k ==> Lent(source, PageAfter(base, i), userOnly)
  }

  /** What the loop of vm_map comes to: it maps the pages up to the first one that cannot be had, and if there is one, it
      depends on the reason whether the window is given out, the call fails or the kernel panics. */
  ghost predicate Outcome(source: seq<Area>, base: nat, n: nat, userOnly: bool, lessOk: bool, mapped: nat, r: MapResult, addr: nat) {
    && mapped <= n && AllLent(source, base, mapped, userOnly)
    && if mapped == n then r == Window(addr)
       else
         var p := PageAfter(base, mapped);
         && !Lent(source, p, userOnly)
         && r == if !Seen(source, p) then (if mapped > 0 && lessOk then Window(addr) else Failed)
                 else if Sharded(source, p) then Panicked else Failed
  }

  /** The source decides it all: there is only one outcome. */
  lemma OneOutcome(source: seq<Area>, base: nat, n: nat, userOnly: bool, lessOk: bool, addr: nat, k: nat, r: MapResult, k': nat, r': MapResult)
    requires Outcome(source, base, n, userOnly, lessOk, k, r, addr) && Outcome(source, base, n, userOnly, lessOk, k', r', addr)
    ensures k == k' && r == r'
  {
    hide Lent, Seen, Sharded, PageAfter;
  }

  /** The caller gets a window: the source does not start in page 0, and there is room for it. */
  ghost predicate Opens(data: Data, firstFree: nat, srcAddr: nat, size: nat) {
    AlignDown(srcAddr) != NULL && RoomInside(data, Bitmap.SearchFrom(firstFree, 0), MapPages(srcAddr, size))
  }

  /** It shows everything: all pages of the source can be had. */
  ghost predicate Whole(data: Data, firstFree: nat, source: seq<Area>, srcAddr: nat, size: nat, userOnly: bool) {
    Opens(data, firstFree, srcAddr, size) && AllLent(source, AlignDown(srcAddr), Bitmap.Need(MapPages(srcAddr, size)), userOnly)
  }

  /** The number of bytes does not wrap when it is rounded up to pages. */
  predicate Countable(srcAddr: nat, size: nat) { size + srcAddr % PAGE_SIZE + PAGE_SIZE - 1 < WRAP }

  lemma OpensWhen(data: Data, firstFree: nat, srcAddr: nat, size: nat)
    ensures Opens(data, firstFree, srcAddr, size) <==>
      AlignDown(srcAddr) != NULL && RoomInside(data, Bitmap.SearchFrom(firstFree, 0), MapPages(srcAddr, size))
  {
  }

  lemma WholeOpens(data: Data, firstFree: nat, source: seq<Area>, srcAddr: nat, size: nat, userOnly: bool)
    ensures Whole(data, firstFree, source, srcAddr, size, userOnly) ==> Opens(data, firstFree, srcAddr, size)
  {
  }

  lemma NoneLent(source: seq<Area>, base: nat, userOnly: bool)
    ensures AllLent(source, base, 0, userOnly)
  {
  }

  lemma OneMoreLent(source: seq<Area>, base: nat, k: nat, userOnly: bool)
    requires AllLent(source, base, k, userOnly) && Lent(source, PageAfter(base, k), userOnly)
    ensures AllLent(source, base, k + 1, userOnly)
  {
    hide Lent, PageAfter;
  }

  lemma NotLent(source: seq<Area>, base: nat, k: nat, userOnly: bool)
    requires !Seen(source, (base + k * PAGE_SIZE) % WRAP / PAGE_SIZE)
    ensures !Seen(source, PageAfter(base, k)) && !Lent(source, PageAfter(base, k), userOnly)
  {
    PageAfterIs(base, k);
    hide Covers, PageAfter, BelowEnd;
  }

  /** Where the loop ends. Once a window is opened, it is complete if and only if all pages can be had. */
  lemma Ended(data: Data, firstFree: nat, source: seq<Area>, srcAddr: nat, size: nat, userOnly: bool, lessOk: bool, k: nat, r: MapResult,
              addr: nat)
    requires Opens(data, firstFree, srcAddr, size) && k <= Bitmap.Need(MapPages(srcAddr, size))
    requires AllLent(source, AlignDown(srcAddr), k, userOnly)
    requires k == Bitmap.Need(MapPages(srcAddr, size)) ==> r == Window(addr)
    requires k < Bitmap.Need(MapPages(srcAddr, size)) ==>
      var p := PageAfter(AlignDown(srcAddr), k);
      && !Lent(source, p, userOnly)
      && r == if !Seen(source, p) then (if k > 0 && lessOk then Window(addr) else Failed) else if Sharded(source, p) then Panicked else Failed
    ensures Outcome(source, AlignDown(srcAddr), Bitmap.Need(MapPages(srcAddr, size)), userOnly, lessOk, k, r, addr)
    ensures Whole(data, firstFree, source, srcAddr, size, userOnly) <==> k == Bitmap.Need(MapPages(srcAddr, size))
    ensures Whole(data, firstFree, source, srcAddr, size, userOnly) ==> r.Window?
    ensures !lessOk && r.Window? ==> Whole(data, firstFree, source, srcAddr, size, userOnly)
  {
    hide Lent, Seen, Sharded, PageAfter, Opens, AlignDown, MapPages;
  }

  /** A complete window has all the bytes that were asked for, if their number does not wrap. */
  lemma WholeBytes(t: Tables, x: nat, t': Tables, srcAddr: nat, size: nat, k: nat)
    requires SameBytes(t, x, t', srcAddr, k * PAGE_SIZE - srcAddr % PAGE_SIZE)
    ensures k == Bitmap.Need(MapPages(srcAddr, size)) && Countable(srcAddr, size) ==> SameBytes(t, x, t', srcAddr, size)
  {
    hide SameByteAt, MapPages;
    WindowSuffices(srcAddr, size);
  }

  /** What vm_map has done when it has opened mapped pages of a new window: the window takes pages that were free, it
      shows the source, no other translation changed, and no page is mapped without an owner except by a window of
      no pages. */
  ghost predicate WindowOpen(data0: Data, areas: seq<Area>, a: Area, t0: Tables, t: Tables, mapped: nat, source: seq<Area>,
                             srcAddr: nat, size: nat, flags: Flags) {
    && a.size == MapPages(srcAddr, size) * PAGE_SIZE && mapped <= WindowPages(a)
    && Bitmap.Clear(data0, First(a), First(a) + Num(a)) && Vacant(areas, First(a), WindowPages(a))
    && Copied(t0, t, First(a), mapped, source, AlignDown(srcAddr), flags)
    && (NoStray(t0, areas) ==> (NoStray(t, [a] + areas) <==> MapPages(srcAddr, size) > 0 || mapped == 0))
  }

  lemma OpenStray(data0: Data, areas: seq<Area>, a: Area, b: Area, t0: Tables, t: Tables, k: nat, source: seq<Area>,
                  srcAddr: nat, size: nat, flags: Flags)
    requires Copied(t0, t, First(b), k, source, AlignDown(srcAddr), flags) && Vacant(areas, First(b), WindowPages(b))
    requires k <= WindowPages(b) && First(b) + WindowPages(b) <= PAGES && SameWindow(a, b)
    requires a.size == MapPages(srcAddr, size) * PAGE_SIZE && Bitmap.Clear(data0, First(a), First(a) + Num(a))
    ensures WindowOpen(data0, areas, b, t0, t, k, source, srcAddr, size, flags)
  {
    hide Copied, NoStray, Covers, Bitmap.Clear, AlignDown, MapPages;
    SamePlace(a, b);
    assert Num(b) == MapPages(srcAddr, size);
    if NoStray(t0, areas) {
      WindowStray(areas, b, WindowPages(b), t0, t, k, source, AlignDown(srcAddr), flags);
    }
  }

  lemma WindowBytes(t0: Tables, t: Tables, virt: nat, mapped: nat, srcData: Data, source: seq<Area>, srcTables: Tables,
                    srcAddr: nat, flags: Flags)
    requires Copied(t0, t, virt / PAGE_SIZE, mapped, source, AlignDown(srcAddr), flags)
    requires Consistent(srcData, source, true, srcTables)
    requires virt % PAGE_SIZE == 0 && virt / PAGE_SIZE + mapped <= PAGES && srcAddr < WRAP
    ensures SameBytes(t, virt + srcAddr % PAGE_SIZE, srcTables, srcAddr, mapped * PAGE_SIZE - srcAddr % PAGE_SIZE)
  {
    hide Copied, Agree, Mapped, SameByteAt, AlignDown;
    var x := virt + srcAddr % PAGE_SIZE;
    forall j: nat | j < mapped * PAGE_SIZE - srcAddr % PAGE_SIZE ensures SameByteAt(t, x, srcTables, srcAddr, j) {
      WindowByte(t0, t, virt, mapped, source, srcTables, srcAddr, flags, j);
    }
  }

  /** Unless the byte count wraps, a complete window shows all of its bytes, and has no page more than it needs. */
  lemma WindowSuffices(srcAddr: nat, size: nat)
    ensures size + srcAddr % PAGE_SIZE + PAGE_SIZE - 1 < WRAP ==>
      srcAddr % PAGE_SIZE + size <= MapPages(srcAddr, size) * PAGE_SIZE
    ensures size + srcAddr % PAGE_SIZE + PAGE_SIZE - 1 < WRAP && MapPages(srcAddr, size) > 0 ==>
      (MapPages(srcAddr, size) - 1) * PAGE_SIZE < srcAddr % PAGE_SIZE + size
    ensures size < WRAP <= size + srcAddr % PAGE_SIZE + PAGE_SIZE - 1 ==>
      MapPages(srcAddr, size) <= 1 && PAGE_SIZE < size
  {
  }

  lemma SameItself(a: Area)
    ensures SameWindow(a, a)
  {
  }

  lemma SameTwice(a: Area, b: Area, c: Area)
    requires SameWindow(a, b) && SameWindow(b, c)
    ensures SameWindow(a, c)
  {
  }

  /** The same window, whatever its shards. */
  predicate SameWindow(a: Area, a': Area) { a' == a.(shards := a'.shards) }

  lemma AddShardKeeps(a: Area, s: Shard)
    ensures SameWindow(a, AddShard(a, s))
  {
  }

  lemma Retouched(nodes: map<nat, Node>, head: nat, order: seq<nat>, area: Area)
    requires Linked(nodes, head, order) && order != []
    ensures head in nodes && Areas(nodes[head := nodes[head].(area := area)], order[1..]) == Areas(nodes, order[1..])
  {
    hide Linked, Areas;
    Retouch(nodes, head, order, area);
    var nodes' := nodes[head := nodes[head].(area := area)];
    Retouch(nodes', head, order, area);
    assert Areas(nodes', order)[1..] == Areas(nodes', order[1..]);
  }

  lemma BackingFrame(source: seq<Area>, area: Area, p: nat, phys: nat, flags: Flags)
    requires area in source && Covers(area, p) && area.phys != NULL
    requires phys == (area.phys + (p - First(area)) * PAGE_SIZE) % WRAP
    ensures Backing(source, p, EntryFor(phys, 0, flags.rw, flags.user).frame)
  {
    hide Covers, First;
    var i :| 0 <= i < |source| && source[i] == area;
    assert BackedBy(source[i], p, EntryFor(phys, 0, flags.rw, flags.user).frame);
  }

  lemma OpeningParts(data: Data, areas: seq<Area>, a: Area, t0: Tables, t: Tables, k: nat, source: seq<Area>, base: nat)
    requires Opening(data, areas, a, t0, t, k, source, base) && k < WindowPages(a)
    ensures WellFormed(t) && (a.addr + k * PAGE_SIZE) / PAGE_SIZE == First(a) + k < PAGES
    ensures PagesOf(PAGE_SIZE) == 1
  {
    hide WellFormed, Mapped;
    assert Shaped(([a] + areas)[0]);
  }

  lemma OpenMore(data: Data, areas: seq<Area>, a: Area, t0: Tables, t: Tables, t': Tables, k: nat, source: seq<Area>,
                 base: nat, s: Shard)
    requires Opening(data, areas, a, t0, t, k, source, base) && k < WindowPages(a)
    requires s.addr == a.addr + k * PAGE_SIZE && Painted(t, t', First(a) + k, 1, s.phys, a.flags.rw, a.flags.user)
    requires Backing(source, PageAfter(base, k), EntryFor(s.phys, 0, a.flags.rw, a.flags.user).frame)
    ensures Opening(data, areas, AddShard(a, s), t0, t', k + 1, source, base)
  {
    hide Agree, Mapped, Copied, Painted, WellFormed, Walk, Backing, EntryFor, PageAfter, ShardsWithin, Shaped;
    var a' := AddShard(a, s);
    SamePlace(a, a');
    ApartOf(data, [a] + areas);
    ShapedFirst(data, areas, a);
    hide First, Num;
    PaintedForm(t, t', First(a) + k, 1, s.phys, a.flags.rw, a.flags.user);
    ShardAgree(data, areas, a, s);
    assert forall i :: 0 <= i < |areas| ==> !Covers(areas[i], First(a) + k);
    ShardMapped(t, t', areas, a, k, s.phys);
    CopyMore(t0, t, t', First(a), k, source, base, a.flags, s.phys);
  }

  lemma ShapedFirst(data: Data, areas: seq<Area>, a: Area)
    requires Agree(data, [a] + areas)
    ensures a.addr % PAGE_SIZE == 0 && Shaped(a)
  {
    assert Shaped(([a] + areas)[0]);
  }

  /** The area ends before 4 GiB. */
  predicate BelowEnd(a: Area) { a.addr + a.size < WRAP }

  /** The page lies in an area that ends before 4 GiB. */
  ghost predicate Seen(areas: seq<Area>, p: nat) { exists i :: 0 <= i < |areas| && Covers(areas[i], p) && BelowEnd(areas[i]) }

  /** The test of get_range finds an address of an area if and only if the area ends before 4 GiB: the end wraps. */
  lemma HoldsExactly(a: Area, addr: nat)
    requires Shaped(a) && addr < WRAP
    ensures Holds(a, addr, false) <==> Covers(a, addr / PAGE_SIZE) && BelowEnd(a)
  {
    ShapedPages(a);
  }

  /** The same by physical address. */
  lemma HoldsPhysical(a: Area, addr: nat)
    requires a.phys < WRAP && a.size <= WRAP && addr < WRAP
    ensures Holds(a, addr, true) <==> a.phys <= addr < a.phys + a.size < WRAP
  {
  }

  /** The last page of the address space can be asked for, and makes an area that is never found. */
  lemma LastPage(data: Data, firstFree: nat, flags: Flags) returns (a: Area)
    ensures Shaped(a) && a.size == PAGE_SIZE && a.addr != NULL && Covers(a, PAGES - 1)
    ensures Orderly(data, firstFree, 1, a.addr, true)
    ensures !Bitmap.Bit(data, PAGES - 1) ==> Chosen(data, firstFree, 1, a.addr, true, PAGES - 1)
    ensures forall addr: nat :: addr < WRAP ==> !Holds(a, addr, false)
  {
    a := Area(WRAP - PAGE_SIZE, PAGE_SIZE, PAGE_SIZE, [], flags);
  }

  lemma SeenIsHeld(data: Data, areas: seq<Area>, hasDir: bool, t: Tables, addr: nat)
    requires Consistent(data, areas, hasDir, t) && addr < WRAP
    ensures Seen(areas, addr / PAGE_SIZE) <==> exists i :: 0 <= i < |areas| && Holds(areas[i], addr, false)
    ensures forall i :: 0 <= i < |areas| && Holds(areas[i], addr, false) ==> Covers(areas[i], addr / PAGE_SIZE)
  {
    hide Holds, Covers, BelowEnd, Shaped, Framed, Apart, Marked, WellFormed, Mapped, Plain;
    forall i | 0 <= i < |areas|
      ensures Holds(areas[i], addr, false) <==> Covers(areas[i], addr / PAGE_SIZE) && BelowEnd(areas[i])
    {
      HoldsExactly(areas[i], addr);
    }
  }

  /** The test of get_range. */
  predicate Holds(a: Area, addr: nat, phys: bool) {
    var start := if phys then a.phys else a.addr;
    start <= addr < (start + a.size) % WRAP
  }

  lemma NotHeld(data: Data, areas: seq<Area>, hasDir: bool, t: Tables, i: nat, addr: nat)
    requires Consistent(data, areas, hasDir, t) && i < |areas| && !Bitmap.Bit(data, addr / PAGE_SIZE)
    ensures !Holds(areas[i], addr, false)
  {
    hide Mapped, Bitmap.Bit;
    FreeUnowned(data, areas, i, addr / PAGE_SIZE);
    ShapedPages(areas[i]);
  }

  lemma Parts(data: Data, areas: seq<Area>, hasDir: bool, t: Tables, k: nat)
    requires Consistent(data, areas, hasDir, t) && k < |areas|
    ensures Shaped(areas[k]) && Framed(data) && WellFormed(t)
  {
  }

  lemma IndexOf(nodes: map<nat, Node>, head: nat, order: seq<nat>, p: nat) returns (k: nat)
    requires Linked(nodes, head, order) && p in nodes
    ensures k < |order| && order[k] == p
  {
    k :| k < |order| && order[k] == p;
  }

  // ---------------------------------------------------------------- vm_alloc_many

  /** The pages are free in all the contexts. */
  ghost predicate FreeInAll(ctxs: seq<Context>, page: nat, size: nat)
    reads ctxs
  {
    forall i :: 0 <= i < |ctxs| ==> Bitmap.Clear(ctxs[i].data, page, page + size)
  }

  /** bitmap_find can offer the run. */
  ghost predicate Candidate(data: Data, page: nat, size: nat) {
    page + Bitmap.Need(size) <= |data| * Bitmap.WORD_BITS && Bitmap.Run(data, page, Bitmap.Need(size))
  }

  /** bitmap_get_range reports it taken in none of the contexts. */
  ghost predicate Accepted(others: seq<Context>, page: nat, size: nat)
    reads others
  {
    forall i :: 0 <= i < |others| ==> !Bitmap.Reported(others[i].data, page, size)
  }

  /** None of the runs from lo up to hi is offered and accepted. */
  ghost predicate NoneCommon(data: Data, others: seq<Context>, size: nat, lo: nat, hi: nat)
    reads others
  {
    forall q: nat :: lo <= q < hi && Candidate(data, q, size) ==> !Accepted(others, q, size)
  }

  /** The search of vm_alloc_many: the first run from the hinted start on that the first context offers and that is
      reported taken in no other one, so that it is free in every context; -1 if each is reported somewhere. It ends
      because each round starts past the last find. */
  method FindCommon(first: Context, others: seq<Context>, size: nat) returns (page: int)
    requires size < WRAP && first.Valid() && forall i :: 0 <= i < |others| ==> others[i].Valid() && others[i] != first
    modifies first`firstFree
    ensures first.Valid()
    ensures var lo := Bitmap.SearchFrom(old(first.firstFree), 0);
      && (page >= 0 ==>
            && lo <= page && page > 0 && Candidate(first.data, page, size) && Accepted(others, page, size)
            && NoneCommon(first.data, others, size, lo, page))
      && (page < 0 ==> page == -1 && NoneCommon(first.data, others, size, lo, |first.data| * Bitmap.WORD_BITS))
    ensures page >= 0 ==> FreeInAll([first] + others, page, size)
  {
    hide Linked, Areas, Consistent, Candidate, NoneCommon, Bitmap.Searched, Bitmap.Hinted, Bitmap.Clear, Bitmap.Reported, Framed,
      Bitmap.Words, Bitmap.Index, Bitmap.SearchFrom, Bitmap.Bit, Bitmap.Need;
    var start: nat := 0;
    ghost var lo := Bitmap.SearchFrom(first.firstFree, 0);
    NoneBefore(first.data, others, size, lo);
    while true
      invariant first.Valid() && Bitmap.SearchFrom(first.firstFree, start) >= lo
      invariant NoneCommon(first.data, others, size, lo, Bitmap.SearchFrom(first.firstFree, start))
      decreases |first.data| * Bitmap.WORD_BITS - start
    {
      FramedOf(first.data, first.View(), first.hasDir, first.tables);
      FramedSize(first.data);
      ghost var from := Bitmap.SearchFrom(first.firstFree, start);
      SearchesOn(first.firstFree, start);
      var r, hint := Bitmap.Find(first.data, SIZE, first.firstFree, start, size);
      ghost var was := first.firstFree;
      first.firstFree := hint;
      SearchedSigns(first.data, from, size, r);
      if r == -1 {
        NoneLeft(first.data, others, size, lo, from);
        return -1;
      }
      Found(first.data, from, size, r);
      NoneUpTo(first.data, others, size, lo, from, r);
      var allFree := true;
      var i := 0;
      while i < |others| && allFree
        invariant 0 <= i <= |others| && first.Valid() && first.firstFree == hint
        invariant allFree ==> forall j :: 0 <= j < i ==> !Bitmap.Reported(others[j].data, r, size)
        invariant allFree ==> forall j :: 0 <= j < i ==> Bitmap.Clear(others[j].data, r, r + size)
        invariant !allFree ==> !Accepted(others, r, size)
      {
        var c := others[i];
        FramedOf(c.data, c.View(), c.hasDir, c.tables);
        FramedSize(c.data);
        WordInside(c.data, r);
        var taken := Bitmap.GetRange(c.data, SIZE, r, size);
        if taken != 0 {
          allFree := false;
        } else {
          NotReported(c.data, r, size);
        }
        i := i + 1;
      }
      if allFree {
        return r;
      }
      HintFollows(first.data, was, start, r, hint);
      NoneNext(first.data, others, size, lo, r);
      start := r + 1;
    }
  }

  lemma NoneBefore(data: Data, others: seq<Context>, size: nat, lo: nat)
    ensures NoneCommon(data, others, size, lo, lo)
  {
  }

  lemma NoneUpTo(data: Data, others: seq<Context>, size: nat, lo: nat, from: nat, r: nat)
    requires NoneCommon(data, others, size, lo, from) && Bitmap.Searched(data, from, size, r)
    ensures NoneCommon(data, others, size, lo, r)
  {
    hide Accepted, Bitmap.Run;
  }

  lemma NoneNext(data: Data, others: seq<Context>, size: nat, lo: nat, r: nat)
    requires NoneCommon(data, others, size, lo, r) && !Accepted(others, r, size)
    ensures NoneCommon(data, others, size, lo, r + 1)
  {
    hide Accepted, Candidate;
  }

  lemma NoneLeft(data: Data, others: seq<Context>, size: nat, lo: nat, from: nat)
    requires NoneCommon(data, others, size, lo, from) && Bitmap.Searched(data, from, size, -1)
    ensures NoneCommon(data, others, size, lo, |data| * Bitmap.WORD_BITS)
  {
    hide Accepted, Bitmap.Run;
  }

  /** After the first round the hint is at or before the last find, so the next search starts right behind it. */
  lemma HintFollows(data: Data, firstFree: nat, start: nat, r: nat, hint: nat)
    requires Bitmap.SearchFrom(firstFree, start) <= r < |data| * Bitmap.WORD_BITS && !Bitmap.Bit(data, r)
    requires Bitmap.Hinted(data, Bitmap.Index(Bitmap.SearchFrom(firstFree, start)), firstFree, hint)
    ensures Bitmap.SearchFrom(hint, r + 1) == r + 1
  {
    var from, w := Bitmap.Index(Bitmap.SearchFrom(firstFree, start)), Bitmap.Index(r);
    Bitmap.OffsetBound(r);
    assert from <= w < |data| && !Bitmap.IsFull(data[w]);
    hide Bitmap.IsFull;
    assert hint <= w;
  }

  lemma Found(data: Data, lo: nat, size: nat, r: int)
    requires Framed(data) && Bitmap.Searched(data, lo, size, r) && r >= 0
    ensures Bitmap.Clear(data, r, r + size) && lo <= r && 0 < r < |data| * Bitmap.WORD_BITS && !Bitmap.Bit(data, r)
    ensures Candidate(data, r, size) && r + size <= |data| * Bitmap.WORD_BITS
  {
    SearchedClear(data, lo, size, r);
    ClearPositive(data, r);
  }

  lemma SearchesOn(hint: nat, start: nat)
    ensures Bitmap.SearchFrom(hint, start) >= start
  {
  }

  lemma WordInside(data: Data, r: nat)
    requires r < |data| * Bitmap.WORD_BITS
    ensures Bitmap.Index(r) < |data|
  {
    Bitmap.OffsetBound(r);
  }

  lemma NotReported(data: Data, page: nat, size: nat)
    requires page + size <= |data| * Bitmap.WORD_BITS && page < |data| * Bitmap.WORD_BITS && size < WRAP
    requires !Bitmap.Reported(data, page, size)
    ensures Bitmap.Clear(data, page, page + size)
  {
    WordInside(data, page);
    hide Bitmap.Reported;
    if Bitmap.Taken(data, page, page + size) {
      Bitmap.RangeSound(data, page, size);
    }
  }

  /** There is a common run inside the address space, or none is found. */
  ghost predicate OrderlyMany(first: Context, others: seq<Context>, size: nat)
    reads first, others
  {
    var lo := Bitmap.SearchFrom(first.firstFree, 0);
    || (exists q: nat :: lo <= q && q + Bitmap.Need(size) <= PAGES && Candidate(first.data, q, size) && Accepted(others, q, size))
    || NoneCommon(first.data, others, size, lo, |first.data| * Bitmap.WORD_BITS)
  }

  /** The first common run lies inside the address space if and only if some common run does. */
  lemma CommonInside(data: Data, others: seq<Context>, size: nat, lo: nat, page: nat)
    requires lo <= page && Candidate(data, page, size) && Accepted(others, page, size) && NoneCommon(data, others, size, lo, page)
    ensures page + Bitmap.Need(size) <= PAGES <==>
      exists q: nat :: lo <= q && q + Bitmap.Need(size) <= PAGES && Candidate(data, q, size) && Accepted(others, q, size)
    ensures page < |data| * Bitmap.WORD_BITS
  {
    hide Accepted, Candidate;
    CandidateInside(data, page, size);
  }

  lemma CommonSome(data: Data, others: seq<Context>, size: nat, lo: nat, page: nat)
    requires lo <= page && Candidate(data, page, size) && Accepted(others, page, size)
    ensures !NoneCommon(data, others, size, lo, |data| * Bitmap.WORD_BITS)
  {
    hide Accepted;
  }

  lemma CandidateInside(data: Data, page: nat, size: nat)
    requires Candidate(data, page, size)
    ensures page < |data| * Bitmap.WORD_BITS
  {
  }

  /** The memory that the loop of vm_alloc_many has after n contexts: the caller's, or the first that palloc gave. Each
      context without memory asks again, and pallocs says what it gets. */
  function Given(phys0: nat, pallocs: seq<nat>, n: nat): (phys: nat)
    requires n <= |pallocs|
  {
    if n == 0 then phys0 else if Given(phys0, pallocs, n - 1) != NULL then Given(phys0, pallocs, n - 1) else pallocs[n - 1]
  }

  lemma {:induction false} GivenStays(phys0: nat, pallocs: seq<nat>, m: nat, n: nat)
    requires m <= n <= |pallocs|
    ensures Given(phys0, pallocs, m) != NULL ==> Given(phys0, pallocs, n) == Given(phys0, pallocs, m)
    ensures Given(phys0, pallocs, n) == NULL ==> forall i :: m <= i < n ==> pallocs[i] == NULL
    decreases n - m
  {
    if m < n {
      GivenStays(phys0, pallocs, m, n - 1);
    }
  }

  /** All contexts get the same memory if and only if there is some for the first one, or palloc has none for any. */
  lemma SameMemory(phys0: nat, pallocs: seq<nat>)
    requires |pallocs| > 0
    ensures (forall n :: 1 <= n <= |pallocs| ==> Given(phys0, pallocs, n) == Given(phys0, pallocs, 1)) <==>
      || phys0 != NULL || pallocs[0] != NULL || (forall i :: 0 <= i < |pallocs| ==> pallocs[i] == NULL)
  {
    var first, all := Given(phys0, pallocs, 1), |pallocs|;
    assert Given(phys0, pallocs, 0) == phys0;
    assert first == if phys0 != NULL then phys0 else pallocs[0];
    if first != NULL {
      forall n | 1 <= n <= all ensures Given(phys0, pallocs, n) == first {
        GivenStays(phys0, pallocs, 1, n);
      }
    } else {
      GivenStays(phys0, pallocs, 0, all);
      if forall i :: 0 <= i < all ==> pallocs[i] == NULL {
        AllNull(pallocs, all);
      } else {
        assert Given(phys0, pallocs, all) != first;
      }
    }
  }

  lemma {:induction false} AllNull(pallocs: seq<nat>, n: nat)
    requires n <= |pallocs| && forall i :: 0 <= i < |pallocs| ==> pallocs[i] == NULL
    ensures forall m: nat :: m <= n ==> Given(NULL, pallocs, m) == NULL
  {
    if n > 0 {
      AllNull(pallocs, n - 1);
    }
  }

  /** vm_alloc_many: the same addresses in every context, showing the memory it was given, or NULL and nothing changed
      but a search hint. */
  method AllocMany(ctxs: seq<Context>, size: nat, phys0: nat, pallocs: seq<nat>, flags: seq<Flags>, spares: seq<nat>, supplies: seq<seq<nat>>)
    returns (virt: nat)
    requires |ctxs| > 0 && size < WRAP
    requires |flags| == |spares| == |supplies| == |pallocs| == |ctxs|
    requires forall i, j :: 0 <= i < j < |ctxs| ==> ctxs[i] != ctxs[j]
    requires forall i :: 0 <= i < |ctxs| ==> ctxs[i].Valid() && Ready(ctxs[i], spares[i], supplies[i], size)
    requires OrderlyMany(ctxs[0], ctxs[1..], size)
    modifies ctxs
    ensures forall i :: 0 <= i < |ctxs| ==> ctxs[i].Valid()
    ensures virt == NULL <==>
      old(NoneCommon(ctxs[0].data, ctxs[1..], size, Bitmap.SearchFrom(ctxs[0].firstFree, 0), |ctxs[0].data| * Bitmap.WORD_BITS))
    ensures virt == NULL ==> forall i :: 0 <= i < |ctxs| ==>
      Untouched(old(ctxs[i].data), old(ctxs[i].View()), old(ctxs[i].tables), ctxs[i])
    ensures virt != NULL ==> virt % PAGE_SIZE == 0 && forall i :: 0 <= i < |ctxs| ==>
      Shared(old(ctxs[i].data), old(ctxs[i].View()), old(ctxs[i].tables), ctxs[i],
        Area(virt, size * PAGE_SIZE, Given(phys0, pallocs, i + 1), [], flags[i]))
    ensures virt != NULL ==> forall i :: 0 <= i < |ctxs| && ctxs[i].hasDir && Given(phys0, pallocs, i + 1) != NULL ==>
      Located(ctxs[i].tables, virt, Given(phys0, pallocs, i + 1), size, flags[i].rw, flags[i].user)
  {
    hide Linked, Areas, Consistent, Fresh, Shaped, Bitmap.Clear, Bitmap.Filled, Shared, First, Num, Candidate, Accepted, NoneCommon,
      Bitmap.SearchFrom, Located, Given;
    assert [ctxs[0]] + ctxs[1..] == ctxs;
    ghost var lo := Bitmap.SearchFrom(ctxs[0].firstFree, 0);
    var page := FindCommon(ctxs[0], ctxs[1..], size);
    if page == -1 {
      return NULL;
    }
    CommonInside(ctxs[0].data, ctxs[1..], size, lo, page);
    CommonSome(ctxs[0].data, ctxs[1..], size, lo, page);
    virt := page * PAGE_SIZE;
    AdoptAll(ctxs, page, size, phys0, pallocs, flags, spares, supplies);
    forall i | 0 <= i < |ctxs| && ctxs[i].hasDir && Given(phys0, pallocs, i + 1) != NULL
      ensures Located(ctxs[i].tables, virt, Given(phys0, pallocs, i + 1), size, flags[i].rw, flags[i].user)
    {
      var a := Area(virt, size * PAGE_SIZE, Given(phys0, pallocs, i + 1), [], flags[i]);
      RunShaped(a, page, size);
      SharedLocated(old(ctxs[i].data), old(ctxs[i].View()), old(ctxs[i].tables), ctxs[i], a);
    }
  }

  lemma SharedLocated(data: Data, areas: seq<Area>, t: Tables, c: Context, a: Area)
    requires Shared(data, areas, t, c, a) && Shaped(a) && c.hasDir && a.phys != NULL
    ensures Located(c.tables, a.addr, a.phys, Num(a), a.flags.rw, a.flags.user)
  {
    hide Located, Shaped, Num, First, Entered, Bitmap.Clear, Bitmap.Filled, Areas;
    EnteredLocated(t, c.tables, a);
  }

  /** The second half of vm_alloc_many. */
  method AdoptAll(ctxs: seq<Context>, page: nat, size: nat, phys0: nat, pallocs: seq<nat>, flags: seq<Flags>, spares: seq<nat>,
                  supplies: seq<seq<nat>>)
    requires |flags| == |spares| == |supplies| == |pallocs| == |ctxs| && page + size <= PAGES
    requires forall i, j :: 0 <= i < j < |ctxs| ==> ctxs[i] != ctxs[j]
    requires forall i :: 0 <= i < |ctxs| ==> ctxs[i].Valid() && Ready(ctxs[i], spares[i], supplies[i], size)
    requires FreeInAll(ctxs, page, size)
    modifies ctxs
    ensures forall i :: 0 <= i < |ctxs| ==> ctxs[i].Valid()
    ensures forall i :: 0 <= i < |ctxs| ==> Shared(old(ctxs[i].data), old(ctxs[i].View()), old(ctxs[i].tables), ctxs[i],
      Area(page * PAGE_SIZE, size * PAGE_SIZE, Given(phys0, pallocs, i + 1), [], flags[i]))
  {
    hide Linked, Areas, Consistent, Fresh, Shaped, Bitmap.Clear, Bitmap.Filled, Shared, First, Num;
    var phys := phys0;
    for i := 0 to |ctxs|
      invariant phys == Given(phys0, pallocs, i)
      invariant forall j :: 0 <= j < |ctxs| ==> ctxs[j].Valid()
      invariant forall j :: i <= j < |ctxs| ==> unchanged(ctxs[j])
      invariant forall j :: 0 <= j < i ==> Shared(old(ctxs[j].data), old(ctxs[j].View()), old(ctxs[j].tables), ctxs[j],
        Area(page * PAGE_SIZE, size * PAGE_SIZE, Given(phys0, pallocs, j + 1), [], flags[j]))
    {
      if phys == NULL {
        phys := pallocs[i];
      }
      var a := Area(page * PAGE_SIZE, size * PAGE_SIZE, phys, [], flags[i]);
      RunShaped(a, page, size);
      ctxs[i].Adopt(a, spares[i], supplies[i]);
      NowShared(old(ctxs[i].data), old(ctxs[i].View()), old(ctxs[i].tables), ctxs[i], a);
    }
  }

  lemma PageTimes(page: nat)
    ensures page * PAGE_SIZE / PAGE_SIZE == page
  {
  }

  lemma RunShaped(a: Area, page: nat, size: nat)
    requires a.addr == page * PAGE_SIZE && a.size == size * PAGE_SIZE && page + size <= PAGES
    ensures Shaped(a) && First(a) == page && Num(a) == size
  {
  }

  lemma NowShared(data: Data, areas: seq<Area>, t: Tables, c: Context, a: Area)
    requires Bitmap.Clear(data, First(a), First(a) + Num(a)) && Bitmap.Filled(data, c.data, First(a), First(a) + Num(a), true)
    requires c.View() == [a] + areas && Entered(c.hasDir, t, c.tables, a)
    ensures Shared(data, areas, t, c, a)
  {
  }

  /** The context has got the area, on pages that were free, and is otherwise as before. */
  ghost predicate Shared(data: Data, areas: seq<Area>, t: Tables, c: Context, a: Area)
    reads c
  {
    && Bitmap.Clear(data, First(a), First(a) + Num(a)) && Bitmap.Filled(data, c.data, First(a), First(a) + Num(a), true)
    && c.View() == [a] + areas && Entered(c.hasDir, t, c.tables, a)
  }

  /** The context has a spare node and spare frames. */
  ghost predicate Ready(c: Context, spare: nat, supply: seq<nat>, size: nat)
    reads c
  {
    spare != NULL && spare !in c.nodes && Fresh(c.tables, supply) && (|supply| >= size || Complete(c.tables))
  }

  ghost predicate Untouched(data: Data, areas: seq<Area>, t: Tables, c: Context)
    reads c
  {
    c.data == data && c.View() == areas && c.tables == t
  }
}
