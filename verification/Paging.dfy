/** The two-level page tables of src/mem/i386-paging.c. */
module Paging {
  import opened Common

  const FAN := 1024
  const PAGES := FAN * FAN

  /** A directory or table entry. */
  datatype Entry = Entry(present: bool, frame: nat, rw: bool, user: bool)

  const UNMAPPED := Entry(false, 0, false, false)

  /** A page directory and the frames of physical memory that hold page tables, by frame number. */
  datatype Tables = Tables(dir: seq<Entry>, mem: map<nat, seq<Entry>>)

  /** Every present directory entry points to a page table of its own. */
  predicate WellFormed(t: Tables) {
    && |t.dir| == FAN
    && (forall d :: 0 <= d < FAN && t.dir[d].present ==> t.dir[d].frame in t.mem && |t.mem[t.dir[d].frame]| == FAN)
    && (forall d, e :: 0 <= d < e < FAN && t.dir[d].present && t.dir[e].present ==> t.dir[d].frame != t.dir[e].frame)
  }

  /** What the hardware finds for a page: its entry, or UNMAPPED. */
  function Walk(t: Tables, page: nat): (e: Entry)
    requires WellFormed(t) && page < PAGES
    ensures e != UNMAPPED ==> e.present
  {
    var d := t.dir[page / FAN];
    if d.present && t.mem[d.frame][page % FAN].present then t.mem[d.frame][page % FAN] else UNMAPPED
  }

  /** The two levels: entry e of the table that entry d of the directory names is the entry of page 1024 d + e. */
  lemma WalkLevels(t: Tables, d: nat, e: nat)
    requires WellFormed(t) && d < FAN && e < FAN
    ensures Walk(t, FAN * d + e) ==
      if t.dir[d].present && t.mem[t.dir[d].frame][e].present then t.mem[t.dir[d].frame][e] else UNMAPPED
  {
    assert (FAN * d + e) / FAN == d && (FAN * d + e) % FAN == e;
  }

  /** The byte of physical memory behind an address that the tables map. */
  function PhysicalByte(t: Tables, addr: nat): nat
    requires WellFormed(t) && addr < WRAP
  {
    Walk(t, addr / PAGE_SIZE).frame * PAGE_SIZE + addr % PAGE_SIZE
  }

  function PageStart(x: nat): nat { x - x % PAGE_SIZE }

  /** Byte j from the page of virt on is mapped to byte j from the page of phys on, on 32 bits, with the given rights. */
  predicate LocatedByte(t: Tables, virt: nat, phys: nat, j: nat, rw: bool, user: bool)
    requires WellFormed(t)
  {
    var x := PageStart(virt) + j;
    && x < WRAP && PhysicalByte(t, x) == (PageStart(phys) + j) % WRAP
    && var e := Walk(t, x / PAGE_SIZE); e.present && e.rw == rw && e.user == user
  }

  /** Every byte of the num pages from that of virt on is mapped to its place in the memory from phys on. */
  ghost predicate Located(t: Tables, virt: nat, phys: nat, num: nat, rw: bool, user: bool) {
    && WellFormed(t)
    && forall j: nat :: j < num * PAGE_SIZE ==> LocatedByte(t, virt, phys, j, rw, user)
  }

  /** RDIV by the page size. */
  function PagesOf(size: nat): nat { (size + PAGE_SIZE - 1) / PAGE_SIZE }

  /** The entry paging_set_range writes for the k-th page of a range. */
  function EntryFor(phys: nat, k: nat, rw: bool, user: bool): (e: Entry) {
    Entry(true, (phys + k * PAGE_SIZE) % WRAP / PAGE_SIZE, rw, user)
  }

  /** The num pages from first on map to consecutive frames of phys; every other page is as in t0. */
  ghost predicate Painted(t0: Tables, t: Tables, first: nat, num: nat, phys: nat, rw: bool, user: bool) {
    && WellFormed(t0) && WellFormed(t)
    && forall p: nat :: p < PAGES ==>
         Walk(t, p) == if first <= p < first + num then EntryFor(phys, p - first, rw, user) else Walk(t0, p)
  }

  /** Every byte of such pages is where it should be. */
  lemma PaintedLocated(t0: Tables, t: Tables, first: nat, num: nat, phys: nat, rw: bool, user: bool)
    requires Painted(t0, t, first, num, phys, rw, user) && first + num <= PAGES
    ensures Located(t, first * PAGE_SIZE, phys, num, rw, user)
  {
    hide Walk, WellFormed;
    forall j: nat | j < num * PAGE_SIZE ensures LocatedByte(t, first * PAGE_SIZE, phys, j, rw, user) {
      LocatedEntry(t, first, phys, j, rw, user);
    }
  }

  /** Byte j of a range, by the entry of its page. */
  lemma LocatedEntry(t: Tables, first: nat, phys: nat, j: nat, rw: bool, user: bool)
    requires WellFormed(t) && first + j / PAGE_SIZE < PAGES && Walk(t, first + j / PAGE_SIZE) == EntryFor(phys, j / PAGE_SIZE, rw, user)
    ensures LocatedByte(t, first * PAGE_SIZE, phys, j, rw, user)
  {
    hide Walk, WellFormed;
    PageSplit(first, j);
    FrameByte(phys, j);
  }

  lemma PageSplit(first: nat, j: nat)
    ensures PageStart(first * PAGE_SIZE) == first * PAGE_SIZE
    ensures (first * PAGE_SIZE + j) / PAGE_SIZE == first + j / PAGE_SIZE && (first * PAGE_SIZE + j) % PAGE_SIZE == j % PAGE_SIZE
  {
  }

  /** The frame of page j / PAGE_SIZE, and byte j of the memory. */
  lemma FrameByte(phys: nat, j: nat)
    ensures (phys + j / PAGE_SIZE * PAGE_SIZE) % WRAP / PAGE_SIZE * PAGE_SIZE + j % PAGE_SIZE == (PageStart(phys) + j) % WRAP
  {
    var p, k, o := phys / PAGE_SIZE, j / PAGE_SIZE, j % PAGE_SIZE;
    var n := p + k;
    var q, r := n / PAGES, n % PAGES;
    assert phys + k * PAGE_SIZE == q * WRAP + (r * PAGE_SIZE + phys % PAGE_SIZE);
    Wrapped(q, r * PAGE_SIZE + phys % PAGE_SIZE);
    assert PageStart(phys) + j == q * WRAP + (r * PAGE_SIZE + o);
    Wrapped(q, r * PAGE_SIZE + o);
  }

  lemma Wrapped(q: nat, x: nat)
    requires x < WRAP
    ensures (q * WRAP + x) % WRAP == x
  {
  }

  /** The num pages from first on are unmapped; every other page is as in t0. */
  ghost predicate Erased(t0: Tables, t: Tables, first: nat, num: nat) {
    && WellFormed(t0) && WellFormed(t)
    && forall p: nat :: p < PAGES ==> Walk(t, p) == if first <= p < first + num then UNMAPPED else Walk(t0, p)
  }

  /** Frames that may become page tables: all different, and no page table yet. */
  predicate Fresh(t: Tables, supply: seq<nat>) {
    && (forall i :: 0 <= i < |supply| ==> supply[i] !in t.mem)
    && (forall i, j :: 0 <= i < j < |supply| ==> supply[i] != supply[j])
  }

  function BlankTable(): (s: seq<Entry>)
    ensures |s| == FAN && forall i :: 0 <= i < FAN ==> s[i] == UNMAPPED
  {
    seq(FAN, _ => UNMAPPED)
  }

  /** Every directory entry has its table, as paging_init sets up the kernel's directory. */
  predicate Complete(t: Tables) { forall d :: 0 <= d < |t.dir| ==> t.dir[d].present }

  /** A zeroed page table in the given frame for directory entry d. */
  function AddTable(t: Tables, d: nat, frame: nat): (t': Tables)
    requires d < |t.dir|
  {
    Tables(t.dir[d := Entry(true, frame, true, true)], t.mem[frame := BlankTable()])
  }

  lemma AddTableWalk(t: Tables, d: nat, frame: nat)
    requires WellFormed(t) && d < FAN && !t.dir[d].present && frame !in t.mem
    ensures WellFormed(AddTable(t, d, frame))
    ensures forall p: nat :: p < PAGES ==> Walk(AddTable(t, d, frame), p) == Walk(t, p)
  {
  }

  function PutEntry(t: Tables, page: nat, e: Entry): (t': Tables)
    requires WellFormed(t) && page < PAGES && t.dir[page / FAN].present
  {
    var f := t.dir[page / FAN].frame;
    t.(mem := t.mem[f := t.mem[f][page % FAN := e]])
  }

  lemma PutEntryWalk(t: Tables, page: nat, e: Entry)
    requires WellFormed(t) && page < PAGES && t.dir[page / FAN].present
    ensures WellFormed(PutEntry(t, page, e))
    ensures forall p: nat :: p < PAGES && p != page ==> Walk(PutEntry(t, page, e), p) == Walk(t, p)
    ensures Walk(PutEntry(t, page, e), page) == if e.present then e else UNMAPPED
    ensures PutEntry(t, page, e).mem.Keys == t.mem.Keys
  {
    var t' := PutEntry(t, page, e);
    forall p: nat | p < PAGES && p != page ensures Walk(t', p) == Walk(t, p) {
      if p / FAN == page / FAN {
        assert p % FAN != page % FAN;
      }
    }
  }

  lemma PaintMore(t0: Tables, t: Tables, t': Tables, first: nat, k: nat, phys: nat, rw: bool, user: bool)
    requires Painted(t0, t, first, k, phys, rw, user) && WellFormed(t') && first + k < PAGES
    requires forall p: nat :: p < PAGES && p != first + k ==> Walk(t', p) == Walk(t, p)
    requires Walk(t', first + k) == EntryFor(phys, k, rw, user)
    ensures Painted(t0, t', first, k + 1, phys, rw, user)
  {
    hide Walk, WellFormed;
  }

  lemma EraseMore(t0: Tables, t: Tables, t': Tables, first: nat, k: nat)
    requires Erased(t0, t, first, k) && WellFormed(t') && first + k < PAGES
    requires forall p: nat :: p < PAGES && p != first + k ==> Walk(t', p) == Walk(t, p)
    requires Walk(t', first + k) == UNMAPPED
    ensures Erased(t0, t', first, k + 1)
  {
    hide Walk, WellFormed;
  }

  /** One turn of the loop of paging_set_range: the entry of a page is written, in a new table if need be. */
  method SetPage(t0: Tables, page: nat, e: Entry, supply: seq<nat>) returns (t: Tables, rest: seq<nat>)
    requires WellFormed(t0) && page < PAGES && e.present && Fresh(t0, supply) && (|supply| > 0 || Complete(t0))
    ensures Complete(t0) ==> Complete(t) && t.dir == t0.dir && t.mem.Keys == t0.mem.Keys && rest == supply
    ensures WellFormed(t) && Walk(t, page) == e && forall p: nat :: p < PAGES && p != page ==> Walk(t, p) == Walk(t0, p)
    ensures Fresh(t, rest) && |rest| >= |supply| - 1
  {
    t, rest := t0, supply;
    if !t.dir[page / FAN].present {
      AddTableWalk(t, page / FAN, supply[0]);
      t := AddTable(t, page / FAN, supply[0]);
      rest := supply[1..];
    }
    hide Walk;
    PutEntryWalk(t, page, e);
    t := PutEntry(t, page, e);
  }

  /** paging_set_range: each page of the range maps to its part of physical memory and no other page changes. Where the
      directory is complete no table is added, so nothing is allocated. */
  method SetRange(t0: Tables, virt: nat, phys: nat, size: nat, rw: bool, user: bool, supply: seq<nat>)
    returns (t: Tables, rest: seq<nat>)
    requires WellFormed(t0) && virt / PAGE_SIZE + PagesOf(size) <= PAGES
    requires Fresh(t0, supply) && (|supply| >= PagesOf(size) || Complete(t0))
    ensures Painted(t0, t, virt / PAGE_SIZE, PagesOf(size), phys, rw, user)
    ensures Located(t, virt, phys, PagesOf(size), rw, user)
    ensures Complete(t0) ==> Complete(t) && t.dir == t0.dir && t.mem.Keys == t0.mem.Keys && rest == supply
    ensures Fresh(t, rest) && |rest| >= |supply| - PagesOf(size)
  {
    hide Walk, WellFormed, Fresh, Complete, Located;
    t, rest := t0, supply;
    ghost var first := virt / PAGE_SIZE;
    ghost var k := 0;
    var off := 0;
    StartPainting(t0, first, phys, rw, user);
    while off < size
      invariant off == k * PAGE_SIZE && 0 <= k <= PagesOf(size)
      invariant Painted(t0, t, first, k, phys, rw, user)
      invariant Fresh(t, rest) && |rest| >= |supply| - k
      invariant Complete(t0) ==> Complete(t) && t.dir == t0.dir && t.mem.Keys == t0.mem.Keys && rest == supply
      decreases size - off
    {
      var t' := t;
      hide Painted;
      PaintedForm(t0, t, first, k, phys, rw, user);
      assert (virt + off) / PAGE_SIZE == first + k;
      t', rest := SetPage(t, (virt + off) / PAGE_SIZE, Entry(true, (phys + off) % WRAP / PAGE_SIZE, rw, user), rest);
      PaintMore(t0, t, t', first, k, phys, rw, user);
      t := t';
      off := off + PAGE_SIZE;
      k := k + 1;
    }
    PaintedLocated(t0, t, first, k, phys, rw, user);
    SameLocated(t, virt, phys, k, rw, user);
  }

  lemma SameLocated(t: Tables, virt: nat, phys: nat, num: nat, rw: bool, user: bool)
    requires Located(t, virt / PAGE_SIZE * PAGE_SIZE, phys, num, rw, user)
    ensures Located(t, virt, phys, num, rw, user)
  {
    hide WellFormed, Walk;
    assert PageStart(virt / PAGE_SIZE * PAGE_SIZE) == PageStart(virt);
    hide PageStart;
    forall j: nat | j < num * PAGE_SIZE ensures LocatedByte(t, virt, phys, j, rw, user) {
      assert LocatedByte(t, virt / PAGE_SIZE * PAGE_SIZE, phys, j, rw, user);
    }
  }

  lemma PaintedForm(t0: Tables, t: Tables, first: nat, k: nat, phys: nat, rw: bool, user: bool)
    requires Painted(t0, t, first, k, phys, rw, user)
    ensures WellFormed(t) && WellFormed(t0)
  {
  }

  lemma ErasedForm(t0: Tables, t: Tables, first: nat, k: nat)
    requires Erased(t0, t, first, k)
    ensures WellFormed(t) && WellFormed(t0)
  {
  }

  lemma StartPainting(t: Tables, first: nat, phys: nat, rw: bool, user: bool)
    requires WellFormed(t)
    ensures Painted(t, t, first, 0, phys, rw, user)
  {
  }

  /** One turn of the loop of paging_clear_range. */
  method ClearPage(t0: Tables, page: nat) returns (t: Tables)
    requires WellFormed(t0) && page < PAGES
    ensures WellFormed(t) && Walk(t, page) == UNMAPPED && t.mem.Keys == t0.mem.Keys
    ensures forall p: nat :: p < PAGES && p != page ==> Walk(t, p) == Walk(t0, p)
  {
    t := t0;
    if t.dir[page / FAN].present {
      var e := t.mem[t.dir[page / FAN].frame][page % FAN].(present := false);
      PutEntryWalk(t, page, e);
      t := PutEntry(t, page, e);
    }
  }

  /** paging_clear_range. */
  method ClearRange(t0: Tables, virt: nat, size: nat) returns (t: Tables)
    requires WellFormed(t0) && virt / PAGE_SIZE + PagesOf(size) <= PAGES
    ensures Erased(t0, t, virt / PAGE_SIZE, PagesOf(size)) && t.mem.Keys == t0.mem.Keys
  {
    hide Walk, WellFormed;
    t := t0;
    ghost var first := virt / PAGE_SIZE;
    ghost var k := 0;
    var off := 0;
    while off < size
      invariant off == k * PAGE_SIZE && 0 <= k <= PagesOf(size)
      invariant Erased(t0, t, first, k) && t.mem.Keys == t0.mem.Keys
      decreases size - off
    {
      hide Erased;
      ErasedForm(t0, t, first, k);
      assert (virt + off) / PAGE_SIZE == first + k;
      var t' := ClearPage(t, (virt + off) / PAGE_SIZE);
      EraseMore(t0, t, t', first, k);
      t := t';
      off := off + PAGE_SIZE;
      k := k + 1;
    }
  }
}
