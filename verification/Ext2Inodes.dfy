/** The inode store of src/fs/ext2_inode.c: inode tables on the disk behind a ring cache and a copy of the root inode. */
module Ext2Inodes {
  import opened Common
  import opened BlockDevice

  const ROOT_INODE := 2
  const CACHE_MAX := 0x100
  // sizeof(struct inode), which is packed and ends with a 16-bit field behind the 128 bytes of a classic inode
  const STRUCT := 130

  /** What the superblock and the block group table say; tables holds the first block of each group's inode table. */
  datatype Layout = Layout(blockSize: nat, blockCount: nat, blocksPerGroup: nat, inodesPerGroup: nat, inodeSize: nat, tables: seq<nat>)

  predicate Sane(l: Layout) {
    && l.blockSize > 0 && l.blocksPerGroup > 0 && l.inodesPerGroup > 0 && 0 < l.inodeSize < 0x1_0000
    && l.blockCount / l.blocksPerGroup < |l.tables|
  }

  function Group(l: Layout, num: nat): nat
    requires l.inodesPerGroup > 0
  {
    (num - 1) % WRAP / l.inodesPerGroup
  }

  function IndexIn(l: Layout, num: nat): nat
    requires l.inodesPerGroup > 0
  {
    (num - 1) % WRAP % l.inodesPerGroup
  }

  /** Byte i * size; and the start of a group's inode table. */
  function Times(i: nat, size: nat): nat { i * size }

  /** The group exists and has an inode table. */
  predicate Tabled(l: Layout, g: nat)
    requires Sane(l)
  {
    g <= l.blockCount / l.blocksPerGroup && l.tables[g] != 0
  }

  /** find_inode: where the inode is on the disk, 0 if nowhere. */
  function FindInode(l: Layout, num: nat): (off: nat)
    requires Sane(l) && num < WRAP
  {
    var g := Group(l, num);
    if g > l.blockCount / l.blocksPerGroup then 0
    else if l.tables[g] == 0 then 0
    else Times(l.tables[g], l.blockSize) + Times(IndexIn(l, num), l.inodeSize)
  }

  /** Inode number i of group g, counted from 0, is the i-th of the table that the group's descriptor names. */
  lemma InodeAt(l: Layout, g: nat, i: nat)
    requires Sane(l) && Tabled(l, g) && i < l.inodesPerGroup && g * l.inodesPerGroup + i + 1 < WRAP
    ensures FindInode(l, g * l.inodesPerGroup + i + 1) == l.tables[g] * l.blockSize + i * l.inodeSize
  {
    var n, e := g * l.inodesPerGroup + i, l.inodesPerGroup;
    Divides(n, e);
    Above(n / e, g, e);
    Above(g, n / e, e);
    assert n % WRAP == n && n / e == g && n % e == i;
  }

  function TableStart(l: Layout, g: nat): nat
    requires Sane(l) && Tabled(l, g)
  {
    Times(l.tables[g], l.blockSize)
  }

  function TableEnd(l: Layout, g: nat): nat
    requires Sane(l) && Tabled(l, g)
  {
    TableStart(l, g) + Times(l.inodesPerGroup, l.inodeSize)
  }

  /** The disk is laid out well: the inode tables lie on it and do not overlap. */
  predicate LaidOut(l: Layout, size: nat) {
    && Sane(l)
    && (forall g :: 0 <= g < |l.tables| && Tabled(l, g) ==> TableEnd(l, g) <= size)
    && (forall g, h :: 0 <= g < h < |l.tables| && Tabled(l, g) && Tabled(l, h) ==>
          TableEnd(l, g) <= TableStart(l, h) || TableEnd(l, h) <= TableStart(l, g))
  }

  // ---------------------------------------------------------------- slots

  lemma TimesUp(i: nat, j: nat, size: nat)
    requires i < j
    ensures Times(i, size) + size <= Times(j, size)
  {
    Above(j, i, size);
  }

  lemma TimesNonzero(i: nat, size: nat)
    requires i > 0 && size > 0
    ensures Times(i, size) > 0
  {
  }

  /** A found inode lies inside its group's table. */
  lemma SlotInside(l: Layout, size: nat, num: nat)
    requires LaidOut(l, size) && num < WRAP
    ensures FindInode(l, num) != 0 <==> Tabled(l, Group(l, num))
    ensures FindInode(l, num) != 0 ==>
      && TableStart(l, Group(l, num)) <= FindInode(l, num)
      && FindInode(l, num) + l.inodeSize <= TableEnd(l, Group(l, num)) <= size
  {
    var g := Group(l, num);
    if Tabled(l, g) {
      TimesNonzero(l.tables[g], l.blockSize);
      TimesUp(IndexIn(l, num), l.inodesPerGroup, l.inodeSize);
    }
  }

  /** Inode numbers are told apart by group and index. */
  lemma Numbers(l: Layout, a: nat, b: nat)
    requires l.inodesPerGroup > 0 && 0 < a < WRAP && 0 < b < WRAP && Group(l, a) == Group(l, b) && IndexIn(l, a) == IndexIn(l, b)
    ensures a == b
  {
    Divides(a - 1, l.inodesPerGroup);
    Divides(b - 1, l.inodesPerGroup);
    assert (a - 1) % WRAP == a - 1 && (b - 1) % WRAP == b - 1;
  }

  /** Different inodes lie apart. */
  lemma SlotsApart(l: Layout, size: nat, a: nat, b: nat)
    requires LaidOut(l, size) && 0 < a < WRAP && 0 < b < WRAP && a != b && FindInode(l, a) != 0 && FindInode(l, b) != 0
    ensures FindInode(l, a) + l.inodeSize <= FindInode(l, b) || FindInode(l, b) + l.inodeSize <= FindInode(l, a)
  {
    hide Group, IndexIn;
    SlotInside(l, size, a);
    SlotInside(l, size, b);
    var g, h := Group(l, a), Group(l, b);
    if g == h {
      if IndexIn(l, a) == IndexIn(l, b) {
        Numbers(l, a, b);
      } else if IndexIn(l, a) < IndexIn(l, b) {
        TimesUp(IndexIn(l, a), IndexIn(l, b), l.inodeSize);
      } else {
        TimesUp(IndexIn(l, b), IndexIn(l, a), l.inodeSize);
      }
    } else if g < h {
      assert Tabled(l, g) && Tabled(l, h);
    } else {
      assert Tabled(l, h) && Tabled(l, g);
    }
  }

  // ---------------------------------------------------------------- the cache

  datatype Entry = Entry(num: nat, inode: seq<Byte>)

  /** The source copies an inode in two lengths, the inode size of the file system and the size of the struct: as many
      bytes are certainly of the inode, and so many bytes of a buffer are touched. */
  function Known(l: Layout): nat { Min(l.inodeSize, STRUCT) }
  function Extent(l: Layout): nat { Max(l.inodeSize, STRUCT) }

  /** The first n bytes of an inode as they are on the disk. */
  function OnDisk(l: Layout, flat: seq<Byte>, num: nat, n: nat): (s: seq<Byte>)
    requires Sane(l) && num < WRAP && FindInode(l, num) + n <= |flat|
    ensures |s| == n
  {
    flat[FindInode(l, num)..FindInode(l, num) + n]
  }

  /** The entry is, as far as it is known to be of the inode, what the disk holds. */
  predicate Fresh(l: Layout, flat: seq<Byte>, e: Entry) {
    && Sane(l) && 0 < e.num < WRAP && FindInode(l, e.num) != 0 && FindInode(l, e.num) + l.inodeSize <= |flat|
    && |e.inode| == STRUCT && e.inode[..Known(l)] == OnDisk(l, flat, e.num, Known(l))
  }

  /** The used entries are the first k; each is what the disk holds and no inode has two. The ring position is the
      first free entry as long as there is one. */
  predicate Coherent(l: Layout, flat: seq<Byte>, cache: seq<Entry>, end: nat, k: nat) {
    && |cache| == CACHE_MAX && k <= CACHE_MAX && end < CACHE_MAX && (k < CACHE_MAX ==> end == k)
    && (forall i :: k <= i < CACHE_MAX ==> cache[i].num == 0)
    && (forall i :: 0 <= i < k ==> Fresh(l, flat, cache[i]))
    && (forall i, j :: 0 <= i < j < k ==> cache[i].num != cache[j].num)
  }

  /** The root copy is what the disk holds. */
  predicate RootFresh(l: Layout, flat: seq<Byte>, root: Option<seq<Byte>>) {
    root.Some? ==>
      && Sane(l) && FindInode(l, ROOT_INODE) != 0 && FindInode(l, ROOT_INODE) + l.inodeSize <= |flat|
      && root.value == OnDisk(l, flat, ROOT_INODE, l.inodeSize)
  }

  /** A new entry at the ring position. */
  lemma InsertCoherent(l: Layout, flat: seq<Byte>, cache: seq<Entry>, end: nat, k: nat, e: Entry)
    requires Coherent(l, flat, cache, end, k) && Fresh(l, flat, e) && forall i :: 0 <= i < k ==> cache[i].num != e.num
    ensures Coherent(l, flat, cache[end := e], (end + 1) % CACHE_MAX, if k < CACHE_MAX then k + 1 else k)
  {
    hide Fresh;
    FreshNum(l, flat, e);
  }

  lemma FreshNum(l: Layout, flat: seq<Byte>, e: Entry)
    requires Fresh(l, flat, e)
    ensures 0 < e.num < WRAP
  {
  }

  /** A write to one inode leaves the entry of another fresh. */
  lemma OtherFresh(l: Layout, flat: seq<Byte>, num: nat, buf: seq<Byte>, e: Entry)
    requires LaidOut(l, |flat|) && 0 < num < WRAP && FindInode(l, num) != 0 && |buf| == l.inodeSize
    requires FindInode(l, num) + l.inodeSize <= |flat| && Fresh(l, flat, e) && e.num != num
    ensures Fresh(l, Patched(flat, FindInode(l, num), buf), e)
  {
    hide LaidOut, FindInode;
    SlotsApart(l, |flat|, num, e.num);
  }

  lemma OwnFresh(l: Layout, flat: seq<Byte>, num: nat, buf: seq<Byte>)
    requires Sane(l) && 0 < num < WRAP && FindInode(l, num) != 0 && |buf| >= Extent(l) && FindInode(l, num) + l.inodeSize <= |flat|
    ensures Fresh(l, Patched(flat, FindInode(l, num), buf[..l.inodeSize]), Entry(num, buf[..STRUCT]))
  {
    hide FindInode;
  }

  /** The cache after a write: the entry of the inode, if it has one, is the new inode. */
  function Rewritten(cache: seq<Entry>, num: nat, inode: seq<Byte>): (c: seq<Entry>)
    ensures |c| == |cache|
  {
    seq(|cache|, i requires 0 <= i < |cache| => if num != 0 && cache[i].num == num then Entry(num, inode) else cache[i])
  }

  lemma WriteCoherent(l: Layout, flat: seq<Byte>, cache: seq<Entry>, end: nat, k: nat, num: nat, buf: seq<Byte>)
    requires LaidOut(l, |flat|) && Coherent(l, flat, cache, end, k) && |buf| >= Extent(l)
    requires 0 < num < WRAP && FindInode(l, num) != 0 && FindInode(l, num) + l.inodeSize <= |flat|
    ensures Coherent(l, Patched(flat, FindInode(l, num), buf[..l.inodeSize]), Rewritten(cache, num, buf[..STRUCT]), end, k)
  {
    assert Sane(l);
    hide LaidOut, FindInode, Fresh, Patched;
    var cache' := Rewritten(cache, num, buf[..STRUCT]);
    forall i | 0 <= i < k ensures Fresh(l, Patched(flat, FindInode(l, num), buf[..l.inodeSize]), cache'[i]) {
      if cache[i].num == num {
        OwnFresh(l, flat, num, buf);
      } else {
        OtherFresh(l, flat, num, buf[..l.inodeSize], cache[i]);
      }
    }
  }

  lemma WriteRoot(l: Layout, flat: seq<Byte>, root: Option<seq<Byte>>, num: nat, buf: seq<Byte>)
    requires LaidOut(l, |flat|) && RootFresh(l, flat, root) && |buf| == l.inodeSize
    requires 0 < num < WRAP && FindInode(l, num) != 0 && FindInode(l, num) + l.inodeSize <= |flat|
    ensures RootFresh(l, Patched(flat, FindInode(l, num), buf), if num == ROOT_INODE && root.Some? then Some(buf) else root)
  {
    hide LaidOut, FindInode;
    if root.Some? && num != ROOT_INODE {
      SlotsApart(l, |flat|, num, ROOT_INODE);
    }
  }

  lemma StopsAtEnd(l: Layout, flat: seq<Byte>, cache: seq<Entry>, end: nat, k: nat, i: nat)
    requires Coherent(l, flat, cache, end, k) && i <= CACHE_MAX && (i < CACHE_MAX ==> cache[i].num == 0)
    ensures i >= k
  {
    hide Fresh;
    if i < k {
      FreshNum(l, flat, cache[i]);
    }
  }

  lemma RootRead(l: Layout, flat: seq<Byte>, root: seq<Byte>)
    requires RootFresh(l, flat, Some(root))
    ensures Sane(l) && FindInode(l, ROOT_INODE) != 0 && FindInode(l, ROOT_INODE) + l.inodeSize <= |flat|
    ensures |root| == l.inodeSize && root == OnDisk(l, flat, ROOT_INODE, l.inodeSize)
  {
  }

  lemma CachedIs(l: Layout, flat: seq<Byte>, cache: seq<Entry>, end: nat, k: nat, i: nat)
    requires Coherent(l, flat, cache, end, k) && i < k
    ensures Sane(l) && 0 < cache[i].num < WRAP && FindInode(l, cache[i].num) != 0
    ensures FindInode(l, cache[i].num) + l.inodeSize <= |flat|
    ensures |cache[i].inode| == STRUCT && cache[i].inode[..Known(l)] == OnDisk(l, flat, cache[i].num, Known(l))
  {
    hide FindInode;
    assert Fresh(l, flat, cache[i]);
  }

  lemma ReadFresh(l: Layout, flat: seq<Byte>, num: nat, buf: seq<Byte>)
    requires Sane(l) && 0 < num < WRAP && FindInode(l, num) != 0 && FindInode(l, num) + l.inodeSize <= |flat|
    requires |buf| >= Extent(l) && buf[..l.inodeSize] == OnDisk(l, flat, num, l.inodeSize)
    ensures Fresh(l, flat, Entry(num, buf[..STRUCT]))
  {
    hide FindInode;
    assert buf[..STRUCT][..Known(l)] == buf[..l.inodeSize][..Known(l)];
  }

  lemma CacheSize(l: Layout, flat: seq<Byte>, cache: seq<Entry>, end: nat, k: nat)
    requires Coherent(l, flat, cache, end, k)
    ensures |cache| == CACHE_MAX && end < CACHE_MAX
  {
  }

  /** The cached inode is rewritten where check_cache found it. */
  lemma RewriteOne(l: Layout, flat: seq<Byte>, cache: seq<Entry>, end: nat, k: nat, num: nat, i: nat, inode: seq<Byte>)
    requires Coherent(l, flat, cache, end, k) && num > 0 && i <= CACHE_MAX
    requires i < CACHE_MAX ==> i < k && cache[i].num == num
    requires i == CACHE_MAX ==> forall j :: 0 <= j < k ==> cache[j].num != num
    ensures |cache| == CACHE_MAX && Rewritten(cache, num, inode) == if i < CACHE_MAX then cache[i := Entry(num, inode)] else cache
  {
    hide Fresh;
    var c := if i < CACHE_MAX then cache[i := Entry(num, inode)] else cache;
    forall j | 0 <= j < CACHE_MAX ensures Rewritten(cache, num, inode)[j] == c[j] {
      if i < j < k { assert cache[i].num != cache[j].num; }
      if j < i && j < k && i < CACHE_MAX { assert cache[j].num != cache[i].num; }
    }
  }

  // ---------------------------------------------------------------- what a read does

  /** check_cache: the first entry with the number before the first empty one, CACHE_MAX if there is none. */
  function Where(cache: seq<Entry>, num: nat, i: nat := 0): (w: nat)
    requires |cache| == CACHE_MAX && i <= CACHE_MAX
    ensures i <= w <= CACHE_MAX && (w < CACHE_MAX ==> cache[w].num == num)
    decreases CACHE_MAX - i
  {
    if i == CACHE_MAX || cache[i].num == 0 then CACHE_MAX else if cache[i].num == num then i else Where(cache, num, i + 1)
  }

  lemma {:induction false} WhereUsed(l: Layout, flat: seq<Byte>, cache: seq<Entry>, end: nat, k: nat, num: nat, i: nat)
    requires Coherent(l, flat, cache, end, k) && num > 0 && i <= CACHE_MAX
    requires forall j :: 0 <= j < i && j < k ==> cache[j].num != num
    ensures var w := Where(cache, num, i);
      if w < CACHE_MAX then w < k else forall j :: 0 <= j < k ==> cache[j].num != num
    decreases CACHE_MAX - i
  {
    hide Fresh;
    if i < CACHE_MAX {
      if cache[i].num == 0 {
        StopsAtEnd(l, flat, cache, end, k, i);
      } else if cache[i].num != num {
        WhereUsed(l, flat, cache, end, k, num, i + 1);
      }
    }
  }

  /** The memory behind the caller's pointer after ext2_inode_read. */
  function Delivered(l: Layout, flat: seq<Byte>, root: Option<seq<Byte>>, cache: seq<Entry>, num: nat, buf: seq<Byte>): (r: seq<Byte>)
    requires Sane(l) && 0 < num < WRAP && |cache| == CACHE_MAX && |buf| >= Extent(l)
    ensures |r| == |buf|
  {
    var off := FindInode(l, num);
    if num == ROOT_INODE && root.Some? then (if |root.value| <= |buf| then Patched(buf, 0, root.value) else buf)
    else if Where(cache, num) < CACHE_MAX then
      var inode := cache[Where(cache, num)].inode;
      if |inode| <= |buf| then Patched(buf, 0, inode) else buf
    else if off != 0 && off + l.inodeSize <= |flat| then Patched(buf, 0, OnDisk(l, flat, num, l.inodeSize))
    else buf
  }

  /** The cache after it. */
  function Cached(l: Layout, flat: seq<Byte>, root: Option<seq<Byte>>, cache: seq<Entry>, end: nat, num: nat, buf: seq<Byte>): (c: seq<Entry>)
    requires Sane(l) && 0 < num < WRAP && |cache| == CACHE_MAX && end < CACHE_MAX && |buf| >= Extent(l)
    ensures |c| == CACHE_MAX
  {
    if (num == ROOT_INODE && root.Some?) || Where(cache, num) < CACHE_MAX || FindInode(l, num) == 0 then cache
    else cache[end := Entry(num, Delivered(l, flat, root, cache, num, buf)[..STRUCT])]
  }

  /** The state a read needs: cache and root copy are coherent with the disk. */
  predicate Sound(l: Layout, flat: seq<Byte>, root: Option<seq<Byte>>, cache: seq<Entry>, end: nat, k: nat) {
    LaidOut(l, |flat|) && Coherent(l, flat, cache, end, k) && RootFresh(l, flat, root)
  }

  /** Whichever way an inode comes, the bytes that are certainly of it are those on the disk. If the struct fits the
      inode size, the whole struct is, and the buffer is untouched behind the inode size. */
  lemma DeliveredRight(l: Layout, flat: seq<Byte>, root: Option<seq<Byte>>, cache: seq<Entry>, end: nat, k: nat, num: nat, buf: seq<Byte>)
    requires Sound(l, flat, root, cache, end, k) && 0 < num < WRAP && |buf| >= Extent(l) && FindInode(l, num) != 0
    ensures FindInode(l, num) + l.inodeSize <= |flat| && |cache| == CACHE_MAX
    ensures Delivered(l, flat, root, cache, num, buf)[..Known(l)] == OnDisk(l, flat, num, Known(l))
    ensures Delivered(l, flat, root, cache, num, buf)[Extent(l)..] == buf[Extent(l)..]
    ensures l.inodeSize >= STRUCT ==> Delivered(l, flat, root, cache, num, buf)[l.inodeSize..] == buf[l.inodeSize..]
    ensures (num == ROOT_INODE && root.Some?) || Where(cache, num) == CACHE_MAX ==>
      Delivered(l, flat, root, cache, num, buf)[..l.inodeSize] == OnDisk(l, flat, num, l.inodeSize)
  {
    SlotInside(l, |flat|, num);
    WhereUsed(l, flat, cache, end, k, num, 0);
    hide LaidOut, FindInode, Coherent, Where;
    CacheSize(l, flat, cache, end, k);
    if num == ROOT_INODE && root.Some? {
      RootRead(l, flat, root.value);
    } else if Where(cache, num) < CACHE_MAX {
      CachedIs(l, flat, cache, end, k, Where(cache, num));
    }
    hide RootFresh;
    DeliveredPrefix(l, flat, root, cache, num, buf);
  }

  lemma DeliveredPrefix(l: Layout, flat: seq<Byte>, root: Option<seq<Byte>>, cache: seq<Entry>, num: nat, buf: seq<Byte>)
    requires Sane(l) && 0 < num < WRAP && |cache| == CACHE_MAX && |buf| >= Extent(l) && FindInode(l, num) != 0
    requires FindInode(l, num) + l.inodeSize <= |flat|
    requires num == ROOT_INODE && root.Some? ==> root.value == OnDisk(l, flat, num, l.inodeSize)
    requires Where(cache, num) < CACHE_MAX ==>
      var inode := cache[Where(cache, num)].inode; |inode| == STRUCT && inode[..Known(l)] == OnDisk(l, flat, num, Known(l))
    ensures var r := Delivered(l, flat, root, cache, num, buf);
      && r[..Known(l)] == OnDisk(l, flat, num, Known(l)) && r[Extent(l)..] == buf[Extent(l)..]
      && (l.inodeSize >= STRUCT ==> r[l.inodeSize..] == buf[l.inodeSize..])
      && ((num == ROOT_INODE && root.Some?) || Where(cache, num) == CACHE_MAX ==> r[..l.inodeSize] == OnDisk(l, flat, num, l.inodeSize))
  {
    hide FindInode, Where;
    var r, k := Delivered(l, flat, root, cache, num, buf), Known(l);
    if num == ROOT_INODE && root.Some? {
      Whole(buf, root.value, k, Extent(l));
    } else if Where(cache, num) < CACHE_MAX {
      Whole(buf, cache[Where(cache, num)].inode, k, Extent(l));
    } else {
      Whole(buf, OnDisk(l, flat, num, l.inodeSize), k, Extent(l));
    }
  }

  /** A patch at the front: its first k bytes are the first of the result, and behind it nothing changed. */
  lemma Whole(buf: seq<Byte>, t: seq<Byte>, k: nat, e: nat)
    requires k <= |t| <= e <= |buf|
    ensures var r := Patched(buf, 0, t); r[..k] == t[..k] && r[..|t|] == t && r[e..] == buf[e..] && r[|t|..] == buf[|t|..]
  {
  }

  /** The cache stays coherent. */
  lemma CachedSound(l: Layout, flat: seq<Byte>, root: Option<seq<Byte>>, cache: seq<Entry>, end: nat, k: nat, num: nat, buf: seq<Byte>)
    requires Sound(l, flat, root, cache, end, k) && 0 < num < WRAP && |buf| >= Extent(l) && FindInode(l, num) != 0
    requires !(num == ROOT_INODE && root.Some?) && Where(cache, num) == CACHE_MAX
    ensures |cache| == CACHE_MAX && end < CACHE_MAX
    ensures Sound(l, flat, root, Cached(l, flat, root, cache, end, num, buf), (end + 1) % CACHE_MAX, if k < CACHE_MAX then k + 1 else k)
  {
    DeliveredRight(l, flat, root, cache, end, k, num, buf);
    WhereUsed(l, flat, cache, end, k, num, 0);
    hide LaidOut, FindInode, Coherent, Where, RootFresh, Fresh, Delivered;
    CacheSize(l, flat, cache, end, k);
    var r := Delivered(l, flat, root, cache, num, buf);
    ReadFresh(l, flat, num, r);
    InsertCoherent(l, flat, cache, end, k, Entry(num, r[..STRUCT]));
  }

  /** The three ways of a read, and none. */
  lemma ReadWays(l: Layout, flat: seq<Byte>, root: Option<seq<Byte>>, cache: seq<Entry>, end: nat, num: nat, buf: seq<Byte>)
    requires Sane(l) && 0 < num < WRAP && |cache| == CACHE_MAX && end < CACHE_MAX && |buf| >= Extent(l)
    ensures var r, c := Delivered(l, flat, root, cache, num, buf), Cached(l, flat, root, cache, end, num, buf);
      var off, w := FindInode(l, num), Where(cache, num);
      if num == ROOT_INODE && root.Some? then c == cache && (|root.value| <= |buf| ==> r == Patched(buf, 0, root.value))
      else if w < CACHE_MAX then c == cache && (|cache[w].inode| <= |buf| ==> r == Patched(buf, 0, cache[w].inode))
      else if off == 0 then c == cache && r == buf
      else
        && c == cache[end := Entry(num, r[..STRUCT])]
        && (off + l.inodeSize <= |flat| ==> r == Patched(buf, 0, flat[off..off + l.inodeSize]))
  {
    hide FindInode, Where;
  }

  lemma MissWay(l: Layout, flat: seq<Byte>, root: Option<seq<Byte>>, cache: seq<Entry>, end: nat, num: nat, buf: seq<Byte>)
    requires Sane(l) && 0 < num < WRAP && |cache| == CACHE_MAX && end < CACHE_MAX && |buf| >= Extent(l)
    requires !(num == ROOT_INODE && root.Some?) && Where(cache, num) == CACHE_MAX
    requires FindInode(l, num) != 0 && FindInode(l, num) + l.inodeSize <= |flat|
    ensures var r := Patched(buf, 0, flat[FindInode(l, num)..FindInode(l, num) + l.inodeSize]);
      && Delivered(l, flat, root, cache, num, buf) == r && |r| == |buf|
      && Cached(l, flat, root, cache, end, num, buf) == cache[end := Entry(num, r[..STRUCT])]
  {
    hide FindInode, Where;
  }

  /** What ext2_inode_read has done, stated exactly. Of what it delivers the bytes that are certainly of the inode are
      those on the disk now; if the struct fits the inode size, all of the struct is and nothing behind is touched. */
  ghost predicate ReadDone(l: Layout, flat: seq<Byte>, root: Option<seq<Byte>>, cache: seq<Entry>, end: nat, num: nat, buf0: seq<Byte>,
                           ok: bool, buf: seq<Byte>, cache': seq<Entry>)
  {
    && Sane(l) && 0 < num < WRAP && |cache| == CACHE_MAX && end < CACHE_MAX && |buf0| >= Extent(l)
    && (ok <==> FindInode(l, num) != 0)
    && buf == Delivered(l, flat, root, cache, num, buf0) && cache' == Cached(l, flat, root, cache, end, num, buf0)
    && (ok ==>
          && FindInode(l, num) + l.inodeSize <= |flat| && buf[..Known(l)] == OnDisk(l, flat, num, Known(l))
          && (l.inodeSize >= STRUCT ==> buf[l.inodeSize..] == buf0[l.inodeSize..])
          && (root == None && Where(cache, num) == CACHE_MAX ==> buf[..l.inodeSize] == OnDisk(l, flat, num, l.inodeSize)))
  }

  lemma DoneRead(l: Layout, flat: seq<Byte>, root: Option<seq<Byte>>, cache: seq<Entry>, end: nat, k: nat, num: nat, buf0: seq<Byte>)
    requires Sound(l, flat, root, cache, end, k) && 0 < num < WRAP && |buf0| >= Extent(l)
    ensures Sane(l) && |cache| == CACHE_MAX && end < CACHE_MAX
    ensures ReadDone(l, flat, root, cache, end, num, buf0, FindInode(l, num) != 0, Delivered(l, flat, root, cache, num, buf0),
      Cached(l, flat, root, cache, end, num, buf0))
  {
    hide Sound, FindInode, Where, Delivered, Cached, OnDisk;
    RootSize(l, flat, root, cache, end, k);
    if FindInode(l, num) != 0 {
      DeliveredRight(l, flat, root, cache, end, k, num, buf0);
    }
  }

  lemma RootSize(l: Layout, flat: seq<Byte>, root: Option<seq<Byte>>, cache: seq<Entry>, end: nat, k: nat)
    requires Sound(l, flat, root, cache, end, k)
    ensures Sane(l) && |cache| == CACHE_MAX && end < CACHE_MAX && (root.Some? ==> |root.value| == l.inodeSize && FindInode(l, ROOT_INODE) != 0)
  {
    if root.Some? {
      RootRead(l, flat, root.value);
    }
  }

  lemma HitSize(l: Layout, flat: seq<Byte>, root: Option<seq<Byte>>, cache: seq<Entry>, end: nat, k: nat, num: nat)
    requires Sound(l, flat, root, cache, end, k) && 0 < num < WRAP
    ensures |cache| == CACHE_MAX && Sane(l)
    ensures Where(cache, num) < CACHE_MAX ==> |cache[Where(cache, num)].inode| == STRUCT && FindInode(l, num) != 0
    ensures FindInode(l, num) != 0 ==> FindInode(l, num) + l.inodeSize <= |flat|
  {
    SlotInside(l, |flat|, num);
    WhereUsed(l, flat, cache, end, k, num, 0);
    hide LaidOut, FindInode, Where;
    if Where(cache, num) < CACHE_MAX {
      CachedIs(l, flat, cache, end, k, Where(cache, num));
    }
  }

  // ---------------------------------------------------------------- when the struct is larger than the inode

  /** The second of two reads of an inode that is not cached, into two buffers. */
  function Second(l: Layout, flat: seq<Byte>, root: Option<seq<Byte>>, cache: seq<Entry>, end: nat, num: nat, a: seq<Byte>, b: seq<Byte>): (r: seq<Byte>)
    requires Sane(l) && 0 < num < WRAP && |cache| == CACHE_MAX && end < CACHE_MAX && |a| == |b| == Extent(l)
    ensures |r| == Extent(l)
  {
    Delivered(l, flat, root, Cached(l, flat, root, cache, end, num, a), num, b)
  }

  /** What it delivers: the inode, and from its end to the end of the struct what lay behind the first buffer. */
  lemma SecondIs(l: Layout, flat: seq<Byte>, root: Option<seq<Byte>>, cache: seq<Entry>, end: nat, k: nat, num: nat, a: seq<Byte>, b: seq<Byte>)
    requires Sound(l, flat, root, cache, end, k) && 0 < num < WRAP && |a| == |b| == Extent(l) && FindInode(l, num) != 0
    requires !(num == ROOT_INODE && root.Some?) && Where(cache, num) == CACHE_MAX
    ensures |cache| == CACHE_MAX && end < CACHE_MAX && FindInode(l, num) + l.inodeSize <= |flat|
    ensures var r := Second(l, flat, root, cache, end, num, a, b);
      forall i :: 0 <= i < Extent(l) ==>
        r[i] == if i < Known(l) then OnDisk(l, flat, num, Known(l))[i] else if i < STRUCT then a[i] else b[i]
  {
    SlotInside(l, |flat|, num);
    InsertedAt(l, flat, root, cache, end, k, num, a);
    hide Sound, FindInode, Where;
    var first := Delivered(l, flat, root, cache, num, a);
    var disk := OnDisk(l, flat, num, l.inodeSize);
    assert first == Patched(a, 0, disk);
    hide Delivered;
    SecondHit(l, flat, root, Cached(l, flat, root, cache, end, num, a), end, num, b);
    TwoPatches(a, b, disk, STRUCT);
  }

  lemma TwoPatches(a: seq<Byte>, b: seq<Byte>, disk: seq<Byte>, n: nat)
    requires |a| == |b| == Max(|disk|, n)
    ensures var r := Patched(b, 0, Patched(a, 0, disk)[..n]);
      forall i :: 0 <= i < |b| ==> r[i] == if i < Min(|disk|, n) then disk[i] else if i < n then a[i] else b[i]
  {
  }

  lemma SecondHit(l: Layout, flat: seq<Byte>, root: Option<seq<Byte>>, cache: seq<Entry>, w: nat, num: nat, b: seq<Byte>)
    requires Sane(l) && 0 < num < WRAP && |cache| == CACHE_MAX && |b| == Extent(l) && !(num == ROOT_INODE && root.Some?)
    requires Where(cache, num) == w < CACHE_MAX && |cache[w].inode| == STRUCT
    ensures Delivered(l, flat, root, cache, num, b) == Patched(b, 0, cache[w].inode)
  {
  }

  /** The entry that was inserted is the one that is found. */
  lemma InsertedAt(l: Layout, flat: seq<Byte>, root: Option<seq<Byte>>, cache: seq<Entry>, end: nat, k: nat, num: nat, a: seq<Byte>)
    requires Sound(l, flat, root, cache, end, k) && 0 < num < WRAP && |a| >= Extent(l) && FindInode(l, num) != 0
    requires !(num == ROOT_INODE && root.Some?) && Where(cache, num) == CACHE_MAX
    ensures |cache| == CACHE_MAX && end < CACHE_MAX && Where(Cached(l, flat, root, cache, end, num, a), num) == end
  {
    CachedSound(l, flat, root, cache, end, k, num, a);
    WhereUsed(l, flat, cache, end, k, num, 0);
    var cache', k' := Cached(l, flat, root, cache, end, num, a), if k < CACHE_MAX then k + 1 else k;
    WhereUsed(l, flat, cache', (end + 1) % CACHE_MAX, k', num, 0);
    hide LaidOut, FindInode, RootFresh, Fresh, Delivered, Where;
    assert cache'[end].num == num && end < k';
    OnlyOne(l, flat, cache', (end + 1) % CACHE_MAX, k', end, Where(cache', num));
  }

  lemma OnlyOne(l: Layout, flat: seq<Byte>, cache: seq<Entry>, end: nat, k: nat, i: nat, j: nat)
    requires Coherent(l, flat, cache, end, k) && i < k && j < k && cache[i].num == cache[j].num
    ensures i == j
  {
    hide Fresh;
  }

  /** The second read leaves every buffer alone behind the inode size, whatever lay behind the first buffer. */
  ghost predicate StaysInside(l: Layout, flat: seq<Byte>, root: Option<seq<Byte>>, cache: seq<Entry>, end: nat, num: nat)
    requires Sane(l) && 0 < num < WRAP && |cache| == CACHE_MAX && end < CACHE_MAX
  {
    forall a, b :: |a| == |b| == Extent(l) ==> Second(l, flat, root, cache, end, num, a, b)[l.inodeSize..] == b[l.inodeSize..]
  }

  /** Every struct the cache gives out is the one on the disk. */
  ghost predicate StaysWhole(l: Layout, flat: seq<Byte>, root: Option<seq<Byte>>, cache: seq<Entry>, end: nat, num: nat)
    requires Sane(l) && 0 < num < WRAP && |cache| == CACHE_MAX && end < CACHE_MAX && FindInode(l, num) + STRUCT <= |flat|
  {
    forall a, b :: |a| == |b| == Extent(l) ==> Second(l, flat, root, cache, end, num, a, b)[..STRUCT] == OnDisk(l, flat, num, STRUCT)
  }

  lemma SecondParts(l: Layout, flat: seq<Byte>, root: Option<seq<Byte>>, cache: seq<Entry>, end: nat, k: nat, num: nat, a: seq<Byte>, b: seq<Byte>)
    requires Sound(l, flat, root, cache, end, k) && 0 < num < WRAP && |a| == |b| == Extent(l) && FindInode(l, num) != 0
    requires !(num == ROOT_INODE && root.Some?) && Where(cache, num) == CACHE_MAX
    ensures |cache| == CACHE_MAX && end < CACHE_MAX && FindInode(l, num) + l.inodeSize <= |flat|
    ensures var r := Second(l, flat, root, cache, end, num, a, b);
      && (l.inodeSize >= STRUCT ==> r[l.inodeSize..] == b[l.inodeSize..] && r[..STRUCT] == OnDisk(l, flat, num, STRUCT))
      && (l.inodeSize < STRUCT ==> r[l.inodeSize] == a[l.inodeSize])
  {
    SecondIs(l, flat, root, cache, end, k, num, a, b);
    hide FindInode, Where, Sound, Second;
    var r := Second(l, flat, root, cache, end, num, a, b);
    if l.inodeSize >= STRUCT {
      assert r[l.inodeSize..] == b[l.inodeSize..];
      assert r[..STRUCT] == OnDisk(l, flat, num, STRUCT);
    }
  }

  /** In every state and for every inode, reads through the cache stay inside the inode size if and only if the struct
      is no larger. */
  lemma InsideIffStructFits(l: Layout, flat: seq<Byte>, root: Option<seq<Byte>>, cache: seq<Entry>, end: nat, k: nat, num: nat)
    requires Sound(l, flat, root, cache, end, k) && 0 < num < WRAP && FindInode(l, num) != 0
    requires !(num == ROOT_INODE && root.Some?) && Where(cache, num) == CACHE_MAX
    ensures |cache| == CACHE_MAX && end < CACHE_MAX
    ensures StaysInside(l, flat, root, cache, end, num) <==> l.inodeSize >= STRUCT
  {
    CacheSize(l, flat, cache, end, k);
    hide Sound, FindInode, Where, Second;
    if l.inodeSize >= STRUCT {
      forall a, b: seq<Byte> | |a| == |b| == Extent(l)
        ensures Second(l, flat, root, cache, end, num, a, b)[l.inodeSize..] == b[l.inodeSize..]
      {
        SecondParts(l, flat, root, cache, end, k, num, a, b);
      }
    } else {
      var a, b := Bytes(Extent(l), 1), Bytes(Extent(l), 0);
      SecondParts(l, flat, root, cache, end, k, num, a, b);
      Differ(Second(l, flat, root, cache, end, num, a, b), b, l.inodeSize);
    }
  }

  function Bytes(n: nat, b: Byte): (s: seq<Byte>)
    ensures |s| == n && forall i :: 0 <= i < n ==> s[i] == b
  {
    seq(n, _ => b)
  }

  lemma Differ(r: seq<Byte>, b: seq<Byte>, n: nat)
    requires n < |r| == |b| && r[n] != b[n]
    ensures r[n..] != b[n..]
  {
    assert r[n..][0] != b[n..][0];
  }

  /** And so for the contents of the struct. */
  lemma WholeIffStructFits(l: Layout, flat: seq<Byte>, root: Option<seq<Byte>>, cache: seq<Entry>, end: nat, k: nat, num: nat)
    requires Sound(l, flat, root, cache, end, k) && 0 < num < WRAP && FindInode(l, num) != 0 && FindInode(l, num) + STRUCT <= |flat|
    requires !(num == ROOT_INODE && root.Some?) && Where(cache, num) == CACHE_MAX
    ensures |cache| == CACHE_MAX && end < CACHE_MAX
    ensures StaysWhole(l, flat, root, cache, end, num) <==> l.inodeSize >= STRUCT
  {
    CacheSize(l, flat, cache, end, k);
    hide Sound, FindInode, Where, Second, OnDisk;
    if l.inodeSize >= STRUCT {
      forall a, b: seq<Byte> | |a| == |b| == Extent(l)
        ensures Second(l, flat, root, cache, end, num, a, b)[..STRUCT] == OnDisk(l, flat, num, STRUCT)
      {
        SecondParts(l, flat, root, cache, end, k, num, a, b);
      }
    } else {
      var a := Bytes(Extent(l), if OnDisk(l, flat, num, STRUCT)[l.inodeSize] == 0 then 1 else 0);
      SecondParts(l, flat, root, cache, end, k, num, a, a);
      DifferFront(Second(l, flat, root, cache, end, num, a, a), OnDisk(l, flat, num, STRUCT), l.inodeSize);
    }
  }

  lemma DifferFront(r: seq<Byte>, b: seq<Byte>, n: nat)
    requires n < |b| <= |r| && r[n] != b[n]
    ensures r[..|b|] != b
  {
    assert r[..|b|][n] == r[n];
  }

  /** After a write the cached struct is the one on the disk for every buffer if and only if the struct fits. */
  lemma WriteIffStructFits(l: Layout, flat: seq<Byte>, num: nat)
    requires Sane(l) && 0 < num < WRAP && FindInode(l, num) + Extent(l) <= |flat|
    ensures (forall buf: seq<Byte> :: |buf| == Extent(l) ==> WrittenWhole(l, flat, num, buf)) <==> l.inodeSize >= STRUCT
  {
    hide FindInode;
    if l.inodeSize < STRUCT {
      var n := l.inodeSize;
      var other: Byte := if OnDisk(l, flat, num, STRUCT)[n] == 0 then 1 else 0;
      var buf: seq<Byte> := seq(Extent(l), _ => other);
      assert buf[..STRUCT][n] != Patched(flat, FindInode(l, num), buf[..n])[FindInode(l, num) + n];
      assert !WrittenWhole(l, flat, num, buf);
    } else {
      forall buf: seq<Byte> | |buf| == Extent(l) ensures WrittenWhole(l, flat, num, buf) {
      }
    }
  }

  /** What ext2_inode_write puts into the cache is the struct that is then on the disk. */
  predicate WrittenWhole(l: Layout, flat: seq<Byte>, num: nat, buf: seq<Byte>)
    requires Sane(l) && 0 < num < WRAP && FindInode(l, num) + Extent(l) <= |flat| && |buf| == Extent(l)
  {
    buf[..STRUCT] == OnDisk(l, Patched(flat, FindInode(l, num), buf[..l.inodeSize]), num, STRUCT)
  }

  /** struct ext2_fs. */
  class Filesystem {
    const layout: Layout
    var dev: Device
    var root: Option<seq<Byte>>
    var cache: seq<Entry>
    var end: nat
    // how many entries are in use
    ghost var used: nat

    ghost predicate Valid() reads this {
      Small(dev) && Sound(layout, Flat(dev), root, cache, end, used)
    }

    /** A mounted file system: nothing cached. */
    constructor (l: Layout, d: Device)
      requires Small(d) && LaidOut(l, |Flat(d)|)
      ensures Valid() && layout == l && dev == d && root == None
    {
      layout, dev, root, cache, end, used := l, d, None, seq(CACHE_MAX, _ => Entry(0, [])), 0, 0;
    }

    /** ext2_inode_read, for any inode size. buf0 is the memory behind the caller's pointer. */
    method Read(num: nat, buf0: seq<Byte>) returns (ok: bool, buf: seq<Byte>)
      requires Valid() && 0 < num < WRAP && |buf0| >= Extent(layout)
      modifies this`cache, this`end, this`used
      ensures Valid() && ReadDone(layout, Flat(dev), root, old(cache), old(end), num, buf0, ok, buf, cache)
    {
      hide Sound, Flat, Small, WellFormed, ReadDone, Max;
      ok, buf, cache, end, used := ReadFrom(layout, dev, root, cache, end, used, num, buf0);
    }

    /** The end of ext2_mount: the root inode, read from the disk in full, is kept. */
    method LoadRoot(buf0: seq<Byte>) returns (ok: bool)
      requires Valid() && used == 0 && root == None && |buf0| >= Extent(layout)
      modifies this
      ensures Valid() && dev == old(dev) && (ok <==> FindInode(layout, ROOT_INODE) != 0) && (ok <==> root.Some?)
    {
      CacheSize(layout, Flat(dev), cache, end, used);
      WhereUsed(layout, Flat(dev), cache, end, used, ROOT_INODE, 0);
      hide LaidOut, Fresh, Flat, WellFormed, FindInode, Coherent, Where, Small, Delivered, Cached;
      var buf;
      ok, buf := Read(ROOT_INODE, buf0);
      if ok {
        root := Some(buf[..layout.inodeSize]);
      }
    }

    /** ext2_inode_write; buf is the memory behind the caller's pointer. */
    method Write(num: nat, buf: seq<Byte>) returns (ok: bool)
      requires Valid() && 0 < num < WRAP && |buf| >= Extent(layout)
      modifies this`dev, this`root, this`cache
      ensures Valid() && (ok <==> FindInode(layout, num) != 0)
      ensures ok ==>
        && FindInode(layout, num) + layout.inodeSize <= |old(Flat(dev))|
        && Flat(dev) == Patched(old(Flat(dev)), FindInode(layout, num), buf[..layout.inodeSize])
        && cache == Rewritten(old(cache), num, buf[..STRUCT])
      ensures !ok ==> dev == old(dev) && cache == old(cache)
    {
      SmallForm(dev);
      hide Sound, Flat, FindInode, Patched, Rewritten, Where, WellFormed, Small, OnDisk, Max;
      ghost var flat, root0 := Flat(dev), root;
      RootSize(layout, flat, root, cache, end, used);
      if num == ROOT_INODE && root.Some? {
        root := Some(buf[..layout.inodeSize]);
      }
      var off := FindInode(layout, num);
      if off == 0 {
        return false;
      }
      dev, cache := Store(layout, dev, root0, cache, end, used, num, off, buf);
      ok := true;
    }
  }

  /** ext2_inode_read on its state: the root copy, the cache, or the disk. */
  method ReadFrom(l: Layout, d: Device, root: Option<seq<Byte>>, cache: seq<Entry>, end: nat, ghost k: nat, num: nat, buf0: seq<Byte>)
    returns (ok: bool, buf: seq<Byte>, cache': seq<Entry>, end': nat, ghost k': nat)
    requires Small(d) && Sound(l, Flat(d), root, cache, end, k) && 0 < num < WRAP && |buf0| >= Extent(l)
    ensures ReadDone(l, Flat(d), root, cache, end, num, buf0, ok, buf, cache') && Sound(l, Flat(d), root, cache', end', k')
  {
    SmallForm(d);
    hide Sound, Flat, FindInode, Where, Small, Delivered, Cached, Patched, OnDisk, WellFormed, ReadDone, Max;
    ghost var flat := Flat(d);
    RootSize(l, flat, root, cache, end, k);
    HitSize(l, flat, root, cache, end, k, num);
    StructFits(l, buf0);
    ReadWays(l, flat, root, cache, end, num, buf0);
    DoneRead(l, flat, root, cache, end, k, num, buf0);
    cache', end', k' := cache, end, k;
    if num == ROOT_INODE && root.Some? {
      ok, buf := true, Patched(buf0, 0, root.value);
      return;
    }
    var i := CheckCache(cache, num);
    if i < CACHE_MAX {
      ok, buf := true, Patched(buf0, 0, cache[i].inode);
      return;
    }
    var off := FindInode(l, num);
    if off == 0 {
      ok, buf := false, buf0;
      return;
    }
    buf, cache', end', k' := Fetch(l, d, root, cache, end, k, num, buf0);
    ok := true;
  }

  /** The part of ext2_inode_read that goes to the disk, and the copy it leaves in the cache. */
  method Fetch(l: Layout, d: Device, root: Option<seq<Byte>>, cache: seq<Entry>, end: nat, ghost k: nat, num: nat, buf0: seq<Byte>)
    returns (buf: seq<Byte>, cache': seq<Entry>, end': nat, ghost k': nat)
    requires Small(d) && Sound(l, Flat(d), root, cache, end, k) && 0 < num < WRAP && |buf0| >= Extent(l) && FindInode(l, num) != 0
    requires |cache| == CACHE_MAX && end < CACHE_MAX && !(num == ROOT_INODE && root.Some?) && Where(cache, num) == CACHE_MAX
    ensures buf == Delivered(l, Flat(d), root, cache, num, buf0) && cache' == Cached(l, Flat(d), root, cache, end, num, buf0)
    ensures Sound(l, Flat(d), root, cache', end', k')
  {
    SmallForm(d);
    hide Sound, Flat, FindInode, Where, Small, Delivered, Cached, Patched, OnDisk, WellFormed, Max;
    ghost var flat := Flat(d);
    var off := FindInode(l, num);
    HitSize(l, flat, root, cache, end, k, num);
    StructFits(l, buf0);
    MissWay(l, flat, root, cache, end, num, buf0);
    CachedSound(l, flat, root, cache, end, k, num, buf0);
    var data := ReadSmall(d, off, l.inodeSize);
    buf := Patched(buf0, 0, data);
    cache' := cache[end := Entry(num, buf[..STRUCT])];
    end' := (end + 1) % CACHE_MAX;
    k' := if k < CACHE_MAX then k + 1 else k;
  }

  lemma StructFits(l: Layout, buf: seq<Byte>)
    requires |buf| >= Extent(l)
    ensures |buf| >= l.inodeSize && |buf| >= STRUCT
  {
  }

  /** The part of ext2_inode_write that changes the cache and the disk. */
  method Store(l: Layout, d: Device, ghost root: Option<seq<Byte>>, cache: seq<Entry>, ghost end: nat, ghost k: nat, num: nat, off: nat,
               buf: seq<Byte>)
    returns (d': Device, cache': seq<Entry>)
    requires Small(d) && Sound(l, Flat(d), root, cache, end, k) && 0 < num < WRAP && |buf| >= Extent(l)
    requires FindInode(l, num) == off != 0 && |cache| == CACHE_MAX
    ensures |buf| >= l.inodeSize && |buf| >= STRUCT && off + l.inodeSize <= |Flat(d)|
    ensures Small(d') && Flat(d') == Patched(Flat(d), off, buf[..l.inodeSize]) && cache' == Rewritten(cache, num, buf[..STRUCT])
    ensures Sound(l, Flat(d'), if num == ROOT_INODE && root.Some? then Some(buf[..l.inodeSize]) else root, cache', end, k)
  {
    SmallForm(d);
    hide Sound, Flat, FindInode, Patched, Rewritten, Where, WellFormed, Small, OnDisk, Max;
    StructFits(l, buf);
    WriteSound(l, Flat(d), root, cache, end, k, num, buf);
    var i := CheckCache(cache, num);
    cache' := cache;
    if i < CACHE_MAX {
      cache' := cache[i := Entry(num, buf[..STRUCT])];
    }
    d' := WriteSmall(d, off, buf[..l.inodeSize]);
    SmallForm(d');
  }

  /** check_cache. */
  method CheckCache(cache: seq<Entry>, num: nat) returns (i: nat)
    requires |cache| == CACHE_MAX
    ensures i == Where(cache, num)
  {
    i := 0;
    while i < CACHE_MAX && cache[i].num != 0
      invariant 0 <= i <= CACHE_MAX && Where(cache, num) == Where(cache, num, i)
    {
      if cache[i].num == num {
        return;
      }
      i := i + 1;
    }
    i := CACHE_MAX;
  }

  lemma PatchedSize(s: seq<Byte>, p: nat, t: seq<Byte>)
    requires p + |t| <= |s|
    ensures |Patched(s, p, t)| == |s|
  {
  }

  /** Disk, root copy and cache change together. */
  lemma WriteSound(l: Layout, flat: seq<Byte>, root: Option<seq<Byte>>, cache: seq<Entry>, end: nat, k: nat, num: nat, buf: seq<Byte>)
    requires Sound(l, flat, root, cache, end, k) && 0 < num < WRAP && |buf| >= Extent(l) && FindInode(l, num) != 0
    ensures |cache| == CACHE_MAX && FindInode(l, num) + l.inodeSize <= |flat|
    ensures var i := Where(cache, num);
      Rewritten(cache, num, buf[..STRUCT]) == if i < CACHE_MAX then cache[i := Entry(num, buf[..STRUCT])] else cache
    ensures Sound(l, Patched(flat, FindInode(l, num), buf[..l.inodeSize]),
      if num == ROOT_INODE && root.Some? then Some(buf[..l.inodeSize]) else root, Rewritten(cache, num, buf[..STRUCT]), end, k)
  {
    SlotInside(l, |flat|, num);
    CacheSize(l, flat, cache, end, k);
    WhereUsed(l, flat, cache, end, k, num, 0);
    hide LaidOut, FindInode, Coherent, Patched, Rewritten, Where, RootFresh;
    WriteCoherent(l, flat, cache, end, k, num, buf);
    WriteRoot(l, flat, root, num, buf[..l.inodeSize]);
    RewriteOne(l, flat, cache, end, k, num, Where(cache, num), buf[..STRUCT]);
    PatchedSize(flat, FindInode(l, num), buf[..l.inodeSize]);
  }

  /** A classic file system: with inodes of 128 bytes the second read of an inode writes behind its buffer what lay
      behind the first one. */
  lemma Classic() returns (l: Layout, flat: seq<Byte>, cache: seq<Entry>, a: seq<Byte>, b: seq<Byte>)
    ensures l.inodeSize == 128 && Sound(l, flat, None, cache, 0, 0) && FindInode(l, 1) != 0
    ensures |a| == |b| == Extent(l) && |cache| == CACHE_MAX
    ensures b[128] == 0 && Second(l, flat, None, cache, 0, 1, a, b)[128] == 1
  {
    l := Layout(1024, 1, 1, 8, 128, [1, 0]);
    flat := seq(4096, _ => 0);
    cache := seq(CACHE_MAX, _ => Entry(0, []));
    a, b := seq(130, _ => 1), seq(130, _ => 0);
    assert Sane(l) && Group(l, 1) == 0 && IndexIn(l, 1) == 0;
    assert Times(1, 1024) == 1024 && Times(8, 128) == 1024 && Times(0, 128) == 0;
    assert Where(cache, 1) == CACHE_MAX;
    SecondIs(l, flat, None, cache, 0, 0, 1, a, b);
  }
}
