/** Byte-granular access to a block device: src/block/block.c. */
module BlockDevice {
  import opened Common

  type Byte = b: int | 0 <= b < 256

  /** A partition: its first block on the disk, and the disk's contents. */
  datatype Device = Device(blockSize: nat, start: nat, disk: seq<Byte>)

  predicate WellFormed(d: Device) {
    && d.blockSize > 0 && d.start * d.blockSize <= |d.disk| && |d.disk| % d.blockSize == 0
    && |d.disk| < WRAP64
  }

  /** The partition as a flat sequence of bytes. */
  function Flat(d: Device): (s: seq<Byte>)
    requires WellFormed(d)
    ensures |s| == |d.disk| - d.start * d.blockSize
  {
    d.disk[d.start * d.blockSize..]
  }

  /** s with the bytes from p on replaced. */
  function Patched(s: seq<Byte>, p: nat, t: seq<Byte>): (r: seq<Byte>)
    requires p + |t| <= |s|
    ensures |r| == |s|
    ensures forall i :: 0 <= i < |s| ==> r[i] == if p <= i < p + |t| then t[i - p] else s[i]
  {
    s[..p] + t + s[p + |t|..]
  }

  // ---------------------------------------------------------------- whole blocks

  /** Where a block starts. */
  function At(bs: nat, block: nat): nat { block * bs }

  /** n blocks from block first of the partition on lie on the device. */
  predicate Blocks(d: Device, first: nat, n: nat) { WellFormed(d) && At(d.blockSize, first + n) <= |Flat(d)| }

  lemma BlocksPlace(d: Device, first: nat, n: nat)
    requires Blocks(d, first, n)
    ensures At(d.blockSize, first) <= At(d.blockSize, first + n) == At(d.blockSize, first) + At(d.blockSize, n)
    ensures At(d.blockSize, first + d.start) == At(d.blockSize, first) + At(d.blockSize, d.start)
    ensures At(d.blockSize, first + d.start + n) == At(d.blockSize, first + d.start) + At(d.blockSize, n)
    ensures At(d.blockSize, d.start) <= |d.disk| && |Flat(d)| == |d.disk| - At(d.blockSize, d.start)
    ensures Flat(d) == d.disk[At(d.blockSize, d.start)..]
  {
    Scale(d.blockSize, first, n);
    Scale(d.blockSize, first, d.start);
    Scale(d.blockSize, first + d.start, n);
  }

  /** The block of the disk that the driver is asked for, on 64 bits. */
  function DiskBlock(d: Device, first: nat): nat { (first + d.start) % WRAP64 }

  /** The driver has all these blocks of the disk. */
  predicate Driven(d: Device, from: nat, n: nat) { At(d.blockSize, from) + At(d.blockSize, n) <= |d.disk| }

  /** The blocks of the partition are where they are asked for. */
  lemma BlocksDriven(d: Device, first: nat, n: nat)
    requires Blocks(d, first, n) && first < WRAP64
    ensures DiskBlock(d, first) == first + d.start && Driven(d, first + d.start, n)
    ensures At(d.blockSize, first + d.start) == At(d.blockSize, d.start) + At(d.blockSize, first)
  {
    BlocksPlace(d, first, n);
    AtLeast(d.blockSize, first + d.start);
  }

  lemma AtLeast(bs: nat, n: nat)
    requires bs > 0
    ensures At(bs, n) >= n
  {
    Scale(bs - 1, n, 0);
    assert n * bs == n * (bs - 1) + n;
  }

  /** vfs_block_read through a driver that delivers all blocks or, where the disk has not all of them, none. */
  method ReadBlocks(d: Device, first: nat, n: nat) returns (got: nat, buf: seq<Byte>)
    requires WellFormed(d)
    ensures var from := DiskBlock(d, first);
      if Driven(d, from, n) then got == n && buf == d.disk[At(d.blockSize, from)..At(d.blockSize, from) + At(d.blockSize, n)]
      else got == 0
  {
    hide At;
    var from := DiskBlock(d, first);
    if Driven(d, from, n) {
      var at := At(d.blockSize, from);
      return n, d.disk[at..at + At(d.blockSize, n)];
    }
    return 0, [];
  }

  /** vfs_block_write. */
  method WriteBlocks(d: Device, first: nat, n: nat, buf: seq<Byte>) returns (put: nat, d': Device)
    requires WellFormed(d) && |buf| == At(d.blockSize, n)
    ensures WellFormed(d') && d' == d.(disk := d'.disk)
    ensures var from := DiskBlock(d, first);
      if Driven(d, from, n) then put == n && d'.disk == Patched(d.disk, At(d.blockSize, from), buf) else put == 0 && d' == d
  {
    hide At, Patched;
    var from := DiskBlock(d, first);
    if Driven(d, from, n) {
      return n, d.(disk := Patched(d.disk, At(d.blockSize, from), buf));
    }
    return 0, d;
  }

  lemma FlatIs(d: Device)
    requires WellFormed(d)
    ensures At(d.blockSize, d.start) <= |d.disk| && Flat(d) == d.disk[At(d.blockSize, d.start)..]
  {
  }

  lemma PatchTail(s: seq<Byte>, a: nat, p: nat, t: seq<Byte>)
    requires a + p + |t| <= |s|
    ensures Patched(s, a + p, t)[a..] == Patched(s[a..], p, t)
  {
  }

  // ---------------------------------------------------------------- bytes

  /** The block of a byte, its place in it, and the number of blocks that size bytes from there touch. */
  function BlockOf(bs: nat, position: nat): nat
    requires bs > 0
  {
    position / bs
  }

  function OffsetIn(bs: nat, position: nat): nat
    requires bs > 0
  {
    position % bs
  }

  function Touched(bs: nat, position: nat, size: nat): nat
    requires bs > 0
  {
    (size + OffsetIn(bs, position) + bs - 1) / bs
  }

  lemma Span(bs: nat, position: nat, size: nat)
    requires bs > 0
    ensures var first, offset, n := BlockOf(bs, position), OffsetIn(bs, position), Touched(bs, position, size);
      && At(bs, first) + offset == position && At(bs, first + n) == At(bs, first) + At(bs, n)
      && offset + size <= At(bs, n)
      && (offset == 0 && size % bs == 0 ==> At(bs, n) == size)
  {
    var first, offset, n := BlockOf(bs, position), OffsetIn(bs, position), Touched(bs, position, size);
    Divides(position, bs);
    Divides(size + offset + bs - 1, bs);
    Scale(bs, first, n);
    if offset == 0 && size % bs == 0 {
      Divides(size, bs);
      Unique(n, size / bs, bs);
    }
  }

  lemma Scale(bs: nat, a: nat, n: nat)
    ensures (a + n) * bs == a * bs + n * bs
  {
  }

  lemma Divides(x: nat, bs: nat)
    requires bs > 0
    ensures x / bs * bs + x % bs == x && x % bs < bs
  {
  }

  lemma Above(a: nat, b: nat, bs: nat)
    ensures a > b ==> a * bs >= b * bs + bs
  {
    if a > b {
      Scale(bs, b + 1, a - b - 1);
      Scale(bs, b, 1);
    }
  }

  /** Two multiples less than a block apart are equal. */
  lemma Unique(a: nat, b: nat, bs: nat)
    requires bs > 0 && b * bs <= a * bs < b * bs + bs
    ensures a * bs == b * bs
  {
    Above(a, b, bs);
    Above(b, a, bs);
  }

  /** The bytes lie on the device together with the rest of their blocks. */
  predicate OnDevice(d: Device, position: nat, size: nat) {
    WellFormed(d) && Blocks(d, BlockOf(d.blockSize, position), Touched(d.blockSize, position, size))
  }

  lemma OnDeviceInside(d: Device, position: nat, size: nat)
    requires OnDevice(d, position, size)
    ensures position + size <= |Flat(d)|
  {
    hide At, BlockOf, OffsetIn, Touched, Flat;
    Span(d.blockSize, position, size);
  }

  /** Any bytes inside the partition can be reached, since it consists of whole blocks. */
  lemma InsideOnDevice(d: Device, position: nat, size: nat)
    requires WellFormed(d) && position + size <= |Flat(d)|
    ensures OnDevice(d, position, size)
  {
    var bs := d.blockSize;
    var first, offset, n := BlockOf(bs, position), OffsetIn(bs, position), Touched(bs, position, size);
    Divides(position, bs);
    Divides(size + offset + bs - 1, bs);
    Divides(|d.disk|, bs);
    var m := |d.disk| / bs;
    Scale(bs, first, n);
    Scale(bs, first + n, d.start);
    Above(first + n + d.start, m, bs);
    assert first + n + d.start <= m;
    Scale(bs, first + n + d.start, m - (first + n + d.start));
  }

  // ---------------------------------------------------------------- the int in between

  const INT_LIMIT := 0x8000_0000

  /** A number stored in an int, and an int passed as a 64-bit number. */
  function AsInt(n: nat): int { (n + INT_LIMIT) % WRAP - INT_LIMIT }
  function AsUnsigned(x: int): nat { x % WRAP64 }

  /** The block that vfs_block_sread and vfs_block_swrite ask for. */
  function Asked(bs: nat, position: nat): nat
    requires bs > 0
  {
    AsUnsigned(AsInt(BlockOf(bs, position)))
  }

  /** It is the right one if and only if its number fits an int. */
  lemma AskedRight(bs: nat, position: nat)
    requires bs >= 2 && position < WRAP64
    ensures Asked(bs, position) == BlockOf(bs, position) <==> BlockOf(bs, position) < INT_LIMIT
  {
    Divides(position, bs);
    var n := BlockOf(bs, position);
    assert At(bs, n) == 2 * n + At(bs - 2, n);
    hide BlockOf;
    assert n < WRAP64 / 2;
  }

  /** From block 2^32 on another block of the partition may be taken for it: block b for block 2^32 + b. */
  lemma AskedWrong(bs: nat, b: nat)
    requires bs > 0 && b < INT_LIMIT
    ensures Asked(bs, At(bs, WRAP + b)) == b
  {
    Divides(At(bs, WRAP + b), bs);
    Above(WRAP + b, At(bs, WRAP + b) / bs, bs);
    Above(At(bs, WRAP + b) / bs, WRAP + b, bs);
    assert BlockOf(bs, At(bs, WRAP + b)) == WRAP + b;
    hide BlockOf, At;
    assert AsInt(WRAP + b) == b;
  }

  /** The number of blocks fits an int, and so does the size of the buffer for them, where there is one. */
  predicate Buffered(bs: nat, position: nat, size: nat)
    requires bs > 0
  {
    && Touched(bs, position, size) < INT_LIMIT
    && (OffsetIn(bs, position) != 0 || size % bs != 0 ==> At(bs, Touched(bs, position, size)) < INT_LIMIT)
  }

  /** The largest block size of ext2 that fits an int. */
  const REQUEST_MAX := 0x4000_0000

  /** Requests up to that size have a buffer, if the blocks of the device are not longer than half of it. */
  lemma RequestBuffered(bs: nat, position: nat, size: nat)
    requires 0 < bs <= REQUEST_MAX / 2 && size <= REQUEST_MAX
    ensures Buffered(bs, position, size)
  {
    var n := Touched(bs, position, size);
    Divides(size + OffsetIn(bs, position) + bs - 1, bs);
    AtLeast(bs, n);
  }

  /** What vfs_block_sread returns in all cases: the bytes at the place that was asked for, or 0 or -1 where the disk has
      not all of the blocks. */
  ghost predicate ReadAsAsked(d: Device, position: nat, size: nat, got: int, buf: seq<Byte>)
    requires d.blockSize > 0
  {
    var bs := d.blockSize;
    var from, offset := DiskBlock(d, Asked(bs, position)), OffsetIn(bs, position);
    if Driven(d, from, Touched(bs, position, size))
    then got == size && At(bs, from) + offset + size <= |d.disk| && buf == d.disk[At(bs, from) + offset..At(bs, from) + offset + size]
    else got == if offset == 0 && size % bs == 0 then 0 else -1
  }

  /** What vfs_block_swrite does in all cases. */
  ghost predicate WrittenAsAsked(d: Device, position: nat, buf: seq<Byte>, put: int, d': Device)
    requires d.blockSize > 0
  {
    var bs := d.blockSize;
    var from, offset := DiskBlock(d, Asked(bs, position)), OffsetIn(bs, position);
    if Driven(d, from, Touched(bs, position, |buf|))
    then put == |buf| && At(bs, from) + offset + |buf| <= |d.disk| && d'.disk == Patched(d.disk, At(bs, from) + offset, buf)
    else d' == d && put == if offset == 0 && |buf| % bs == 0 then 0 else -1
  }

  lemma IntKeeps(n: nat)
    requires n < INT_LIMIT
    ensures AsUnsigned(AsInt(n)) == n
  {
  }

  lemma AtZero(bs: nat)
    ensures At(bs, 0) == 0
  {
  }

  /** Blocks are touched unless the request is empty and aligned. */
  lemma SomeTouched(bs: nat, position: nat, size: nat)
    requires bs > 0 && !(OffsetIn(bs, position) == 0 && size % bs == 0)
    ensures Touched(bs, position, size) > 0
  {
    Span(bs, position, size);
    AtZero(bs);
    hide Touched, OffsetIn;
  }

  /** Where the first block fits an int, what is asked for is what is wanted. */
  lemma AskedPlace(d: Device, position: nat, size: nat)
    requires OnDevice(d, position, size) && BlockOf(d.blockSize, position) < INT_LIMIT && position < WRAP64
    ensures var bs := d.blockSize;
      var from := DiskBlock(d, Asked(bs, position));
      && Driven(d, from, Touched(bs, position, size)) && position + size <= |Flat(d)| && At(bs, d.start) <= |d.disk|
      && At(bs, from) + OffsetIn(bs, position) == At(bs, d.start) + position && Flat(d) == d.disk[At(bs, d.start)..]
  {
    OnDeviceInside(d, position, size);
    Span(d.blockSize, position, size);
    IntKeeps(BlockOf(d.blockSize, position));
    BlocksDriven(d, BlockOf(d.blockSize, position), Touched(d.blockSize, position, size));
    FlatIs(d);
    hide At, BlockOf, OffsetIn, Touched, Flat, Blocks, DiskBlock, AsInt, AsUnsigned, WellFormed, Driven;
  }

  lemma ReadRight(d: Device, position: nat, size: nat, got: int, buf: seq<Byte>)
    requires OnDevice(d, position, size) && position < WRAP64 && ReadAsAsked(d, position, size, got, buf)
    ensures BlockOf(d.blockSize, position) < INT_LIMIT ==>
      got == size && position + size <= |Flat(d)| && buf == Flat(d)[position..position + size]
  {
    if BlockOf(d.blockSize, position) < INT_LIMIT {
      AskedPlace(d, position, size);
      hide At, BlockOf, OffsetIn, Touched, Flat, Blocks, DiskBlock, Asked, WellFormed, Driven;
      Tail(d.disk, At(d.blockSize, d.start), position, size);
    }
  }

  lemma Tail(s: seq<Byte>, a: nat, p: nat, n: nat)
    requires a + p + n <= |s|
    ensures s[a..][p..p + n] == s[a + p..a + p + n]
  {
  }

  lemma WriteRight(d: Device, position: nat, buf: seq<Byte>, put: int, d': Device)
    requires OnDevice(d, position, |buf|) && position < WRAP64 && WrittenAsAsked(d, position, buf, put, d')
    requires WellFormed(d') && d' == d.(disk := d'.disk)
    ensures BlockOf(d.blockSize, position) < INT_LIMIT ==>
      put == |buf| && position + |buf| <= |Flat(d)| && Flat(d') == Patched(Flat(d), position, buf)
  {
    if BlockOf(d.blockSize, position) < INT_LIMIT {
      AskedPlace(d, position, |buf|);
      FlatIs(d');
      hide At, BlockOf, OffsetIn, Touched, Flat, Blocks, DiskBlock, Asked, WellFormed, Driven, Patched;
      PatchTail(d.disk, At(d.blockSize, d.start), position, buf);
    }
  }

  lemma Slice(s: seq<Byte>, a: nat, b: nat, offset: nat, size: nat)
    requires a <= b <= |s| && offset + size <= b - a
    ensures s[a..b][offset..offset + size] == s[a + offset..a + offset + size]
  {
    var t, u := s[a..b][offset..offset + size], s[a + offset..a + offset + size];
    forall i | 0 <= i < size ensures t[i] == u[i] {
      assert t[i] == s[a..b][offset + i] == s[a + offset + i];
    }
  }

  /** vfs_block_sread. Exactly the bytes from position on, if their first block has a number that fits an int. */
  method SRead(d: Device, position: nat, size: nat) returns (got: int, buf: seq<Byte>)
    requires OnDevice(d, position, size) && Buffered(d.blockSize, position, size) && position < WRAP64
    ensures ReadAsAsked(d, position, size, got, buf)
    ensures BlockOf(d.blockSize, position) < INT_LIMIT ==>
      got == size && position + size <= |Flat(d)| && buf == Flat(d)[position..position + size]
  {
    Span(d.blockSize, position, size);
    IntKeeps(Touched(d.blockSize, position, size));
    AtZero(d.blockSize);
    hide At, BlockOf, OffsetIn, Touched, Flat, Blocks, DiskBlock, AsInt, AsUnsigned, WellFormed;
    var bs := d.blockSize;
    var first, n := AsUnsigned(AsInt(BlockOf(bs, position))), AsUnsigned(AsInt(Touched(bs, position, size)));
    var offset := OffsetIn(bs, position);
    ghost var from := DiskBlock(d, first);
    if offset == 0 && size % bs == 0 {
      var blocks;
      blocks, buf := ReadBlocks(d, first, n);
      got := At(bs, blocks);
      ReadRight(d, position, size, got, buf);
      return;
    }
    SomeTouched(bs, position, size);
    IntKeeps(At(bs, n));
    assert AsUnsigned(AsInt(At(bs, n))) >= size;
    var blocks, whole := ReadBlocks(d, first, n);
    if blocks < n {
      got, buf := -1, [];
      ReadRight(d, position, size, got, buf);
      return;
    }
    Slice(d.disk, At(bs, from), At(bs, from) + At(bs, n), offset, size);
    got, buf := size, whole[offset..offset + size];
    ReadRight(d, position, size, got, buf);
  }

  /** vfs_block_swrite. Exactly the bytes from position on change, if their first block has a number that fits an int. */
  method SWrite(d: Device, position: nat, size: nat, buf: seq<Byte>) returns (put: int, d': Device)
    requires OnDevice(d, position, size) && Buffered(d.blockSize, position, size) && position < WRAP64 && |buf| == size
    ensures WellFormed(d') && d' == d.(disk := d'.disk) && WrittenAsAsked(d, position, buf, put, d')
    ensures BlockOf(d.blockSize, position) < INT_LIMIT ==>
      put == size && position + size <= |Flat(d)| && Flat(d') == Patched(Flat(d), position, buf)
  {
    Span(d.blockSize, position, size);
    IntKeeps(Touched(d.blockSize, position, size));
    AtZero(d.blockSize);
    hide At, BlockOf, OffsetIn, Touched, Flat, Blocks, DiskBlock, AsInt, AsUnsigned, WellFormed, Patched;
    var bs := d.blockSize;
    var first, n := AsUnsigned(AsInt(BlockOf(bs, position))), AsUnsigned(AsInt(Touched(bs, position, size)));
    var offset := OffsetIn(bs, position);
    ghost var from := DiskBlock(d, first);
    if offset == 0 && size % bs == 0 {
      var blocks;
      blocks, d' := WriteBlocks(d, first, n, buf);
      put := At(bs, blocks);
      WriteRight(d, position, buf, put, d');
      return;
    }
    SomeTouched(bs, position, size);
    var blocks, whole := ReadBlocks(d, first, n);
    if blocks < n {
      put, d' := -1, d;
      WriteRight(d, position, buf, put, d');
      return;
    }
    Repatch(d.disk, At(bs, from), At(bs, from) + At(bs, n), offset, buf);
    whole := Patched(whole, offset, buf);
    blocks, d' := WriteBlocks(d, first, n, whole);
    put := size;
    WriteRight(d, position, buf, put, d');
  }

  /** Writing back blocks that were read and changed in the middle changes the middle. */
  lemma Repatch(s: seq<Byte>, a: nat, b: nat, offset: nat, buf: seq<Byte>)
    requires a <= b <= |s| && offset + |buf| <= b - a
    ensures Patched(s, a, Patched(s[a..b], offset, buf)) == Patched(s, a + offset, buf)
  {
  }

  // ---------------------------------------------------------------- small partitions

  /** The partition has fewer than 2^31 blocks, of at most 512 MiB. */
  predicate Small(d: Device) { WellFormed(d) && |Flat(d)| < At(d.blockSize, INT_LIMIT) && d.blockSize <= REQUEST_MAX / 2 }

  lemma SmallForm(d: Device)
    requires Small(d)
    ensures WellFormed(d)
  {
  }

  /** Then every byte of it is found. */
  lemma SmallReach(d: Device, position: nat, size: nat)
    requires Small(d) && position + size <= |Flat(d)| && size <= REQUEST_MAX
    ensures OnDevice(d, position, size) && Buffered(d.blockSize, position, size) && position < WRAP64
    ensures BlockOf(d.blockSize, position) < INT_LIMIT
  {
    InsideOnDevice(d, position, size);
    var bs := d.blockSize;
    var first, n := BlockOf(bs, position), Touched(bs, position, size);
    RequestBuffered(bs, position, size);
    hide BlockOf, OffsetIn, Touched, Buffered;
    AtMonotone(bs, INT_LIMIT, first + n);
  }

  /** vfs_block_sread and vfs_block_swrite there. */
  method ReadSmall(d: Device, position: nat, size: nat) returns (buf: seq<Byte>)
    requires Small(d) && position + size <= |Flat(d)| && size <= REQUEST_MAX
    ensures buf == Flat(d)[position..position + size]
  {
    SmallReach(d, position, size);
    hide Small, Flat, BlockOf, Touched, ReadAsAsked;
    var got;
    got, buf := SRead(d, position, size);
  }

  method WriteSmall(d: Device, position: nat, buf: seq<Byte>) returns (d': Device)
    requires Small(d) && position + |buf| <= |Flat(d)| && |buf| <= REQUEST_MAX
    ensures Small(d') && Flat(d') == Patched(Flat(d), position, buf)
  {
    SmallReach(d, position, |buf|);
    var put;
    put, d' := SWrite(d, position, |buf|, buf);
  }

  lemma AtMonotone(bs: nat, a: nat, b: nat)
    ensures a <= b ==> At(bs, a) <= At(bs, b)
  {
    if a <= b {
      Scale(bs, a, b - a);
    }
  }
}
