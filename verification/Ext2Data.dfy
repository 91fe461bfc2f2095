/** Reading file data in src/fs/ext2_inode.c: the cached resolver of block numbers and ext2_inode_data_rw in read mode. */
module Ext2Data {
  import opened Common
  import opened BlockDevice

  const DIRECT := 12

  function PerBlock(bs: nat): nat { bs / 4 }

  function Square(n: nat): nat { n * n }

  /** Block b lies on the device. */
  predicate Inside(flat: seq<Byte>, bs: nat, b: nat) { At(bs, b) + bs <= |flat| }

  function BlockAt(flat: seq<Byte>, bs: nat, b: nat): (s: seq<Byte>)
    requires Inside(flat, bs, b)
    ensures |s| == bs
  {
    flat[At(bs, b)..At(bs, b) + bs]
  }

  /** Entry i of a table of little-endian 32-bit numbers. */
  function Number(table: seq<Byte>, i: nat): (n: nat)
    requires 4 * i + 4 <= |table|
  {
    var a: int, b: int, c: int, d: int := table[4 * i], table[4 * i + 1], table[4 * i + 2], table[4 * i + 3];
    a + 0x100 * b + 0x1_0000 * c + 0x100_0000 * d
  }

  // ---------------------------------------------------------------- the block map

  function Cube(n: nat): nat { n * Square(n) }

  /** Where block n of a file is looked up: directly, in the indirect table, in a table of the double table, or in one
      below the triple table. */
  datatype Place = Direct(i: nat) | Indirect(i: nat) | Double(i: nat, j: nat) | Triple(i: nat, j: nat, k: nat) | Beyond

  function InDouble(m: nat, e: nat): (p: Place)
    requires e > 0
  {
    Double(m / e, m % e)
  }

  function InTriple(m: nat, e: nat): (p: Place)
    requires e > 0
  {
    Triple(m / e / e, m / e % e, m % e)
  }

  function PlaceOf(bs: nat, n: nat): (p: Place)
    requires PerBlock(bs) > 0
  {
    var e := PerBlock(bs);
    if n < DIRECT then Direct(n)
    else if n < e + DIRECT then Indirect(n - DIRECT)
    else if n < Square(e) + e + DIRECT then InDouble(n - e - DIRECT, e)
    else if n < Cube(e) + Square(e) + e + DIRECT then InTriple(n - Square(e) - e - DIRECT, e)
    else Beyond
  }

  lemma PlaceBounds(bs: nat, n: nat)
    requires PerBlock(bs) > 0
    ensures match PlaceOf(bs, n)
      case Direct(i) => i < DIRECT
      case Indirect(i) => 4 * i + 4 <= bs
      case Double(i, j) => 4 * i + 4 <= bs && 4 * j + 4 <= bs
      case Triple(i, j, k) => 4 * i + 4 <= bs && 4 * j + 4 <= bs && 4 * k + 4 <= bs
      case Beyond => true
  {
    var e := PerBlock(bs);
    Products(e);
    FourEach(bs);
    hide Square, Cube, InDouble, InTriple, PerBlock;
    if e + DIRECT <= n < Square(e) + e + DIRECT {
      DoubleBelow(n - e - DIRECT, e);
    } else if Square(e) + e + DIRECT <= n < Cube(e) + Square(e) + e + DIRECT {
      TripleBelow(n - Square(e) - e - DIRECT, e);
    }
  }

  lemma FourEach(bs: nat)
    ensures forall i: nat :: i < PerBlock(bs) ==> 4 * i + 4 <= bs
  {
  }

  lemma Products(e: nat)
    ensures Square(e) == e * e == At(e, e) && Cube(e) == Square(e) * e == At(e, Square(e))
  {
  }

  lemma DoubleBelow(m: nat, e: nat)
    requires e > 0 && m < Square(e)
    ensures InDouble(m, e).Double? && InDouble(m, e).i < e && InDouble(m, e).j < e
  {
    QuotientBelow(m, e, e);
    Divides(m, e);
  }

  lemma TripleBelow(m: nat, e: nat)
    requires e > 0 && m < Cube(e)
    ensures var p := InTriple(m, e); p.Triple? && p.i < e && p.j < e && p.k < e
  {
    Products(e);
    QuotientBelow(m, Square(e), e);
    QuotientBelow(m / e, e, e);
    Divides(m, e);
    Divides(m / e, e);
  }

  lemma QuotientBelow(m: nat, k: nat, e: nat)
    requires e > 0 && m < k * e
    ensures m / e < k
  {
    Divides(m, e);
    Above(m / e, k - 1, e);
  }

  /** The tables on the way to block n lie on the device. */
  predicate Pointed(flat: seq<Byte>, bs: nat, blocks: seq<nat>, n: nat) {
    && PerBlock(bs) > 0 && |blocks| == 15
    && match PlaceOf(bs, n)
       case Indirect(i) => blocks[12] == 0 || Inside(flat, bs, blocks[12])
       case Double(i, j) =>
         blocks[13] == 0 ||
         (Inside(flat, bs, blocks[13]) && 4 * i + 4 <= bs &&
          (Number(BlockAt(flat, bs, blocks[13]), i) == 0 || Inside(flat, bs, Number(BlockAt(flat, bs, blocks[13]), i))))
       case Triple(i, j, k) =>
         blocks[14] == 0 ||
         (Inside(flat, bs, blocks[14]) && 4 * i + 4 <= bs &&
          var t := Number(BlockAt(flat, bs, blocks[14]), i);
          t == 0 ||
          (Inside(flat, bs, t) && 4 * j + 4 <= bs &&
           var u := Number(BlockAt(flat, bs, t), j); u == 0 || Inside(flat, bs, u)))
       case _ => true
  }

  /** The block number of block n by the tables on the disk; 0 is a hole. */
  function Mapped(flat: seq<Byte>, bs: nat, blocks: seq<nat>, n: nat): (b: nat)
    requires Pointed(flat, bs, blocks, n)
  {
    PlaceBounds(bs, n);
    match PlaceOf(bs, n)
    case Direct(i) => blocks[i]
    case Indirect(i) => if blocks[12] == 0 then 0 else Number(BlockAt(flat, bs, blocks[12]), i)
    case Double(i, j) =>
      if blocks[13] == 0 then 0
      else
        var t := Number(BlockAt(flat, bs, blocks[13]), i);
        if t == 0 then 0 else Number(BlockAt(flat, bs, t), j)
    case Triple(i, j, k) =>
      if blocks[14] == 0 then 0
      else
        var t := Number(BlockAt(flat, bs, blocks[14]), i);
        if t == 0 then 0 else
          var u := Number(BlockAt(flat, bs, t), j);
          if u == 0 then 0 else Number(BlockAt(flat, bs, u), k)
    case Beyond => 0
  }

  /** Entry i of the table in block b; a table that is not there has no entries. */
  function EntryOf(flat: seq<Byte>, bs: nat, b: nat, i: nat): (n: nat)
    requires 4 * i + 4 <= bs && (b == 0 || Inside(flat, bs, b))
  {
    if b == 0 then 0 else Number(BlockAt(flat, bs, b), i)
  }

  /** A table entry is the number whose four bytes stand there, the lowest first. */
  lemma NumberOf(table: seq<Byte>, i: nat, n: nat)
    requires 4 * i + 4 <= |table| && n < WRAP
    requires table[4 * i] == n % 256 && table[4 * i + 1] == n / 256 % 256
    requires table[4 * i + 2] == n / 256 / 256 % 256 && table[4 * i + 3] == n / 256 / 256 / 256
    ensures Number(table, i) == n
  {
    var a := n / 256;
    var b := a / 256;
    assert n == 256 * a + n % 256 && a == 256 * b + a % 256 && b == 256 * (b / 256) + b % 256;
  }

  /** The first twelve blocks are named by the inode, and the next ones in order by its table of e entries. */
  lemma MappedNear(flat: seq<Byte>, bs: nat, blocks: seq<nat>, i: nat)
    requires PerBlock(bs) > 0 && |blocks| == 15 && (blocks[12] == 0 || Inside(flat, bs, blocks[12]))
    ensures i < 12 ==> Pointed(flat, bs, blocks, i) && Mapped(flat, bs, blocks, i) == blocks[i]
    ensures i < PerBlock(bs) ==> Pointed(flat, bs, blocks, 12 + i) && Mapped(flat, bs, blocks, 12 + i) == EntryOf(flat, bs, blocks[12], i)
  {
    hide Number, BlockAt, Inside;
  }

  /** The next e * e blocks are named by the tables that the double table names, in order. */
  lemma MappedDouble(flat: seq<Byte>, bs: nat, blocks: seq<nat>, i: nat, j: nat)
    requires |blocks| == 15 && i < PerBlock(bs) && j < PerBlock(bs) && (blocks[13] == 0 || Inside(flat, bs, blocks[13]))
    requires var t := EntryOf(flat, bs, blocks[13], i); t == 0 || Inside(flat, bs, t)
    ensures var (e, n) := (PerBlock(bs), 12 + PerBlock(bs) + i * PerBlock(bs) + j);
      && Pointed(flat, bs, blocks, n)
      && Mapped(flat, bs, blocks, n) == EntryOf(flat, bs, EntryOf(flat, bs, blocks[13], i), j)
  {
    var e := PerBlock(bs);
    var m := i * e + j;
    var n := 12 + e + m;
    Composed(i, j, e);
    Above(e, i, e);
    Products(e);
    assert InDouble(m, e) == Double(i, j);
    FourEach(bs);
    hide Square, Cube, InDouble, InTriple, PerBlock;
    assert PlaceOf(bs, n) == Double(i, j);
    hide PlaceOf, Number, BlockAt, Inside;
  }

  /** And the next e * e * e ones by the tables below the triple table. */
  lemma MappedTriple(flat: seq<Byte>, bs: nat, blocks: seq<nat>, i: nat, j: nat, k: nat)
    requires |blocks| == 15 && i < PerBlock(bs) && j < PerBlock(bs) && k < PerBlock(bs)
    requires blocks[14] == 0 || Inside(flat, bs, blocks[14])
    requires var t := EntryOf(flat, bs, blocks[14], i); t == 0 || Inside(flat, bs, t)
    requires var u := EntryOf(flat, bs, EntryOf(flat, bs, blocks[14], i), j); u == 0 || Inside(flat, bs, u)
    ensures var n := TripleBlock(PerBlock(bs), i, j, k);
      && Pointed(flat, bs, blocks, n)
      && Mapped(flat, bs, blocks, n) == EntryOf(flat, bs, EntryOf(flat, bs, EntryOf(flat, bs, blocks[14], i), j), k)
  {
    TriplePlace(bs, i, j, k);
    FourEach(bs);
    hide TripleBlock, PerBlock;
    var n := TripleBlock(PerBlock(bs), i, j, k);
    hide PlaceOf, Number, BlockAt, Inside;
  }

  /** The file's block that entry k of table j of table i below the triple table is for. */
  function TripleBlock(e: nat, i: nat, j: nat, k: nat): (n: nat) { 12 + e + e * e + (i * e * e + j * e + k) }

  lemma TriplePlace(bs: nat, i: nat, j: nat, k: nat)
    requires i < PerBlock(bs) && j < PerBlock(bs) && k < PerBlock(bs)
    ensures PlaceOf(bs, TripleBlock(PerBlock(bs), i, j, k)) == Triple(i, j, k)
  {
    hide Square, Cube, InDouble, InTriple, PerBlock, TripleBlock;
    var m := TripleIs(i, j, k, PerBlock(bs));
  }

  lemma TripleIs(i: nat, j: nat, k: nat, e: nat) returns (m: nat)
    requires i < e && j < e && k < e
    ensures TripleBlock(e, i, j, k) == 12 + e + Square(e) + m && m < Cube(e) && InTriple(m, e) == Triple(i, j, k)
  {
    var q := At(e, i) + j;
    m := At(e, q) + k;
    TwoSteps(i, j, k, e);
    Composed(i, j, e);
    Composed(q, k, e);
    BelowProduct(i, j, e, e);
    BelowProduct(q, k, Square(e), e);
    TripleParts(m, q, i, j, k, e);
    Products(e);
    hide At, Square, Cube, TripleBlock, InTriple;
  }

  lemma TripleParts(m: nat, q: nat, i: nat, j: nat, k: nat, e: nat)
    requires e > 0 && m / e == q && m % e == k && q / e == i && q % e == j
    ensures InTriple(m, e) == Triple(i, j, k)
  {
  }

  lemma TwoSteps(i: nat, j: nat, k: nat, e: nat)
    ensures TripleBlock(e, i, j, k) == 12 + e + Square(e) + At(e, At(e, i) + j) + k
  {
    Scale(e, i * e, j);
  }

  lemma BelowProduct(i: nat, j: nat, n: nat, e: nat)
    requires i < n && j < e
    ensures At(e, i) + j < At(e, n)
  {
    Above(n, i, e);
  }

  lemma Composed(i: nat, j: nat, e: nat)
    requires j < e
    ensures (At(e, i) + j) / e == i && (At(e, i) + j) % e == j
  {
    Divides(i * e + j, e);
    Above((i * e + j) / e, i, e);
    Above(i, (i * e + j) / e, e);
  }

  /** What ext2_resolve_blocknum answers: it takes the end of the doubly indirect range to lie one table early. */
  function Resolved(flat: seq<Byte>, bs: nat, blocks: seq<nat>, n: nat): (b: nat)
    requires Pointed(flat, bs, blocks, n)
  {
    if InReach(bs, n) then Mapped(flat, bs, blocks, n) else 0
  }

  /** The block numbers the source looks up. */
  predicate InReach(bs: nat, n: nat) { n < Square(PerBlock(bs)) + DIRECT || n < PerBlock(bs) + DIRECT }

  /** The resolver agrees with the tables if and only if the block is in its reach or a hole. */
  lemma ResolvedIsMapped(flat: seq<Byte>, bs: nat, blocks: seq<nat>, n: nat)
    requires Pointed(flat, bs, blocks, n)
    ensures Resolved(flat, bs, blocks, n) == Mapped(flat, bs, blocks, n) <==> InReach(bs, n) || Mapped(flat, bs, blocks, n) == 0
  {
    hide Mapped;
  }

  /** A table whose entries are all b. */
  function Uniform(bs: nat, b: Byte): (t: seq<Byte>)
    ensures |t| == bs && forall i: nat :: 4 * i + 4 <= bs ==> Number(t, i) == b
  {
    var t: seq<Byte> := seq(bs, i => if i % 4 == 0 then b else 0);
    UniformNumber(t, b);
    t
  }

  lemma UniformNumber(t: seq<Byte>, b: Byte)
    requires forall i :: 0 <= i < |t| ==> t[i] == if i % 4 == 0 then b else 0
    ensures forall i: nat :: 4 * i + 4 <= |t| ==> Number(t, i) == b
  {
    forall i: nat | 4 * i + 4 <= |t| ensures Number(t, i) == b {
      assert 4 * i % 4 == 0;
    }
  }

  lemma FarPlace(bs: nat, n: nat)
    requires PerBlock(bs) > 0 && !InReach(bs, n) && n < Cube(PerBlock(bs)) + Square(PerBlock(bs)) + PerBlock(bs) + DIRECT
    ensures PlaceOf(bs, n).Double? || PlaceOf(bs, n).Triple?
  {
    hide Square, Cube, PerBlock;
  }

  /** Every block out of reach is mapped on some disk, where the resolver calls it a hole. */
  lemma OutOfReach(bs: nat, n: nat) returns (flat: seq<Byte>, blocks: seq<nat>)
    requires PerBlock(bs) > 0 && !InReach(bs, n) && n < Cube(PerBlock(bs)) + Square(PerBlock(bs)) + PerBlock(bs) + DIRECT
    ensures Pointed(flat, bs, blocks, n) && Mapped(flat, bs, blocks, n) == 3 && Inside(flat, bs, 3) && Resolved(flat, bs, blocks, n) == 0
  {
    PlaceBounds(bs, n);
    FarPlace(bs, n);
    flat := Uniform(bs, 0) + Uniform(bs, 2) + Uniform(bs, 3) + Uniform(bs, 3);
    blocks := seq(15, _ => 1);
    FourBlocks(bs);
    hide PlaceOf, Number, PerBlock, Square, Cube, Uniform, At, InReach, Pointed, Mapped;
    assert BlockAt(flat, bs, 1) == Uniform(bs, 2) && BlockAt(flat, bs, 2) == Uniform(bs, 3) && BlockAt(flat, bs, 3) == Uniform(bs, 3);
    hide BlockAt, Inside;
    UniformMapped(flat, bs, blocks, n);
  }

  lemma UniformMapped(flat: seq<Byte>, bs: nat, blocks: seq<nat>, n: nat)
    requires PerBlock(bs) > 0 && |blocks| == 15 && blocks[13] == blocks[14] == 1 && (PlaceOf(bs, n).Double? || PlaceOf(bs, n).Triple?)
    requires Inside(flat, bs, 1) && Inside(flat, bs, 2) && Inside(flat, bs, 3)
    requires BlockAt(flat, bs, 1) == Uniform(bs, 2) && BlockAt(flat, bs, 2) == Uniform(bs, 3) && BlockAt(flat, bs, 3) == Uniform(bs, 3)
    ensures Pointed(flat, bs, blocks, n) && Mapped(flat, bs, blocks, n) == 3
  {
    PlaceBounds(bs, n);
    hide PlaceOf, Number, PerBlock, Uniform, Inside, BlockAt;
  }

  lemma FourBlocks(bs: nat)
    ensures At(bs, 1) == bs && At(bs, 2) == 2 * bs && At(bs, 3) == 3 * bs
  {
  }

  // ---------------------------------------------------------------- the resolver cache

  datatype Cache = Cache(indirect: Option<seq<Byte>>, double: Option<seq<Byte>>, second: Option<seq<Byte>>, secondBlock: nat)

  const EMPTY := Cache(None, None, None, 0)

  predicate Holds(flat: seq<Byte>, bs: nat, b: nat, table: seq<Byte>) { Inside(flat, bs, b) && table == BlockAt(flat, bs, b) }

  /** The cached tables are those of the inode as they are on the disk. */
  predicate Coherent(flat: seq<Byte>, bs: nat, blocks: seq<nat>, c: Cache) {
    && |blocks| == 15
    && (c.indirect.Some? ==> Holds(flat, bs, blocks[12], c.indirect.value))
    && (c.double.Some? ==> Holds(flat, bs, blocks[13], c.double.value))
    && (c.secondBlock != 0 ==> c.second.Some? && Holds(flat, bs, c.secondBlock, c.second.value))
  }

  /** A whole block through vfs_block_sread. */
  method ReadBlock(d: Device, bs: nat, b: nat) returns (table: seq<Byte>)
    requires Small(d) && Inside(Flat(d), bs, b) && bs <= REQUEST_MAX
    ensures |table| == bs && Holds(Flat(d), bs, b, table)
  {
    table := ReadSmall(d, At(bs, b), bs);
  }

  /** ext2_resolve_blocknum: whatever the cache holds from earlier calls, the answer is that of the disk. */
  method Resolve(d: Device, bs: nat, blocks: seq<nat>, n: nat, c0: Cache) returns (b: nat, c: Cache)
    requires Small(d) && bs <= REQUEST_MAX && Pointed(Flat(d), bs, blocks, n) && Coherent(Flat(d), bs, blocks, c0)
    ensures b == Resolved(Flat(d), bs, blocks, n) && Coherent(Flat(d), bs, blocks, c)
  {
    PlaceBounds(bs, n);
    hide Flat, WellFormed, Small, Number, BlockAt, Inside, Square, PerBlock;
    c := c0;
    var e := PerBlock(bs);
    if n < DIRECT {
      return blocks[n], c;
    } else if n < e + DIRECT {
      if blocks[12] == 0 {
        return 0, c;
      }
      if c.indirect == None {
        var table := ReadBlock(d, bs, blocks[12]);
        c := c.(indirect := Some(table));
      }
      return Number(c.indirect.value, n - DIRECT), c;
    } else if n < Square(e) + DIRECT {
      if blocks[13] == 0 {
        return 0, c;
      }
      if c.double == None {
        var table := ReadBlock(d, bs, blocks[13]);
        c := c.(double := Some(table));
      }
      var t := Number(c.double.value, (n - e - DIRECT) / e);
      if t == 0 {
        return 0, c;
      }
      if c.second == None {
        c := c.(second := Some(seq(bs, _ => 0)));
      }
      if c.secondBlock != t {
        var table := ReadBlock(d, bs, t);
        c := c.(second := Some(table), secondBlock := t);
      }
      return Number(c.second.value, (n - e - DIRECT) % e), c;
    } else {
      return 0, c;
    }
  }

  // ---------------------------------------------------------------- reading

  /** Byte k of the file. */
  predicate HasByte(flat: seq<Byte>, bs: nat, blocks: seq<nat>, k: nat) {
    && bs > 0 && Pointed(flat, bs, blocks, BlockOf(bs, k))
    && Mapped(flat, bs, blocks, BlockOf(bs, k)) != 0 && Inside(flat, bs, Mapped(flat, bs, blocks, BlockOf(bs, k)))
  }

  function FileByte(flat: seq<Byte>, bs: nat, blocks: seq<nat>, k: nat): (b: Byte)
    requires HasByte(flat, bs, blocks, k)
  {
    Divides(k, bs);
    BlockAt(flat, bs, Mapped(flat, bs, blocks, BlockOf(bs, k)))[OffsetIn(bs, k)]
  }

  /** Byte o of the file's n-th block is byte o of the block that the tables name for it. */
  lemma FileByteAt(flat: seq<Byte>, bs: nat, blocks: seq<nat>, n: nat, o: nat)
    requires o < bs && Pointed(flat, bs, blocks, n) && Mapped(flat, bs, blocks, n) != 0
    requires Inside(flat, bs, Mapped(flat, bs, blocks, n))
    ensures HasByte(flat, bs, blocks, n * bs + o)
    ensures Mapped(flat, bs, blocks, n) * bs + o < |flat|
    ensures FileByte(flat, bs, blocks, n * bs + o) == flat[Mapped(flat, bs, blocks, n) * bs + o]
  {
    Composed(n, o, bs);
    hide Mapped, Pointed;
  }

  /** The number of blocks that ext2_inode_data_rw visits. */
  function Visited(bs: nat, offset: nat, length: nat): (n: nat)
    requires bs > 0
  {
    var m, r := OffsetIn(bs, offset), OffsetIn(bs, length);
    BlockOf(bs, length) + (if r > 0 then 1 else 0) + (if m > 0 && m + r > bs then 1 else 0)
  }

  /** The bytes that n blocks from the one of offset on hold of the wanted ones. */
  function Covered(bs: nat, offset: nat, length: nat, n: nat): (k: nat)
    requires bs > 0
  {
    Divides(offset, bs);
    Above(n, 0, bs);
    if n == 0 then 0 else if At(bs, n) - OffsetIn(bs, offset) < length then At(bs, n) - OffsetIn(bs, offset) else length
  }

  /** The blocks visited hold all that was asked for exactly if the offset is aligned or the length is no multiple of
      the block size, or nothing was asked for. */
  lemma CoversAll(bs: nat, offset: nat, length: nat)
    requires bs > 0
    ensures Covered(bs, offset, length, Visited(bs, offset, length)) == length <==>
      OffsetIn(bs, offset) == 0 || OffsetIn(bs, length) != 0 || length == 0
  {
    var m, q, r := OffsetIn(bs, offset), BlockOf(bs, length), OffsetIn(bs, length);
    Divides(offset, bs);
    Divides(length, bs);
    Scale(bs, q, 1);
    Scale(bs, q, 2);
    Scale(bs, 1, 1);
    assert At(bs, q) + r == length;
  }

  /** The blocks that hold the bytes are reachable; holes are allowed. */
  predicate Reachable(flat: seq<Byte>, bs: nat, blocks: seq<nat>, first: nat, n: nat) {
    forall k: nat :: first <= k < first + n ==> ReachableBlock(flat, bs, blocks, k)
  }

  predicate ReachableBlock(flat: seq<Byte>, bs: nat, blocks: seq<nat>, n: nat) {
    && Pointed(flat, bs, blocks, n)
    && (Mapped(flat, bs, blocks, n) == 0 || Inside(flat, bs, Mapped(flat, bs, blocks, n)))
  }

  /** None of the n blocks from first on is a hole. */
  predicate HoleFree(flat: seq<Byte>, bs: nat, blocks: seq<nat>, first: nat, n: nat) {
    forall k: nat :: first <= k < first + n ==> Solid(flat, bs, blocks, k)
  }

  predicate Solid(flat: seq<Byte>, bs: nat, blocks: seq<nat>, n: nat) {
    ReachableBlock(flat, bs, blocks, n) && Mapped(flat, bs, blocks, n) != 0
  }

  /** The first k bytes of the buffer are the bytes of the file from offset on. */
  predicate Delivered(flat: seq<Byte>, bs: nat, blocks: seq<nat>, offset: nat, buf: seq<Byte>, k: nat) {
    k <= |buf| && forall j: nat :: j < k ==> DeliveredByte(flat, bs, blocks, offset, buf, j)
  }

  predicate DeliveredByte(flat: seq<Byte>, bs: nat, blocks: seq<nat>, offset: nat, buf: seq<Byte>, j: nat)
    requires j < |buf|
  {
    HasByte(flat, bs, blocks, offset + j) && buf[j] == FileByte(flat, bs, blocks, offset + j)
  }

  lemma PlaceInBlock(bs: nat, a: nat, x: nat)
    requires bs > 0 && x < bs
    ensures BlockOf(bs, At(bs, a) + x) == a && OffsetIn(bs, At(bs, a) + x) == x
  {
    var k := At(bs, a) + x;
    Divides(k, bs);
    Above(a, k / bs, bs);
    Above(k / bs, a, bs);
  }

  /** One block's worth of bytes: x is the place in the block where they start. */
  lemma DeliverMore(flat: seq<Byte>, bs: nat, blocks: seq<nat>, offset: nat, buf: seq<Byte>, k: nat, n: nat, x: nat, data: seq<Byte>)
    requires bs > 0 && Delivered(flat, bs, blocks, offset, buf, k) && k + |data| <= |buf| && x + |data| <= bs
    requires offset + k == At(bs, n) + x || data == []
    requires ReachableBlock(flat, bs, blocks, n) && Mapped(flat, bs, blocks, n) != 0
    requires data == BlockAt(flat, bs, Mapped(flat, bs, blocks, n))[x..x + |data|]
    ensures Delivered(flat, bs, blocks, offset, Patched(buf, k, data), k + |data|)
  {
    hide Mapped, Pointed, At, BlockOf, OffsetIn, Inside, BlockAt;
    var buf' := Patched(buf, k, data);
    forall j: nat | j < k + |data| ensures DeliveredByte(flat, bs, blocks, offset, buf', j) {
      if j < k {
        assert DeliveredByte(flat, bs, blocks, offset, buf, j);
      } else {
        PlaceInBlock(bs, n, x + j - k);
        assert offset + j == At(bs, n) + (x + j - k);
      }
    }
  }

  /** What the buffer may hold after a read of n blocks: the bytes of the file as far as the blocks go, and what it
      held before from there on. */
  predicate Filled(flat: seq<Byte>, bs: nat, blocks: seq<nat>, offset: nat, length: nat, n: nat, buf0: seq<Byte>, buf: seq<Byte>)
    requires bs > 0
  {
    var k := Covered(bs, offset, length, n);
    |buf| == |buf0| && k <= |buf| && Delivered(flat, bs, blocks, offset, buf, k) && buf[k..] == buf0[k..]
  }

  /** What a visit to the i-th block adds. */
  lemma CoverStep(bs: nat, offset: nat, length: nat, i: nat)
    requires bs > 0
    ensures var x := if i == 0 then OffsetIn(bs, offset) else 0;
      var k := Covered(bs, offset, length, i);
      var w := if bs - x > length - k then length - k else bs - x;
      && k <= length && x < bs && Covered(bs, offset, length, i + 1) == k + w
      && (offset + k == At(bs, BlockOf(bs, offset) + i) + x || w == 0)
  {
    Divides(offset, bs);
    Scale(bs, i, 1);
    Scale(bs, BlockOf(bs, offset), i);
    Above(i, 0, bs);
  }

  lemma FilledMore(flat: seq<Byte>, bs: nat, blocks: seq<nat>, offset: nat, length: nat, i: nat, buf0: seq<Byte>, buf: seq<Byte>,
                   data: seq<Byte>)
    requires bs > 0 && |buf0| >= length && Filled(flat, bs, blocks, offset, length, i, buf0, buf)
    requires Solid(flat, bs, blocks, BlockOf(bs, offset) + i)
    requires var x := if i == 0 then OffsetIn(bs, offset) else 0;
      var k := Covered(bs, offset, length, i);
      && |data| == (if bs - x > length - k then length - k else bs - x) && x + |data| <= bs
      && data == BlockAt(flat, bs, Mapped(flat, bs, blocks, BlockOf(bs, offset) + i))[x..x + |data|]
    ensures var k := Covered(bs, offset, length, i);
      k + |data| <= |buf| && Filled(flat, bs, blocks, offset, length, i + 1, buf0, Patched(buf, k, data))
  {
    hide At, BlockOf, OffsetIn, Covered, Mapped, Pointed, Delivered, Inside, BlockAt, HasByte, FileByte, Patched;
    CoverStep(bs, offset, length, i);
    var x := if i == 0 then OffsetIn(bs, offset) else 0;
    var k := Covered(bs, offset, length, i);
    DeliverMore(flat, bs, blocks, offset, buf, k, BlockOf(bs, offset) + i, x, data);
    PatchRest(buf, buf0, k, data);
  }

  lemma PatchRest(buf: seq<Byte>, buf0: seq<Byte>, k: nat, data: seq<Byte>)
    requires |buf| == |buf0| && k + |data| <= |buf| && buf[k..] == buf0[k..]
    ensures Patched(buf, k, data)[k + |data|..] == buf0[k + |data|..]
  {
    assert buf[k..][|data|..] == buf[k + |data|..];
    assert buf0[k..][|data|..] == buf0[k + |data|..];
  }

  lemma NothingYet(flat: seq<Byte>, bs: nat, blocks: seq<nat>, offset: nat, length: nat, buf: seq<Byte>)
    requires bs > 0
    ensures Covered(bs, offset, length, 0) == 0 && Filled(flat, bs, blocks, offset, length, 0, buf, buf)
    ensures Found(flat, bs, blocks, BlockOf(bs, offset), 0)
    ensures |blocks| == 15 ==> Coherent(flat, bs, blocks, EMPTY)
  {
  }

  lemma OneMore(flat: seq<Byte>, bs: nat, blocks: seq<nat>, first: nat, i: nat, n: nat)
    requires Reachable(flat, bs, blocks, first, n) && Found(flat, bs, blocks, first, i) && i < n
    ensures ReachableBlock(flat, bs, blocks, first + i)
    ensures Resolved(flat, bs, blocks, first + i) == 0 ==> !Found(flat, bs, blocks, first, n)
    ensures Resolved(flat, bs, blocks, first + i) != 0 ==>
      && Solid(flat, bs, blocks, first + i) && Found(flat, bs, blocks, first, i + 1)
      && Resolved(flat, bs, blocks, first + i) == Mapped(flat, bs, blocks, first + i)
  {
    assert ReachableBlock(flat, bs, blocks, first + i);
    hide Pointed, Mapped, Inside, InReach;
    if Resolved(flat, bs, blocks, first + i) == 0 {
      assert !(Solid(flat, bs, blocks, first + i) && InReach(bs, first + i));
    }
  }

  /** None of the n blocks from first on is a hole, and all are in the resolver's reach. */
  predicate Found(flat: seq<Byte>, bs: nat, blocks: seq<nat>, first: nat, n: nat) {
    forall k: nat :: first <= k < first + n ==> Solid(flat, bs, blocks, k) && InReach(bs, k)
  }

  /** All blocks are found if none is a hole and the last one is in reach. */
  lemma LastInReach(flat: seq<Byte>, bs: nat, blocks: seq<nat>, first: nat, n: nat)
    ensures Found(flat, bs, blocks, first, n) <==> HoleFree(flat, bs, blocks, first, n) && (n == 0 || InReach(bs, first + n - 1))
  {
    hide Solid;
    if HoleFree(flat, bs, blocks, first, n) && (n == 0 || InReach(bs, first + n - 1)) {
      forall k: nat | first <= k < first + n ensures InReach(bs, k) {
        hide Square, PerBlock;
      }
    }
    if Found(flat, bs, blocks, first, n) && n > 0 {
      assert Solid(flat, bs, blocks, first + n - 1) && InReach(bs, first + n - 1);
    }
  }

  /** Part of a block through vfs_block_sread. */
  method ReadPart(d: Device, bs: nat, b: nat, x: nat, size: nat) returns (data: seq<Byte>)
    requires Small(d) && bs <= REQUEST_MAX && Inside(Flat(d), bs, b) && x + size <= bs
    ensures |data| == size && data == BlockAt(Flat(d), bs, b)[x..x + size]
  {
    data := ReadSmall(d, At(bs, b) + x, size);
    Slice(Flat(d), At(bs, b), At(bs, b) + bs, x, size);
  }

  /** One block's turn: its bytes, from the offset on in the first block and as many as are still wanted. */
  method AddBlock(d: Device, bs: nat, ghost blocks: seq<nat>, ghost offset: nat, length: nat, i: nat, b: nat, m: nat, ghost buf0: seq<Byte>,
                  buf: seq<Byte>, bufOffset: nat)
    returns (buf': seq<Byte>, bufOffset': nat)
    requires Small(d) && 0 < bs <= REQUEST_MAX && |buf0| >= length && m == OffsetIn(bs, offset) && bufOffset == Covered(bs, offset, length, i)
    requires Filled(Flat(d), bs, blocks, offset, length, i, buf0, buf)
    requires Solid(Flat(d), bs, blocks, BlockOf(bs, offset) + i) && b == Mapped(Flat(d), bs, blocks, BlockOf(bs, offset) + i)
    ensures bufOffset' == Covered(bs, offset, length, i + 1) && Filled(Flat(d), bs, blocks, offset, length, i + 1, buf0, buf')
  {
    hide Flat, WellFormed, Small, Filled, Covered, BlockOf, OffsetIn, At, Mapped, Pointed, Inside, BlockAt, Patched;
    SmallForm(d);
    CoverStep(bs, offset, length, i);
    var x, wrSize := 0, bs;
    if i == 0 {
      x := m;
      wrSize := bs - m;
    }
    if wrSize > length - bufOffset {
      wrSize := length - bufOffset;
    }
    var data := ReadPart(d, bs, b, x, wrSize);
    FilledMore(Flat(d), bs, blocks, offset, length, i, buf0, buf, data);
    buf' := Patched(buf, bufOffset, data);
    bufOffset' := bufOffset + wrSize;
  }

  /** ext2_inode_data_rw in read mode: it fails exactly at a hole or if the last block is out of the resolver's reach. */
  method ReadData(d: Device, bs: nat, blocks: seq<nat>, offset: nat, length: nat, buf0: seq<Byte>) returns (ok: bool, buf: seq<Byte>)
    requires Small(d) && 0 < bs <= REQUEST_MAX && |blocks| == 15 && |buf0| >= length
    requires Reachable(Flat(d), bs, blocks, BlockOf(bs, offset), Visited(bs, offset, length))
    ensures ok <==>
      && HoleFree(Flat(d), bs, blocks, BlockOf(bs, offset), Visited(bs, offset, length))
      && (Visited(bs, offset, length) == 0 || InReach(bs, BlockOf(bs, offset) + Visited(bs, offset, length) - 1))
    ensures ok ==> Filled(Flat(d), bs, blocks, offset, length, Visited(bs, offset, length), buf0, buf)
  {
    hide Flat, WellFormed, Small, Reachable, HoleFree, Found, Filled, Covered, Visited, BlockOf, OffsetIn, At, Mapped, Resolved, Pointed,
      Coherent, Inside, BlockAt, Patched, InReach;
    SmallForm(d);
    ghost var flat := Flat(d);
    LastInReach(flat, bs, blocks, BlockOf(bs, offset), Visited(bs, offset, length));
    var first, m := BlockOf(bs, offset), OffsetIn(bs, offset);
    var n := Visited(bs, offset, length);
    var bufOffset := 0;
    var cache := EMPTY;
    buf := buf0;
    NothingYet(flat, bs, blocks, offset, length, buf0);
    var i := 0;
    while i < n
      invariant 0 <= i <= n && bufOffset == Covered(bs, offset, length, i) && Coherent(flat, bs, blocks, cache)
      invariant Filled(flat, bs, blocks, offset, length, i, buf0, buf) && Found(flat, bs, blocks, first, i)
    {
      OneMore(flat, bs, blocks, first, i, n);
      var b;
      b, cache := Resolve(d, bs, blocks, i + first, cache);
      if b == 0 {
        return false, buf;
      }
      buf, bufOffset := AddBlock(d, bs, blocks, offset, length, i, b, m, buf0, buf, bufOffset);
      i := i + 1;
    }
    ok := true;
  }

  /** A successful read delivers exactly the bytes asked for whenever the offset is aligned or the length is no multiple
      of the block size; otherwise the last bytes of the buffer, as many as the offset lies inside its block, are left
      as they were. */
  lemma ExactRead(flat: seq<Byte>, bs: nat, blocks: seq<nat>, offset: nat, length: nat, buf0: seq<Byte>, buf: seq<Byte>)
    requires bs > 0 && Filled(flat, bs, blocks, offset, length, Visited(bs, offset, length), buf0, buf)
    ensures OffsetIn(bs, offset) == 0 || OffsetIn(bs, length) != 0 || length == 0 ==> Delivered(flat, bs, blocks, offset, buf, length)
    ensures OffsetIn(bs, offset) != 0 && OffsetIn(bs, length) == 0 && length > 0 ==>
      Covered(bs, offset, length, Visited(bs, offset, length)) == length - OffsetIn(bs, offset)
  {
    hide Delivered;
    CoversAll(bs, offset, length);
    Divides(length, bs);
    Divides(offset, bs);
  }
}
