/** Reading files through ext2 block pointers, up to loading the kernel: stage1.5/fs/ext2/ext2.c. */
module Ext2 {
  import opened Words
  import opened DiskReader

  const EXT2_IN_DIRECT_PTR: nat := 40
  const EXT2_IN_INDIRECT_PTR: nat := 88
  const EXT2_IN_INDIRECT2_PTR: nat := 92
  const EXT2_IN_INDIRECT3_PTR: nat := 96

  // ---- Block paths -----------------------------------------------------------------------------

  /** How a data block is reached: from a pointer slot of the inode, through the given entry of each
      pointer block. */
  datatype Path = Path(slot: nat, entries: seq<nat>)

  /** The path `read_inode_block` follows to logical block b, with k pointers to a block. The entry of a
      pointer block is passed as a 16-bit byte offset. */
  function CodePath(b: nat, k: nat): Path
    requires 0 < k
  {
    if b < 12 then Path(EXT2_IN_DIRECT_PTR + b * 4, [])
    else
      var b1 := b - 12;
      if b1 < k then Path(EXT2_IN_INDIRECT_PTR, [b1])
      else
        var b2 := b1 - k;
        var kk := Square(k);
        if b2 < kk then Path(EXT2_IN_INDIRECT2_PTR, [Quot(b2, k), b2 % k])
        else
          var b3 := b2 - kk;
          Path(EXT2_IN_INDIRECT2_PTR, [Quot(b3, Cube(k)), Quot(b3 % Cube(k), kk), b3 % Cube(k) % kk % 0x4000])
  }

  function Square(k: nat): (r: nat)
    requires 0 < k
    ensures k <= r == k * k
  {
    assert k * 1 <= k * k;
    k * k
  }

  function Cube(k: nat): (r: nat)
    requires 0 < k
    ensures 0 < r == k * Square(k)
  {
    assert k * 1 <= k * Square(k);
    k * Square(k)
  }

  /** The path the file system keeps logical block b at (12 direct pointers, then one pointer each to a
      single-, double- and triple-indirect block). */
  function Ext2Path(b: nat, k: nat): Path
    requires 0 < k
  {
    if b < 12 then Path(EXT2_IN_DIRECT_PTR + b * 4, [])
    else if b - 12 < k then Path(EXT2_IN_INDIRECT_PTR, [b - 12])
    else if b - 12 - k < Square(k) then Path(EXT2_IN_INDIRECT2_PTR, [Quot(b - 12 - k, k), (b - 12 - k) % k])
    else
      var t := b - 12 - k - Square(k);
      Path(EXT2_IN_INDIRECT3_PTR, [Quot(t, Square(k)), Quot(t, k) % k, t % k])
  }

  /** The code finds the right block exactly below the triple-indirect range; in that range it starts
      from the double-indirect pointer. */
  lemma RightPathBelowTriple(b: nat, k: nat)
    requires 0 < k && b < 12 + k + k * k + Cube(k)
    ensures CodePath(b, k) == Ext2Path(b, k) <==> b < 12 + k + k * k
  {
  }

  /** What it follows in that range: entry 0 of the double-indirect block, then the entry the file system
      would take from the triple-indirect block, then as many of the remaining blocks as fit 14 bits. */
  lemma PathInTripleRange(b: nat, k: nat)
    requires 0 < k && 12 + k + k * k <= b < 12 + k + k * k + Cube(k)
    ensures var p := CodePath(b, k);
            && p.slot == EXT2_IN_INDIRECT2_PTR && |p.entries| == 3 && p.entries[0] == 0
            && exists rest: nat :: (
                rest < k * k && p.entries[2] == rest % 0x4000
                && b == 12 + k + k * k + p.entries[1] * Square(k) + rest)
  {
    var t := b - 12 - k - Square(k);
    QuotientIs(t, Cube(k), 0, t);
    var rest := t % Square(k);
    assert t == t / Square(k) * Square(k) + rest;
    assert CodePath(b, k).entries == [0, t / Square(k), rest % 0x4000];
  }

  /** The pointers of an inode lie one after the other: 12 direct ones, then those of one, two and three
      levels. */
  lemma PointerSlots(b: nat, k: nat)
    requires 0 < k
    ensures var p := Ext2Path(b, k); p.slot == 40 + 4 * (if b < 12 then b else 11 + |p.entries|)
  {
  }

  /** The paths that exist below the triple-indirect range. */
  predicate ValidPath(p: Path, k: nat) {
    || (p.entries == [] && exists b :: 0 <= b < 12 && p.slot == EXT2_IN_DIRECT_PTR + b * 4)
    || (p.slot == EXT2_IN_INDIRECT_PTR && |p.entries| == 1 && p.entries[0] < k)
    || (p.slot == EXT2_IN_INDIRECT2_PTR && |p.entries| == 2 && p.entries[0] < k && p.entries[1] < k)
  }

  /** The logical block a path leads to. */
  function LogicalBlock(p: Path, k: nat): nat
    requires ValidPath(p, k)
  {
    if |p.entries| == 0 then (p.slot - EXT2_IN_DIRECT_PTR) / 4
    else if |p.entries| == 1 then 12 + p.entries[0]
    else 12 + k + p.entries[0] * k + p.entries[1]
  }

  /** Logical blocks below 12 + k + k*k and paths are in bijection. */
  lemma PathOfBlock(b: nat, k: nat)
    requires 0 < k && b < 12 + k + k * k
    ensures ValidPath(CodePath(b, k), k) && LogicalBlock(CodePath(b, k), k) == b
  {
    if b >= 12 + k {
      var x := b - 12 - k;
      QuotientBelow(x, k, k);
      assert x == x / k * k + x % k;
    } else if b < 12 {
      assert 0 <= b < 12 && CodePath(b, k).slot == EXT2_IN_DIRECT_PTR + b * 4;
    }
  }

  lemma BlockOfPath(p: Path, k: nat)
    requires 0 < k && ValidPath(p, k)
    ensures LogicalBlock(p, k) < 12 + k + k * k && CodePath(LogicalBlock(p, k), k) == p
  {
    hide Cube;
    if |p.entries| == 2 {
      var i, j := p.entries[0], p.entries[1];
      assert p.entries == [i, j];
      var x := i * k + j;
      PairBelow(i, j, k, k);
      QuotientIs(x, k, i, j);
    } else if |p.entries| == 1 {
      assert p.entries == [p.entries[0]];
    }
  }

  lemma QuotientBelow(x: nat, n: nat, k: nat)
    requires 0 < k && x < n * k
    ensures 0 <= x / k < n
  {
    var q := x / k;
    assert x == q * k + x % k;
    assert q * k < n * k;
  }

  lemma PairBelow(i: nat, j: nat, n: nat, k: nat)
    requires i < n && j < k
    ensures i * k + j < n * k
  {
    assert (i + 1) * k <= n * k;
  }

  // ---- What the bytes of the partition mean ------------------------------------------------------

  /** The superblock values the reader uses. */
  datatype Superblock = Superblock(blockSize: nat, inodesPerGroup: nat, inodeSize: nat, block0: nat)
  {
    /** Powers of two from 1024 that fit a 16-bit read, and group addresses that fit an int. */
    predicate Valid() {
      && 1024 <= blockSize < 0x1_0000 && blockSize % 1024 == 0 && B32 % blockSize == 0
      && 0 < inodesPerGroup && inodeSize < 0x1_0000
      && (block0 + 1) * blockSize + B32 / inodesPerGroup * 32 + 32 < 0x8000_0000
    }

    /** Pointers to a block. */
    function K(): (k: nat)
      ensures Valid() ==> 4 * k == blockSize
    {
      Quarter(blockSize);
      blockSize / 4
    }

    /** Blocks the direct, single- and double-indirect pointers reach. */
    function Reach(): nat { 12 + K() + K() * K() }
  }

  lemma Quarter(n: nat)
    ensures n % 1024 == 0 ==> 4 * (n / 4) == n
  {
    var q, r := n / 1024, n % 1024;
    assert n == 4 * (256 * q) + r;
  }

  /** The little-endian 32-bit value at byte a (0 past the end). */
  function Le32(p: seq<Byte>, a: nat): Word {
    if a + 4 > |p| then 0
    else
      var b0: nat, b1: nat, b2: nat, b3: nat := p[a], p[a + 1], p[a + 2], p[a + 3];
      b0 + 0x100 * b1 + 0x1_0000 * b2 + 0x100_0000 * b3
  }

  /** The address of a block. */
  function BlockStart(sb: Superblock, blk: Word): (a: nat)
    requires sb.Valid()
    ensures a < 0x1_0000_0000_0000
  {
    MulBound(blk, sb.blockSize);
    blk * sb.blockSize
  }

  /** `inode_to_blockgroup` and `inode_to_blockgroup_index`, on a 32-bit inode number. */
  function GroupOf(sb: Superblock, inode: Word): nat
    requires sb.Valid()
  {
    Quot((inode + B32 - 1) % B32, sb.inodesPerGroup)
  }

  function IndexInGroup(sb: Superblock, inode: Word): (r: Word)
    requires sb.Valid()
  {
    ModAtMost((inode + B32 - 1) % B32, sb.inodesPerGroup);
    (inode + B32 - 1) % B32 % sb.inodesPerGroup
  }

  /** Inode numbers from 1 on and pairs of a group and an index below the group's size are in bijection. */
  lemma InodeIsInGroup(sb: Superblock, inode: Word)
    requires sb.Valid() && 1 <= inode
    ensures GroupOf(sb, inode) * sb.inodesPerGroup + IndexInGroup(sb, inode) + 1 == inode
    ensures IndexInGroup(sb, inode) < sb.inodesPerGroup
  {
    assert (inode + B32 - 1) % B32 == inode - 1;
  }

  lemma InodeOfGroup(sb: Superblock, group: nat, index: nat)
    requires sb.Valid() && index < sb.inodesPerGroup && group * sb.inodesPerGroup + index + 1 < B32
    ensures var inode := group * sb.inodesPerGroup + index + 1;
            GroupOf(sb, inode) == group && IndexInGroup(sb, inode) == index
  {
    var n := group * sb.inodesPerGroup + index;
    assert (n + 1 + B32 - 1) % B32 == n;
    QuotientIs(n, sb.inodesPerGroup, group, index);
  }

  lemma ModAtMost(x: nat, d: nat)
    requires d > 0
    ensures 0 <= x % d <= x
  {
    DivAtMost(x, d);
    assert x == x / d * d + x % d;
  }

  /** The address of a group's inode table pointer in the group descriptor table. */
  function TablePointerAddr(sb: Superblock, group: nat): nat
    requires sb.Valid()
  {
    (sb.block0 + 1) * sb.blockSize + group * 32 + 8
  }

  /** The address of an inode on the partition. */
  function InodeAddr(p: seq<Byte>, sb: Superblock, inode: Word): nat
    requires sb.Valid()
  {
    BlockStart(sb, Le32(p, TablePointerAddr(sb, GroupOf(sb, inode)))) + InodeOffset(sb, inode)
  }

  function InodeOffset(sb: Superblock, inode: Word): (o: nat)
    requires sb.Valid()
    ensures o < 0x1_0000_0000_0000
  {
    MulBound(IndexInGroup(sb, inode), sb.inodeSize);
    IndexInGroup(sb, inode) * sb.inodeSize
  }

  /** The first inode of a group lies at the start of the group's inode table, in the block its table
      pointer names. */
  lemma TableStart(p: seq<Byte>, sb: Superblock, group: nat)
    requires sb.Valid() && group * sb.inodesPerGroup + 1 < B32
    ensures InodeAddr(p, sb, group * sb.inodesPerGroup + 1) == BlockStart(sb, Le32(p, TablePointerAddr(sb, group)))
  {
    hide BlockStart, Le32, TablePointerAddr;
    InodeOfGroup(sb, group, 0);
  }

  /** The next inode of the same group lies one inode size behind. */
  lemma NextInode(p: seq<Byte>, sb: Superblock, inode: Word)
    requires sb.Valid() && 1 <= inode && inode + 1 < B32 && inode % sb.inodesPerGroup != 0
    ensures GroupOf(sb, inode + 1) == GroupOf(sb, inode)
    ensures InodeAddr(p, sb, inode + 1) == InodeAddr(p, sb, inode) + sb.inodeSize
  {
    hide GroupOf, IndexInGroup, BlockStart, Le32, TablePointerAddr;
    InodeIsInGroup(sb, inode);
    var g, i := GroupOf(sb, inode), IndexInGroup(sb, inode);
    NextBlock(g, sb.inodesPerGroup);
    if i + 1 == sb.inodesPerGroup {
      QuotientIs(inode, sb.inodesPerGroup, g + 1, 0);
    }
    InodeOfGroup(sb, g, i + 1);
    NextBlock(i, sb.inodeSize);
  }

  /** The table pointer of group g is byte 8 of the g-th 32-byte descriptor in the block behind the
      superblock's. */
  lemma DescriptorTable(sb: Superblock, group: nat)
    requires sb.Valid() && sb.block0 + 1 < B32
    ensures TablePointerAddr(sb, 0) == BlockStart(sb, sb.block0 + 1) + 8
    ensures TablePointerAddr(sb, group + 1) == TablePointerAddr(sb, group) + 32
  {
  }

  /** Blocks lie one after the other from the start of the partition. */
  lemma BlocksInOrder(sb: Superblock, blk: Word)
    requires sb.Valid()
    ensures BlockStart(sb, 0) == 0
    ensures blk + 1 < B32 ==> BlockStart(sb, blk + 1) == BlockStart(sb, blk) + sb.blockSize
  {
    NextBlock(blk, sb.blockSize);
  }

  /** A 32-bit value stored least significant byte first is read back. */
  lemma Le32ReadsBack(p: seq<Byte>, a: nat, v: Word)
    requires a + 4 <= |p| && p[a] == v % 0x100 && p[a + 1] == v / 0x100 % 0x100
    requires p[a + 2] == v / 0x100 / 0x100 % 0x100 && p[a + 3] == v / 0x100 / 0x100 / 0x100
    ensures Le32(p, a) == v
  {
    var q := v / 0x100;
    var r := q / 0x100;
    FourBytes(v, q, r, r / 0x100, v % 0x100, q % 0x100, r % 0x100);
  }

  lemma FourBytes(v: nat, q: nat, r: nat, s: nat, b0: nat, b1: nat, b2: nat)
    requires v == 0x100 * q + b0 && q == 0x100 * r + b1 && r == 0x100 * s + b2
    ensures v == b0 + 0x100 * b1 + 0x1_0000 * b2 + 0x100_0000 * s
  {
  }

  lemma TablePointerBound(sb: Superblock, inode: Word)
    requires sb.Valid()
    ensures TablePointerAddr(sb, GroupOf(sb, inode)) < 0x8000_0000
  {
    QuotMonotone((inode + B32 - 1) % B32, B32, sb.inodesPerGroup);
  }

  lemma MulBound(x: nat, y: nat)
    requires x < B32 && y < 0x1_0000
    ensures x * y < 0x1_0000_0000_0000
  {
    assert x * y <= x * 0x1_0000;
  }

  lemma QuotMonotone(x: nat, y: nat, d: nat)
    requires x <= y && d > 0
    ensures x / d <= y / d
  {
    var q, r := x / d, y / d;
    assert q * d < (r + 1) * d by {
      assert x == q * d + x % d && y == r * d + y % d;
      NextBlock(r, d);
    }
    assert d * q < d * (r + 1);
    MulStrict(d, q, r + 1);
  }

  /** The block reached from block `blk` through entries of pointer blocks. */
  function Chain(p: seq<Byte>, sb: Superblock, blk: Word, entries: seq<nat>): Word
    requires sb.Valid()
    decreases |entries|
  {
    if entries == [] then blk else Chain(p, sb, Le32(p, BlockStart(sb, blk) + entries[0] * 4), entries[1..])
  }

  /** The data block at the end of a path from an inode. */
  function Follow(p: seq<Byte>, sb: Superblock, inode: Word, path: Path): Word
    requires sb.Valid()
  {
    Chain(p, sb, Le32(p, InodeAddr(p, sb, inode) + path.slot), path.entries)
  }

  /** The address of byte o of a file, through the block the file system keeps it in. */
  function FileAddr(p: seq<Byte>, sb: Superblock, inode: Word, o: nat): nat
    requires sb.Valid()
  {
    BlockStart(sb, Follow(p, sb, inode, Ext2Path(Quot(o, sb.blockSize), sb.K()))) + o % sb.blockSize
  }

  /** Bytes o to o + n of a file: of its data blocks, one after the other. */
  function FileBytes(p: seq<Byte>, sb: Superblock, inode: Word, o: nat, n: nat): (r: seq<Byte>)
    requires sb.Valid()
    ensures |r| == n
  {
    seq(n, i requires 0 <= i < n =>
      var a := FileAddr(p, sb, inode, o + i); if a < |p| then p[a] else 0)
  }

  /** The pointers on the way to a data block lie on the partition, and so does byte o of the file. */
  predicate TableReadable(p: seq<Byte>, sb: Superblock, inode: Word)
    requires sb.Valid()
  {
    TablePointerAddr(sb, GroupOf(sb, inode)) + 4 <= |p|
  }

  predicate ChainReadable(p: seq<Byte>, sb: Superblock, blk: Word, entries: seq<nat>)
    requires sb.Valid()
    decreases |entries|
  {
    entries == [] ||
    var a := BlockStart(sb, blk) + entries[0] * 4;
    a + 4 <= |p| && ChainReadable(p, sb, Le32(p, a), entries[1..])
  }

  predicate PathReadable(p: seq<Byte>, sb: Superblock, inode: Word, path: Path)
    requires sb.Valid()
  {
    && TableReadable(p, sb, inode)
    && var a := InodeAddr(p, sb, inode) + path.slot;
    a + 4 <= |p| && ChainReadable(p, sb, Le32(p, a), path.entries)
  }

  predicate ByteReadable(p: seq<Byte>, sb: Superblock, inode: Word, o: nat)
    requires sb.Valid()
  {
    && PathReadable(p, sb, inode, Ext2Path(Quot(o, sb.blockSize), sb.K()))
    && FileAddr(p, sb, inode, o) < |p|
  }

  ghost predicate Readable(p: seq<Byte>, sb: Superblock, inode: Word, o: nat, n: nat)
    requires sb.Valid()
  {
    forall i :: o <= i < o + n ==> ByteReadable(p, sb, inode, i)
  }

  /** On a partition that holds every address a 32-bit block number leads to, every file is readable. */
  lemma ReadableWhereBlocksExist(p: seq<Byte>, sb: Superblock, inode: Word, o: nat, n: nat)
    requires sb.Valid() && |p| >= 0x4_0000_0000_0000
    requires o + n <= sb.Reach() * sb.blockSize
    ensures Readable(p, sb, inode, o, n)
  {
    hide Ext2Path, Le32, BlockStart, InodeOffset, Chain, ChainReadable;
    forall i | o <= i < o + n
      ensures ByteReadable(p, sb, inode, i)
    {
      var block := Quot(i, sb.blockSize);
      TablePointerBound(sb, inode);
      ReachedBlock(i, block, sb);
      SmallEntries(block, sb);
      ChainExists(p, sb, Le32(p, InodeAddr(p, sb, inode) + Ext2Path(block, sb.K()).slot),
                  Ext2Path(block, sb.K()).entries);
    }
  }

  lemma ReachedBlock(i: nat, block: nat, sb: Superblock)
    requires sb.Valid() && block == i / sb.blockSize && i < sb.Reach() * sb.blockSize
    ensures block < sb.Reach()
  {
    QuotientBelow(i, sb.Reach(), sb.blockSize);
  }

  lemma SmallEntries(block: nat, sb: Superblock)
    requires sb.Valid() && block < sb.Reach()
    ensures Ext2Path(block, sb.K()).slot < 0x80
    ensures var es := Ext2Path(block, sb.K()).entries; forall k :: 0 <= k < |es| ==> es[k] < 0x4000
  {
    PathFits(block, sb.K());
    RightPathBelowTriple(block, sb.K());
  }

  lemma {:induction false} ChainExists(p: seq<Byte>, sb: Superblock, blk: Word, entries: seq<nat>)
    requires sb.Valid() && |p| >= 0x4_0000_0000_0000 && forall k :: 0 <= k < |entries| ==> entries[k] < 0x4000
    ensures ChainReadable(p, sb, blk, entries)
    decreases |entries|
  {
    hide Le32, BlockStart;
    if entries != [] {
      assert forall k :: 0 <= k < |entries[1..]| ==> entries[1..][k] == entries[k + 1];
      ChainExists(p, sb, Le32(p, BlockStart(sb, blk) + entries[0] * 4), entries[1..]);
    }
  }

  lemma ReadableParts(p: seq<Byte>, sb: Superblock, inode: Word, o: nat, m: nat, n: nat)
    requires sb.Valid()
    ensures Readable(p, sb, inode, o, m + n) ==> Readable(p, sb, inode, o, m) && Readable(p, sb, inode, o + m, n)
  {
    hide ByteReadable;
  }

  // ---- The readers ---------------------------------------------------------------------------

  lemma FollowIs(p: seq<Byte>, sb: Superblock, inode: Word, path: Path)
    requires sb.Valid()
    ensures Follow(p, sb, inode, path) == Chain(p, sb, Le32(p, InodeAddr(p, sb, inode) + path.slot), path.entries[0..])
    ensures PathReadable(p, sb, inode, path) ==>
              && TableReadable(p, sb, inode) && InodeAddr(p, sb, inode) + path.slot + 4 <= |p|
              && ChainReadable(p, sb, Le32(p, InodeAddr(p, sb, inode) + path.slot), path.entries[0..])
  {
    assert path.entries[0..] == path.entries;
  }

  lemma ChainStep(p: seq<Byte>, sb: Superblock, blk: Word, entries: seq<nat>, i: nat)
    requires sb.Valid() && i < |entries|
    ensures Chain(p, sb, blk, entries[i..]) ==
            Chain(p, sb, Le32(p, BlockStart(sb, blk) + entries[i] * 4), entries[i + 1..])
    ensures ChainReadable(p, sb, blk, entries[i..]) ==>
              && BlockStart(sb, blk) + entries[i] * 4 + 4 <= |p|
              && ChainReadable(p, sb, Le32(p, BlockStart(sb, blk) + entries[i] * 4), entries[i + 1..])
  {
    assert entries[i..][1..] == entries[i + 1..];
  }

  lemma ChainEnd(p: seq<Byte>, sb: Superblock, blk: Word, entries: seq<nat>)
    requires sb.Valid()
    ensures Chain(p, sb, blk, entries[|entries|..]) == blk
  {
  }

  /** The partition and superblock the boot loader works on. A failed read is ignored by these readers
      (only `halt` stops them), so each promises its result when every BIOS call it makes works and the
      blocks it goes through lie on the partition. */
  class Reader {
    const part: Partition
    const sb: Superblock

    constructor (part: Partition, sb: Superblock)
      ensures this.part == part && this.sb == sb
    {
      this.part, this.sb := part, sb;
    }

    ghost predicate Ready()
      reads part.disk
    {
      part.disk.Valid() && sb.Valid()
    }

    /** The bytes of the partition, as `partition_read` addresses them. */
    ghost function View(): seq<Byte> {
      var base := PartitionBase(part.disk.sectorBytes, part.startSector);
      if base <= |part.disk.image| then part.disk.image[base..] else []
    }

    /** `partition_read` in terms of the partition's bytes. */
    method Fetch(addr: nat, size: UShort, dst: array<Byte>, at: nat) returns (halted: bool)
      requires Ready() && at + size <= dst.Length && dst != part.disk.diskBuffer
      requires addr + B32 < B64
      modifies part.disk`calls, part.disk`diskBuffer, part.disk.diskBuffer, dst
      ensures part.disk.diskBuffer == old(part.disk.diskBuffer) || fresh(part.disk.diskBuffer)
      ensures part.disk.diskBuffer != dst
      ensures OnlyWithin(old(dst[..]), dst[..], at, size)
      ensures part.disk.calls >= old(part.disk.calls)
      ensures AllWork(part.disk.works, old(part.disk.calls), part.disk.calls)
              && (size > 0 ==> addr + size <= |View()|) ==>
                !halted && (size > 0 ==> dst[at..at + size] == View()[addr..addr + size])
    {
      hide DiskAddress, OnlyWithin, Slice, AllWork;
      SliceOfView(addr, size);
      var st := PartitionRead(part, addr, size, dst, at);
      halted := st.Halted?;
    }

    /** A slice of the disk behind the partition's start is a slice of the partition. */
    lemma SliceOfView(addr: nat, size: UShort)
      requires addr + B32 < B64
      ensures var a, image := DiskAddress(part, addr), part.disk.image;
              && (size > 0 ==> (a + size <= |image| <==> addr + size <= |View()|))
              && (size > 0 && a + size <= |image| ==> Slice(image, a, size) == View()[addr..addr + size])
    {
      hide PartitionBase;
      SliceBehind(part.disk.image, PartitionBase(part.disk.sectorBytes, part.startSector), addr, size);
      SumFits(PartitionBase(part.disk.sectorBytes, part.startSector), addr);
    }

    /** `ext2_read_phy_32`. */
    method ReadPhy32(addr: nat) returns (halted: bool, v: Word)
      requires Ready() && addr + B32 < B64
      modifies part.disk`calls, part.disk`diskBuffer, part.disk.diskBuffer
      ensures part.disk.diskBuffer == old(part.disk.diskBuffer) || fresh(part.disk.diskBuffer)
      ensures part.disk.calls >= old(part.disk.calls)
      ensures AllWork(part.disk.works, old(part.disk.calls), part.disk.calls) && addr + 4 <= |View()| ==>
                !halted && v == Le32(View(), addr)
    {
      var ret := new Byte[4](_ => 0);
      halted := Fetch(addr, 4, ret, 0);
      v := Le32(ret[..], 0);
      if AllWork(part.disk.works, old(part.disk.calls), part.disk.calls) && addr + 4 <= |View()| {
        assert ret[..] == ret[0..0 + 4] == View()[addr..addr + 4];
      }
    }

    /** `ext2_read_block_32`: an entry of a pointer block, at a 16-bit byte offset. */
    method ReadBlock32(block: Word, offset: UShort) returns (halted: bool, v: Word)
      requires Ready()
      modifies part.disk`calls, part.disk`diskBuffer, part.disk.diskBuffer
      ensures part.disk.diskBuffer == old(part.disk.diskBuffer) || fresh(part.disk.diskBuffer)
      ensures part.disk.calls >= old(part.disk.calls)
      ensures AllWork(part.disk.works, old(part.disk.calls), part.disk.calls)
              && BlockStart(sb, block) + offset + 4 <= |View()| ==>
                !halted && v == Le32(View(), BlockStart(sb, block) + offset)
    {
      halted, v := ReadPhy32(BlockStart(sb, block) + offset);
    }

    /** `get_inode_phy_addr64`. */
    method GetInodeAddr(inode: Word) returns (halted: bool, addr: nat)
      requires Ready()
      modifies part.disk`calls, part.disk`diskBuffer, part.disk.diskBuffer
      ensures part.disk.diskBuffer == old(part.disk.diskBuffer) || fresh(part.disk.diskBuffer)
      ensures part.disk.calls >= old(part.disk.calls) && addr < 0x2_0000_0000_0000
      ensures AllWork(part.disk.works, old(part.disk.calls), part.disk.calls) && TableReadable(View(), sb, inode) ==>
                !halted && addr == InodeAddr(View(), sb, inode)
    {
      TablePointerBound(sb, inode);
      var table;
      halted, table := ReadPhy32(TablePointerAddr(sb, GroupOf(sb, inode)));
      addr := BlockStart(sb, table) + InodeOffset(sb, inode);
    }

    /** The pointer reads of `read_inode_block`, for the path its branches choose: a pointer of the inode,
        then an entry of each pointer block, whose byte offset is passed in 16 bits. */
    method FollowPath(inode: Word, path: Path) returns (halted: bool, blk: Word)
      requires Ready() && path.slot < 0x80 && forall i :: 0 <= i < |path.entries| ==> path.entries[i] < 0x4000
      modifies part.disk`calls, part.disk`diskBuffer, part.disk.diskBuffer
      ensures part.disk.diskBuffer == old(part.disk.diskBuffer) || fresh(part.disk.diskBuffer)
      ensures part.disk.calls >= old(part.disk.calls)
      ensures AllWork(part.disk.works, old(part.disk.calls), part.disk.calls)
              && PathReadable(View(), sb, inode, path) ==>
                !halted && blk == Follow(View(), sb, inode, path)
    {
      hide Chain, Follow, Le32, BlockStart, InodeAddr, ChainReadable, AllWork, TableReadable, PathReadable;
      FollowIs(View(), sb, inode, path);
      ghost var p, started, works := View(), part.disk.calls, part.disk.works;
      var phy;
      blk := 0;
      halted, phy := GetInodeAddr(inode);
      if halted {
        return;
      }
      ghost var mid := part.disk.calls;
      halted, blk := ReadPhy32(phy + path.slot);
      AllWorkParts(works, started, mid, part.disk.calls);
      var i := 0;
      while i < |path.entries| && !halted
        invariant i <= |path.entries|
        invariant part.disk.diskBuffer == old(part.disk.diskBuffer) || fresh(part.disk.diskBuffer)
        invariant part.disk.calls >= started
        invariant AllWork(works, started, part.disk.calls) && PathReadable(p, sb, inode, path) ==>
          && !halted && Chain(p, sb, blk, path.entries[i..]) == Follow(p, sb, inode, path)
          && ChainReadable(p, sb, blk, path.entries[i..])
      {
        ChainStep(p, sb, blk, path.entries, i);
        mid := part.disk.calls;
        halted, blk := ReadBlock32(blk, path.entries[i] * 4);
        AllWorkParts(works, started, mid, part.disk.calls);
        i := i + 1;
      }
      ChainEnd(p, sb, blk, path.entries);
    }

    /** `read_inode_block`: bytes of one block of a file; a block past the triple-indirect range halts. */
    method ReadInodeBlock(inode: Word, block: Word, offset: Word, size: UShort, dst: array<Byte>, at: nat)
      returns (halted: bool)
      requires Ready() && at + size <= dst.Length && dst != part.disk.diskBuffer
      modifies part.disk`calls, part.disk`diskBuffer, part.disk.diskBuffer, dst
      ensures part.disk.diskBuffer == old(part.disk.diskBuffer) || fresh(part.disk.diskBuffer)
      ensures part.disk.diskBuffer != dst && part.disk.calls >= old(part.disk.calls)
      ensures OnlyWithin(old(dst[..]), dst[..], at, size)
      ensures block >= sb.Reach() + Cube(sb.K()) ==> halted
      ensures var path := CodePath(block, sb.K());
              var a := BlockStart(sb, Follow(View(), sb, inode, path)) + offset;
              && AllWork(part.disk.works, old(part.disk.calls), part.disk.calls)
              && block < sb.Reach() + Cube(sb.K())
              && PathReadable(View(), sb, inode, path) && (size > 0 ==> a + size <= |View()|)
              ==> !halted && (size > 0 ==> dst[at..at + size] == View()[a..a + size])
    {
      hide AllWork, Follow, PathReadable, CodePath, BlockStart;
      ghost var started := part.disk.calls;
      if block >= sb.Reach() + Cube(sb.K()) {
        return true;
      }
      PathFits(block, sb.K());
      var blk;
      halted, blk := FollowPath(inode, CodePath(block, sb.K()));
      if !halted {
        ghost var mid := part.disk.calls;
        halted := Fetch(BlockStart(sb, blk) + offset, size, dst, at);
        AllWorkParts(part.disk.works, started, mid, part.disk.calls);
      }
    }

    /** A block read in terms of the file's bytes, at byte o of the file. */
    method ReadPart(inode: Word, block: nat, off: nat, n: UShort, dst: array<Byte>, to: nat, ghost o: nat)
      returns (halted: bool)
      requires Ready() && to + n <= dst.Length && dst != part.disk.diskBuffer
      requires 0 < n && off + n <= sb.blockSize && block * sb.blockSize + off == o < B32 + 0x1_0000
      modifies part.disk`calls, part.disk`diskBuffer, part.disk.diskBuffer, dst
      ensures part.disk.diskBuffer == old(part.disk.diskBuffer) || fresh(part.disk.diskBuffer)
      ensures part.disk.diskBuffer != dst && part.disk.calls >= old(part.disk.calls)
      ensures OnlyWithin(old(dst[..]), dst[..], to, n)
      ensures AllWork(part.disk.works, old(part.disk.calls), part.disk.calls)
              && Readable(View(), sb, inode, o, n) && o < sb.Reach() * sb.blockSize
              ==> !halted && dst[to..to + n] == FileBytes(View(), sb, inode, o, n)
    {
      hide AllWork, PathReadable, Follow, BlockStart, CodePath, Ext2Path, FileBytes, OnlyWithin, Readable,
        Superblock.Reach;
      BlockInRange(block, off, sb.blockSize, o);
      halted := ReadInodeBlock(inode, block, off, n, dst, to);
      if Readable(View(), sb, inode, o, n) && o < sb.Reach() * sb.blockSize {
        BelowReach(block, off, sb, o);
        var a := BlockStart(sb, Follow(View(), sb, inode, Ext2Path(block, sb.K()))) + off;
        ReadableInBlock(View(), sb, inode, block, off, n, a, o);
        InBlock(View(), sb, inode, block, off, n, a, o);
      }
    }

    /** `read_inode`: any byte range of a file, block by block. */
    method ReadInode(inode: Word, offset: Word, size: UShort, dst: array<Byte>, at: nat) returns (halted: bool)
      requires Ready() && at + size <= dst.Length && dst != part.disk.diskBuffer
      modifies part.disk`calls, part.disk`diskBuffer, part.disk.diskBuffer, dst
      ensures part.disk.diskBuffer == old(part.disk.diskBuffer) || fresh(part.disk.diskBuffer)
      ensures part.disk.diskBuffer != dst && part.disk.calls >= old(part.disk.calls)
      ensures OnlyWithin(old(dst[..]), dst[..], at, size)
      ensures AllWork(part.disk.works, old(part.disk.calls), part.disk.calls)
              && Readable(View(), sb, inode, offset, size) && offset + size <= sb.Reach() * sb.blockSize
              ==> !halted && dst[at..at + size] == FileBytes(View(), sb, inode, offset, size)
    {
      hide FileBytes, OnlyWithin, Superblock.Reach, AllWork, Readable, PartitionBase;
      ghost var p, started := View(), part.disk.calls;
      var block: nat, off: nat := Quot(offset, sb.blockSize), offset % sb.blockSize;
      NothingWritten(dst[..], at, size);
      NoBytes(View(), sb, inode, offset);
      var left: nat := size;
      var done: nat := 0;  // how far dst has advanced
      ghost var good := Readable(p, sb, inode, offset, size) && offset + size <= sb.Reach() * sb.blockSize;
      halted := false;
      while left > 0
        invariant done + left == size && off < sb.blockSize
        invariant left > 0 ==> block * sb.blockSize + off == offset + done
        invariant part.disk.diskBuffer == old(part.disk.diskBuffer) || fresh(part.disk.diskBuffer)
        invariant part.disk.diskBuffer != dst && part.disk.calls >= old(part.disk.calls)
        invariant OnlyWithin(old(dst[..]), dst[..], at, size)
        invariant AllWork(part.disk.works, started, part.disk.calls) && good ==>
          !halted && dst[at..at + done] == FileBytes(p, sb, inode, offset, done)
        decreases left
      {
        var thissize := if left <= sb.blockSize - off then left else sb.blockSize - off;
        ghost var before, mid := dst[..], part.disk.calls;
        ReadableParts(p, sb, inode, offset, done, left);
        ReadableParts(p, sb, inode, offset + done, thissize, left - thissize);
        halted := ReadPart(inode, block, off, thissize, dst, at + done, offset + done);
        AllWorkParts(part.disk.works, started, mid, part.disk.calls);
        WithinRange(old(dst[..]), before, dst[..], at, size, at + done, thissize);
        if halted {
          return;
        }
        if AllWork(part.disk.works, started, part.disk.calls) && good {
          FileBytesJoin(p, sb, inode, offset, done, thissize);
          Piece(before, dst[..], at, done, thissize, FileBytes(p, sb, inode, offset, done + thissize));
        }
        NextBlock(block, sb.blockSize);
        off := 0;
        block := block + 1;
        done := done + thissize;
        left := left - thissize;
      }
    }

    /** `fread`: counts items, not bytes; the byte count passed on is cut to 16 bits. */
    method Fread(dst: array<Byte>, size: Word, memb: Word, file: File) returns (halted: bool, ret: Word)
      requires Ready() && dst != part.disk.diskBuffer
      requires BytesRead(size, FreadCount(file.pos, file.stSize, size, memb)) <= dst.Length
      modifies part.disk`calls, part.disk`diskBuffer, part.disk.diskBuffer, dst, file`pos
      ensures part.disk.diskBuffer == old(part.disk.diskBuffer) || fresh(part.disk.diskBuffer)
      ensures part.disk.diskBuffer != dst && part.disk.calls >= old(part.disk.calls)
      ensures !halted ==> ret == FreadCount(old(file.pos), file.stSize, size, memb)
      ensures !halted ==> file.pos == (old(file.pos) + size * ret) % B32
      ensures var n := BytesRead(size, FreadCount(old(file.pos), file.stSize, size, memb));
              && OnlyWithin(old(dst[..]), dst[..], 0, n)
              && (AllWork(part.disk.works, old(part.disk.calls), part.disk.calls)
                  && Readable(View(), sb, file.stIno, old(file.pos), n)
                  && old(file.pos) + n <= sb.Reach() * sb.blockSize
                  ==> !halted && dst[..n] == FileBytes(View(), sb, file.stIno, old(file.pos), n))
    {
      hide FileBytes, FreadCount, OnlyWithin, Readable, AllWork;
      Counted(file.pos, file.stSize, size, memb, size * memb);
      NothingWritten(dst[..], 0, 0);
      NoBytes(View(), sb, file.stIno, file.pos);
      ret := FreadCount(file.pos, file.stSize, size, memb);
      halted := false;
      if file.pos >= file.stSize {
        return;
      }
      halted := ReadInode(file.stIno, file.pos, BytesRead(size, ret), dst, 0);
      if !halted {
        file.pos := (file.pos + size * ret) % B32;
      }
    }

    /** One round of the copy loop: the next block of the file, or what is left, to memory at dst. */
    method CopyBlock(kernel: File, blockBuffer: array<Byte>, hi: array<Byte>, dst: nat)
      returns (halted: bool, bytesRead: Word)
      requires Ready() && hi != part.disk.diskBuffer && blockBuffer != part.disk.diskBuffer && hi != blockBuffer
      requires dst == kernel.pos <= kernel.stSize <= hi.Length && blockBuffer.Length == sb.blockSize
      requires kernel.stSize + sb.blockSize <= B32
      modifies part.disk`calls, part.disk`diskBuffer, part.disk.diskBuffer, blockBuffer, hi, kernel`pos
      ensures part.disk.diskBuffer == old(part.disk.diskBuffer) || fresh(part.disk.diskBuffer)
      ensures part.disk.diskBuffer != blockBuffer && part.disk.diskBuffer != hi
      ensures part.disk.calls >= old(part.disk.calls)
      ensures var n := BlockOrRest(dst, kernel.stSize, sb.blockSize);
              && (!halted ==> bytesRead == n && kernel.pos == dst + n)
              && OnlyWithin(old(hi[..]), hi[..], dst, n)
              && (AllWork(part.disk.works, old(part.disk.calls), part.disk.calls)
                  && Readable(View(), sb, kernel.stIno, dst, n) && dst + n <= sb.Reach() * sb.blockSize
                  ==> !halted && hi[dst..dst + n] == FileBytes(View(), sb, kernel.stIno, dst, n))
    {
      hide Readable, AllWork, FileBytes, OnlyWithin, FreadCount, BytesRead, BlockOrRest, Superblock.Reach,
        PartitionBase;
      NothingWritten(hi[..], dst, BlockOrRest(dst, kernel.stSize, sb.blockSize));
      OneByteItems(kernel.pos, kernel.stSize, sb.blockSize);
      halted, bytesRead := Fread(blockBuffer, 1, sb.blockSize, kernel);
      if !halted {
        CopyBytes(blockBuffer[..bytesRead], hi, dst);
      }
    }

    /** The copy loop of `ext2_shuffle_hi`: the whole file to memory at `hi`, a block at a time. For a file
        of up to 4 GiB less a block it ends, having copied exactly the file's bytes. */
    method ShuffleHi(kernel: File, hi: array<Byte>) returns (halted: bool)
      requires Ready() && hi != part.disk.diskBuffer
      requires kernel.pos == 0 && kernel.stSize + sb.blockSize <= B32 && kernel.stSize <= hi.Length
      modifies part.disk`calls, part.disk`diskBuffer, part.disk.diskBuffer, hi, kernel`pos
      ensures OnlyWithin(old(hi[..]), hi[..], 0, kernel.stSize)
      ensures AllWork(part.disk.works, old(part.disk.calls), part.disk.calls)
              && Readable(View(), sb, kernel.stIno, 0, kernel.stSize) && kernel.stSize <= sb.Reach() * sb.blockSize
              ==> !halted && hi[..kernel.stSize] == FileBytes(View(), sb, kernel.stIno, 0, kernel.stSize)
    {
      hide Readable, AllWork, FileBytes, OnlyWithin, Superblock.Reach;
      NothingWritten(hi[..], 0, kernel.stSize);
      ghost var p, started := View(), part.disk.calls;
      NoBytes(p, sb, kernel.stIno, 0);
      var blockBuffer := new Byte[sb.blockSize];
      var dst: nat := 0;
      ghost var good :=
        Readable(p, sb, kernel.stIno, 0, kernel.stSize) && kernel.stSize <= sb.Reach() * sb.blockSize;
      while true
        invariant part.disk.diskBuffer == old(part.disk.diskBuffer) || fresh(part.disk.diskBuffer)
        invariant part.disk.diskBuffer != blockBuffer && part.disk.diskBuffer != hi
        invariant part.disk.calls >= old(part.disk.calls)
        invariant dst == kernel.pos <= kernel.stSize
        invariant OnlyWithin(old(hi[..]), hi[..], 0, kernel.stSize)
        invariant AllWork(part.disk.works, started, part.disk.calls) && good ==>
          hi[..dst] == FileBytes(p, sb, kernel.stIno, 0, dst)
        decreases kernel.stSize - dst
      {
        ghost var before, n := hi[..], BlockOrRest(dst, kernel.stSize, sb.blockSize);
        ghost var mid := part.disk.calls;
        ReadableParts(p, sb, kernel.stIno, 0, dst, kernel.stSize - dst);
        ReadableParts(p, sb, kernel.stIno, dst, n, kernel.stSize - dst - n);
        var bytesRead;
        halted, bytesRead := CopyBlock(kernel, blockBuffer, hi, dst);
        AllWorkParts(part.disk.works, started, mid, part.disk.calls);
        WithinRange(old(hi[..]), before, hi[..], 0, kernel.stSize, dst, n);
        if halted {
          return;
        }
        if AllWork(part.disk.works, started, part.disk.calls) && good {
          FileBytesJoin(p, sb, kernel.stIno, 0, dst, n);
          Piece(before, hi[..], 0, dst, n, FileBytes(p, sb, kernel.stIno, 0, dst + n));
        }
        if bytesRead < sb.blockSize {
          break;
        }
        dst := dst + bytesRead;
      }
    }
  }

  lemma SumFits(base: Word, addr: nat)
    requires addr + B32 < B64
    ensures (base + addr) % B64 == base + addr
  {
  }

  lemma SliceBehind(image: seq<Byte>, base: nat, addr: nat, n: nat)
    ensures base + addr + n <= |image| ==>
              image[base..][addr..addr + n] == image[base + addr..base + addr + n]
  {
  }

  /** An open file: `FILE`. */
  class File {
    const stIno: Word
    const stSize: Word
    var pos: Word

    constructor (stIno: Word, stSize: Word)
      ensures this.stIno == stIno && this.stSize == stSize && pos == 0
    {
      this.stIno, this.stSize := stIno, stSize;
      pos := 0;
    }
  }

  /** How many items `fread` says it read, with its 32-bit arithmetic. */
  function FreadCount(pos: Word, stSize: Word, size: Word, memb: Word): (ret: Word)
    ensures ret == 0 || pos < stSize
    ensures size == 1 ==> ret <= memb
  {
    if pos >= stSize then 0
    else if (pos + size * memb) % B32 > stSize then
      // a zero item size cannot get here: pos itself is not past the end
      assert size != 0;
      ShareOf(stSize - pos, size)
    else memb
  }

  function ShareOf(n: Word, d: Word): (q: Word)
    requires d > 0
    ensures d == 1 ==> q == n
  {
    DivAtMost(n, d);
    n / d
  }

  /** The byte count `fread` passes to `read_inode`, whose parameter has 16 bits. */
  function BytesRead(size: Word, count: Word): UShort {
    size * count % 0x1_0000
  }

  /** The bytes of a block, or those left of the file. */
  function BlockOrRest(pos: nat, stSize: nat, bs: nat): (n: nat)
    requires pos <= stSize
    ensures n <= bs && pos + n <= stSize
  {
    if pos + bs > stSize then stSize - pos else bs
  }

  /** Reading a block of single bytes below 4 GiB less a block: all that is left, or the block. */
  lemma OneByteItems(pos: Word, stSize: Word, bs: Word)
    requires bs < 0x1_0000 && stSize + bs <= B32
    ensures FreadCount(pos, stSize, 1, bs) ==
            if pos >= stSize then 0 else if pos + bs > stSize then stSize - pos else bs
    ensures BytesRead(1, FreadCount(pos, stSize, 1, bs)) == FreadCount(pos, stSize, 1, bs)
    ensures pos <= stSize ==>
              && FreadCount(pos, stSize, 1, bs) == BlockOrRest(pos, stSize, bs)
              && (pos + 1 * FreadCount(pos, stSize, 1, bs)) % B32 == pos + BlockOrRest(pos, stSize, bs)
  {
  }

  /** The whole items left, as many of them as were asked for. */
  function ItemsLeft(pos: Word, stSize: Word, size: Word, memb: Word): (n: nat)
    ensures n <= memb
  {
    if pos >= stSize then 0
    else if size == 0 then memb
    else
      var n := ShareOf(stSize - pos, size);
      if n < memb then n else memb
  }

  /** The 32-bit sum of position and request does not wrap to a place inside the file. */
  predicate SumShowsEnd(pos: Word, stSize: Word, size: Word, memb: Word) {
    pos < stSize && pos + size * memb > stSize ==> (pos + size * memb) % B32 > stSize
  }

  /** `fread` reports exactly the whole items left, copies their bytes and moves by them. */
  predicate ReadsExactly(pos: Word, stSize: Word, size: Word, memb: Word) {
    var ret, n := FreadCount(pos, stSize, size, memb), ItemsLeft(pos, stSize, size, memb);
    ret == n && BytesRead(size, ret) == size * n && (pos + size * ret) % B32 == pos + size * n
  }

  /** It does so if and only if those bytes are fewer than 64 KiB and its 32-bit sum shows that the request
      passes the end. */
  lemma FreadIsExact(pos: Word, stSize: Word, size: Word, memb: Word)
    ensures ReadsExactly(pos, stSize, size, memb) <==>
            size * ItemsLeft(pos, stSize, size, memb) < 0x1_0000 && SumShowsEnd(pos, stSize, size, memb)
  {
    hide FreadCount, BytesRead, ItemsLeft, ShareOf, SumShowsEnd, ReadsExactly;
    var ret, n := FreadCount(pos, stSize, size, memb), ItemsLeft(pos, stSize, size, memb);
    var p, a, b := size * memb, size * ret, size * n;
    Counted(pos, stSize, size, memb, p);
    ItemsFit(pos, stSize, size, memb, p, b);
    Kept16(size, ret, a);
    var share := if pos < stSize && size > 0 then ShareOf(stSize - pos, size) else 0;
    ExactCases(pos, stSize, p, memb, ret, n, share, a, b, BytesRead(size, ret));
    ExactIs(pos, stSize, size, memb, ret, n, p, a, b);
  }

  lemma ExactIs(pos: Word, stSize: Word, size: Word, memb: Word, ret: Word, n: nat, p: nat, a: nat, b: nat)
    requires ret == FreadCount(pos, stSize, size, memb) && n == ItemsLeft(pos, stSize, size, memb)
    requires p == size * memb && a == size * ret && b == size * n
    ensures ReadsExactly(pos, stSize, size, memb) <==>
            ret == n && BytesRead(size, ret) == b && (pos + a) % B32 == pos + b
    ensures SumShowsEnd(pos, stSize, size, memb) <==>
            (pos < stSize && pos + p > stSize ==> (pos + p) % B32 > stSize)
  {
    hide FreadCount, BytesRead, ItemsLeft;
  }

  lemma ExactCases(pos: Word, stSize: Word, p: nat, memb: nat, ret: nat, n: nat, share: nat, a: nat, b: nat,
                   bytes: nat)
    requires pos >= stSize ==> ret == 0 && n == 0 && b == 0
    requires pos < stSize && (pos + p) % B32 <= stSize ==> ret == memb
    requires pos < stSize < (pos + p) % B32 ==> ret == share
    requires pos < stSize ==> pos + b <= stSize && (n == memb <==> pos + p <= stSize)
    requires pos < stSize < pos + p ==> n == share
    requires (bytes == a <==> a < 0x1_0000) && (ret == n ==> a == b)
    ensures ret == n && bytes == b && (pos + a) % B32 == pos + b <==>
            b < 0x1_0000 && (pos < stSize && pos + p > stSize ==> (pos + p) % B32 > stSize)
  {
  }

  lemma Counted(pos: Word, stSize: Word, size: Word, memb: Word, p: nat)
    requires p == size * memb
    ensures pos >= stSize ==> FreadCount(pos, stSize, size, memb) == 0
    ensures pos < stSize && (pos + p) % B32 <= stSize ==> FreadCount(pos, stSize, size, memb) == memb
    ensures pos < stSize < (pos + p) % B32 ==>
              size > 0 && FreadCount(pos, stSize, size, memb) == ShareOf(stSize - pos, size)
  {
  }

  /** The items left fit the file; they are all that were asked for exactly when the request fits. */
  lemma ItemsFit(pos: Word, stSize: Word, size: Word, memb: Word, p: nat, b: nat)
    requires p == size * memb && b == size * ItemsLeft(pos, stSize, size, memb)
    ensures var n := ItemsLeft(pos, stSize, size, memb);
            && (pos >= stSize ==> n == 0 == b)
            && (pos < stSize ==> pos + b <= stSize && (n == memb <==> pos + p <= stSize))
            && (pos < stSize < pos + p ==> size > 0 && n == ShareOf(stSize - pos, size))
  {
    if pos < stSize && size > 0 {
      var left := stSize - pos;
      ShareBounds(left, size);
      var q := ShareOf(left, size);
      if memb <= q {
        MulMonotone(size, memb, q);
      } else {
        MulMonotone(size, q + 1, memb);
      }
    }
  }

  /** Two reads that report items they did not copy: 64 KiB of single bytes, where the position moves and
      nothing is copied, and a request whose size is 2^32. */
  lemma FreadReportsWhatItDidNotCopy()
    ensures FreadCount(0, 0x2_0000, 1, 0x1_0000) == 0x1_0000 && BytesRead(1, 0x1_0000) == 0
    ensures FreadCount(0, 100, 0x1_0000, 0x1_0000) == 0x1_0000 && BytesRead(0x1_0000, 0x1_0000) == 0
    ensures ItemsLeft(0, 100, 0x1_0000, 0x1_0000) == 0
  {
  }

  lemma ShareBounds(n: Word, d: Word)
    requires d > 0
    ensures d * ShareOf(n, d) <= n < d * (ShareOf(n, d) + 1)
  {
    var q := n / d;
    assert n == q * d + n % d;
    assert d * (q + 1) == q * d + d;
  }

  lemma Kept16(size: Word, count: Word, n: nat)
    requires n == size * count
    ensures BytesRead(size, count) == n <==> n < 0x1_0000
    ensures (n - BytesRead(size, count)) % 0x1_0000 == 0
  {
  }

  // ---- When the copy loop ends -----------------------------------------------------------------

  /** The file position after n reads of a block of single bytes. */
  function PosAfter(n: nat, stSize: Word, bs: Word): Word {
    if n == 0 then 0
    else
      var pos := PosAfter(n - 1, stSize, bs);
      (pos + FreadCount(pos, stSize, 1, bs)) % B32
  }

  /** The copy loop ends: some read comes back short. */
  ghost predicate CopyEnds(stSize: Word, bs: Word) {
    exists n :: ReadIsShort(n, stSize, bs)
  }

  predicate ReadIsShort(n: nat, stSize: Word, bs: Word) {
    FreadCount(PosAfter(n, stSize, bs), stSize, 1, bs) < bs
  }

  /** The copy loop ends exactly for files of at most 4 GiB less one block. On a longer file the sum in
      `fread` wraps to zero at the last block, which is then read whole, and the position wraps to the
      start of the file. */
  lemma CopyEndsExactlyBelow4GiBLessABlock(stSize: Word, bs: Word)
    requires 0 < bs < 0x1_0000 && B32 % bs == 0
    ensures CopyEnds(stSize, bs) <==> stSize + bs <= B32
  {
    if stSize + bs <= B32 {
      var n: nat := Quot(stSize, bs);
      assert stSize == n * bs + stSize % bs;
      WholeBlocks(n, stSize, bs);
      OneByteItems(n * bs, stSize, bs);
      assert ReadIsShort(n, stSize, bs);
    } else {
      forall n: nat
        ensures !ReadIsShort(n, stSize, bs)
      {
        RoundAndRound(n, stSize, bs);
      }
    }
  }

  lemma PosStep(n: nat, stSize: Word, bs: Word)
    ensures n == 0 ==> PosAfter(n, stSize, bs) == 0
    ensures n > 0 ==>
              var pos := PosAfter(n - 1, stSize, bs);
              PosAfter(n, stSize, bs) == (pos + FreadCount(pos, stSize, 1, bs)) % B32
  {
  }

  lemma {:induction false} WholeBlocks(n: nat, stSize: Word, bs: Word)
    requires 0 < bs < 0x1_0000 && stSize + bs <= B32 && n * bs <= stSize
    ensures PosAfter(n, stSize, bs) == n * bs
  {
    hide PosAfter, FreadCount, BytesRead;
    PosStep(n, stSize, bs);
    if n > 0 {
      NextBlock(n - 1, bs);
      WholeBlocks(n - 1, stSize, bs);
      OneByteItems((n - 1) * bs, stSize, bs);
    }
  }

  lemma {:induction false} RoundAndRound(n: nat, stSize: Word, bs: Word)
    requires 0 < bs < 0x1_0000 && B32 % bs == 0 && stSize + bs > B32
    ensures PosAfter(n, stSize, bs) % bs == 0
    ensures !ReadIsShort(n, stSize, bs)
  {
    if n > 0 {
      RoundAndRound(n - 1, stSize, bs);
      AlwaysWhole(PosAfter(n - 1, stSize, bs), stSize, bs);
    } else {
      QuotientIs(0, bs, 0, 0);
    }
    AlwaysWhole(PosAfter(n, stSize, bs), stSize, bs);
  }

  lemma AlwaysWhole(pos: Word, stSize: Word, bs: Word)
    requires 0 < bs < 0x1_0000 && B32 % bs == 0 && pos % bs == 0 && stSize + bs > B32
    ensures FreadCount(pos, stSize, 1, bs) == bs
    ensures (pos + bs) % B32 % bs == 0
  {
    MultiplesStep(pos, bs);
    if pos + bs < B32 {
      MultiplesStep(pos + bs, bs);
    } else {
      QuotientIs(0, bs, 0, 0);
    }
  }

  /** From a multiple of bs below 2^32, one more bs stays within 2^32, on a multiple of bs. */
  lemma MultiplesStep(pos: Word, bs: Word)
    requires 0 < bs && B32 % bs == 0 && pos % bs == 0
    ensures pos + bs <= B32 && (pos + bs) % bs == 0
  {
    var m, q := pos / bs, B32 / bs;
    assert bs * m == pos && bs * q == B32;
    MulStrict(bs, m, q);
    MulMonotone(bs, m + 1, q);
    NextBlock(m, bs);
    QuotientIs(pos + bs, bs, m + 1, 0);
  }

  lemma NextBlock(block: nat, bs: nat)
    ensures (block + 1) * bs == block * bs + bs
  {
  }

  lemma BlockInRange(block: nat, off: nat, bs: nat, o: nat)
    requires 1024 <= bs && block * bs + off == o && o < B32 + 0x1_0000
    ensures block < B32
  {
    assert block * 1024 <= block * bs;
  }

  /** A byte below the reach of the double-indirect pointers lies in a block the code finds rightly. */
  lemma BelowReach(block: nat, off: nat, sb: Superblock, o: nat)
    requires sb.Valid() && block * sb.blockSize + off == o && o < sb.Reach() * sb.blockSize
    ensures block < sb.Reach() && sb.Reach() < sb.Reach() + Cube(sb.K())
    ensures CodePath(block, sb.K()) == Ext2Path(block, sb.K())
  {
    assert block * sb.blockSize < sb.Reach() * sb.blockSize;
    assert block < sb.Reach();
    RightPathBelowTriple(block, sb.K());
  }

  /** Bytes of one block, read at its address, are bytes of the file. */
  lemma InBlock(p: seq<Byte>, sb: Superblock, inode: Word, block: nat, off: nat, n: nat, a: nat, o: nat)
    requires sb.Valid() && off + n <= sb.blockSize && o == block * sb.blockSize + off
    requires a == BlockStart(sb, Follow(p, sb, inode, Ext2Path(block, sb.K()))) + off && a + n <= |p|
    ensures p[a..a + n] == FileBytes(p, sb, inode, o, n)
  {
    var x, y := p[a..a + n], FileBytes(p, sb, inode, o, n);
    forall i | 0 <= i < n
      ensures x[i] == y[i]
    {
      InBlockAt(p, sb, inode, block, off + i);
      assert o + i == block * sb.blockSize + (off + i);
    }
  }

  /** The blocks of readable bytes are reached and lie on the partition. */
  lemma ReadableInBlock(p: seq<Byte>, sb: Superblock, inode: Word, block: nat, off: nat, n: nat, a: nat, o: nat)
    requires sb.Valid() && 0 < n && off + n <= sb.blockSize && o == block * sb.blockSize + off
    requires a == BlockStart(sb, Follow(p, sb, inode, Ext2Path(block, sb.K()))) + off
    requires Readable(p, sb, inode, o, n)
    ensures PathReadable(p, sb, inode, Ext2Path(block, sb.K())) && a + n <= |p|
  {
    hide Follow, BlockStart, Ext2Path, PathReadable, FileAddr;
    var last := o + n - 1;
    assert ByteReadable(p, sb, inode, last);
    InBlockAt(p, sb, inode, block, off + n - 1);
    QuotientIs(last, sb.blockSize, block, off + n - 1);
  }

  lemma InBlockAt(p: seq<Byte>, sb: Superblock, inode: Word, block: nat, i: nat)
    requires sb.Valid() && i < sb.blockSize
    ensures FileAddr(p, sb, inode, block * sb.blockSize + i)
         == BlockStart(sb, Follow(p, sb, inode, Ext2Path(block, sb.K()))) + i
  {
    hide Follow, BlockStart, Ext2Path;
    QuotientIs(block * sb.blockSize + i, sb.blockSize, block, i);
  }

  lemma NoBytes(p: seq<Byte>, sb: Superblock, inode: Word, o: nat)
    requires sb.Valid()
    ensures FileBytes(p, sb, inode, o, 0) == []
  {
  }

  lemma FileBytesJoin(p: seq<Byte>, sb: Superblock, inode: Word, o: nat, m: nat, n: nat)
    requires sb.Valid()
    ensures FileBytes(p, sb, inode, o, m + n) == FileBytes(p, sb, inode, o, m) + FileBytes(p, sb, inode, o + m, n)
  {
    var x, y := FileBytes(p, sb, inode, o, m + n), FileBytes(p, sb, inode, o, m) + FileBytes(p, sb, inode, o + m, n);
    forall i | 0 <= i < m + n
      ensures x[i] == y[i]
    {
      if i >= m {
        assert o + m + (i - m) == o + i;
      }
    }
  }

  /** Appending a piece to what has been copied so far. */
  lemma Piece(before: seq<Byte>, now: seq<Byte>, at: nat, done: nat, n: nat, whole: seq<Byte>)
    requires |whole| == done + n && OnlyWithin(before, now, at + done, n) && at + done + n <= |now|
    requires before[at..at + done] == whole[..done] && now[at + done..at + done + n] == whole[done..]
    ensures now[at..at + (done + n)] == whole
  {
    assert now[at..at + done] == before[at..at + done];
    assert now[at..at + (done + n)] == now[at..at + done] + now[at + done..at + done + n];
    assert whole == whole[..done] + whole[done..];
  }

  /** The entries of a path stay inside a pointer block, so their 16-bit offsets are exact. */
  lemma PathFits(b: nat, k: nat)
    requires 0 < k < 0x4000 && b < 12 + k + Square(k) + Cube(k)
    ensures CodePath(b, k).slot < 0x80
    ensures forall i :: 0 <= i < |CodePath(b, k).entries| ==> CodePath(b, k).entries[i] < 0x4000
  {
    if b >= 12 + k + Square(k) {
      var t := b - 12 - k - Square(k);
      QuotientIs(t, Cube(k), 0, t);
      QuotientBelow(t, k, Square(k));
    } else if b >= 12 + k {
      QuotientBelow(b - 12 - k, k, k);
    }
  }
}
