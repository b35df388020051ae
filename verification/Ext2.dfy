/** fs/ext2.c: the read-only ext2 driver. Reads give slices of a file's contents, a directory scan
    gives back the records the directory was laid out from. */
module Ext2 {
  import opened Bits
  import opened Memory

  const SECTOR := 512
  const DIRECT := 12            // direct blocks of an inode
  const INODE_BYTES := 128      // sizeof(ext2_inode_t)
  const BLOCK_BUFFER := 4096    // sizeof(blk_a), sizeof(blk_b)
  const DIRENT_MAX := 8 + 255   // header and longest name
  const ROOT_INODE: u32 := 2

  type Sector = s: seq<u8> | |s| == SECTOR witness seq(SECTOR, _ => 0)

  /** A C string, without its terminator. */
  type CString = s: seq<u8> | 0 !in s

  type Blocks = b: seq<u32> | |b| == 15 witness seq(15, _ => 0)

  /** The fields of an inode the driver uses. */
  datatype Inode = Inode(size: u32, blocks: Blocks)

  function ParseInode(raw: seq<u8>): Inode
    requires |raw| == INODE_BYTES
  {
    Inode(U32(raw, 4), seq(15, i requires 0 <= i < 15 => U32(raw, 40 + 4 * i)))
  }

  function Min(a: nat, b: nat): nat {
    if a < b then a else b
  }

  // ----- what is on the disk -----

  /** A mounted volume: an immutable disk, and the state ext2_init leaves in the driver. */
  datatype Volume = Volume(disk: u32 -> Sector, partLba: u32, blockSize: nat, inodeSize: nat, inodeTable: u32) {

    ghost predicate Valid() {
      && (blockSize == 1024 || blockSize == 2048 || blockSize == 4096)
      && INODE_BYTES <= inodeSize <= blockSize
    }

    /** Sector i of a block. */
    function LbaOf(block: u32, i: nat): u32 {
      Wrap(Wrap(partLba + Wrap(block * (blockSize / SECTOR))) + i)
    }

    function BlockByte(block: u32, k: nat): u8 {
      disk(LbaOf(block, k / SECTOR))[k % SECTOR]
    }

    function Block(block: u32): (b: seq<u8>)
      ensures |b| == blockSize
    {
      seq(blockSize, k requires 0 <= k < blockSize => BlockByte(block, k))
    }

    /** Inodes in a block. */
    function PerBlock(): (n: nat)
      requires Valid()
      ensures n > 0 && n * inodeSize <= blockSize
    {
      blockSize / inodeSize
    }

    /** Where inode i's record starts: a block of the table, and an offset in it. */
    function InodeBlock(i: u32): u32
      requires Valid()
    {
      Wrap(inodeTable + Wrap(i - 1) / PerBlock())
    }

    function InodeOffset(i: u32): (o: nat)
      requires Valid()
      ensures o + INODE_BYTES <= blockSize
    {
      SlotFits(Wrap(i - 1));
      Wrap(i - 1) % PerBlock() * inodeSize
    }

    lemma SlotFits(idx: nat)
      requires Valid()
      ensures idx % PerBlock() * inodeSize + inodeSize <= blockSize
    {
      assert (idx % PerBlock() + 1) * inodeSize <= PerBlock() * inodeSize;
    }

    function InodeAt(i: u32): Inode
      requires Valid()
    {
      ParseInode(Block(InodeBlock(i))[InodeOffset(i)..InodeOffset(i) + INODE_BYTES])
    }

    /** What the scan of a directory's block sees: the block, then whatever the buffer held. */
    ghost function DirView(ino: u32, stale: seq<u8>): seq<u8>
      requires Valid()
    {
      Block(InodeAt(ino).blocks[0]) + stale
    }

    ghost function DirEnd(ino: u32): nat
      requires Valid()
    {
      Min(InodeAt(ino).size, blockSize)
    }

    /** Byte k of the inode table, as one run of blocks. */
    function TableByte(k: nat): u8
      requires Valid()
    {
      BlockByte(Wrap(inodeTable + k / blockSize), k % blockSize)
    }

    /** Byte k of the direct blocks of a file: holes read as zero. */
    function RawByte(inode: Inode, k: nat): u8
      requires blockSize > 0
    {
      if k / blockSize >= DIRECT || inode.blocks[k / blockSize] == 0 then 0
      else BlockByte(inode.blocks[k / blockSize], k % blockSize)
    }

    /** Where direct block blk of a file starts in it. */
    function StartOf(blk: nat): nat {
      blk * blockSize
    }

    /** n bytes of the direct blocks. */
    function RawBytes(inode: Inode, from: nat, n: nat): (s: seq<u8>)
      requires blockSize > 0
      ensures |s| == n && forall k :: 0 <= k < n ==> s[k] == RawByte(inode, from + k)
    {
      seq<u8>(n, k requires 0 <= k < n => RawByte(inode, from + k))
    }

    /** What a file contains, as far as direct blocks reach. */
    function Contents(inode: Inode): (s: seq<u8>)
      requires Valid()
      ensures |s| == Min(inode.size, DIRECT * blockSize)
    {
      RawBytes(inode, 0, Min(inode.size, DIRECT * blockSize))
    }

    /** How far direct blocks reach beyond an offset. */
    function Reach(offset: nat): nat {
      if offset < DIRECT * blockSize then DIRECT * blockSize - offset else 0
    }

    /** How many bytes ext2_pread delivers. */
    function PreadLen(inode: Inode, offset: u32, size: u32): (n: nat)
      requires Valid()
      ensures n <= size && (n > 0 ==> offset + n <= DIRECT * blockSize)
    {
      if offset >= inode.size then 0
      else
        var wanted := if Wrap(offset + size) > inode.size then inode.size - offset else size;
        Clip(inode.size, offset, size);
        Min(wanted, Reach(offset))
    }

    /** The bytes ext2_pread delivers. */
    function Pread(inode: Inode, offset: u32, size: u32): (s: seq<u8>)
      requires Valid()
      ensures |s| == PreadLen(inode, offset, size)
    {
      RawBytes(inode, offset, PreadLen(inode, offset, size))
    }
  }

  lemma Clip(fileSize: u32, offset: u32, size: u32)
    ensures offset < fileSize && Wrap(offset + size) > fileSize ==> fileSize - offset <= size
  {
  }

  // ----- reading positions -----

  /** The record of inode i is at byte (i - 1) * inodeSize of the table, for every i, exactly when
      the inode size divides the block size. */
  lemma InodePosition(v: Volume)
    requires v.Valid()
    ensures (forall idx: nat :: InPlace(v, idx)) <==> v.blockSize % v.inodeSize == 0
  {
    var bs, sz, n := v.blockSize, v.inodeSize, v.PerBlock();
    assert bs == n * sz + bs % sz;
    if bs % sz == 0 {
      hide Volume.PerBlock;
      forall idx: nat
        ensures InPlace(v, idx)
      {
        Tiles(idx, n, sz);
      }
    } else {
      Quotient(n * sz, bs, 0, n * sz);
      Quotient(n, n, 1, 0);
      assert !InPlace(v, n);
    }
  }

  /** With inodes of 192 bytes, five to a block of 1024: inode 6 is fetched from byte 1024 of the table, not 960. */
  lemma MisplacedInode(v: Volume)
    requires v.Valid() && v.blockSize == 1024 && v.inodeSize == 192
    ensures !InPlace(v, 5) && 5 / v.PerBlock() == 1 && 5 % v.PerBlock() == 0
  {
  }

  /** Where item idx of size sz starts, when n of them fill a block. */
  lemma Tiles(idx: nat, n: nat, sz: nat)
    requires n > 0 && sz > 0
    ensures n * sz > 0 && idx / n == idx * sz / (n * sz) && idx % n * sz == idx * sz % (n * sz)
  {
    var q, r := idx / n, idx % n;
    AtLeast(n, sz);
    assert idx * sz == q * (n * sz) + r * sz by {
      assert idx == q * n + r;
      assert (q * n + r) * sz == q * n * sz + r * sz;
      assert q * n * sz == q * (n * sz);
    }
    assert r * sz < n * sz by {
      AtLeast(n - r, sz);
      assert (n - r) * sz == n * sz - r * sz;
    }
    Quotient(idx * sz, n * sz, q, r * sz);
  }

  /** The block and offset computed for table index idx are those of byte idx * inodeSize. */
  ghost predicate InPlace(v: Volume, idx: nat)
    requires v.Valid()
  {
    idx / v.PerBlock() == idx * v.inodeSize / v.blockSize
        && idx % v.PerBlock() * v.inodeSize == idx * v.inodeSize % v.blockSize
  }

  /** ext2_read_inode fetches the record at byte (i - 1) * inodeSize of the inode table. */
  lemma InodeFetched(v: Volume, i: u32, k: nat)
    requires v.Valid() && v.blockSize % v.inodeSize == 0 && k < INODE_BYTES && i > 0
    ensures v.Block(v.InodeBlock(i))[v.InodeOffset(i)..v.InodeOffset(i) + INODE_BYTES][k]
            == v.TableByte((i - 1) * v.inodeSize + k)
  {
    InodePosition(v);
    assert InPlace(v, i - 1);
    assert Wrap(i - 1) == i - 1;
    var start := (i - 1) * v.inodeSize;
    var q, r := start / v.blockSize, start % v.blockSize;
    assert r == v.InodeOffset(i) && v.InodeBlock(i) == Wrap(v.inodeTable + q);
    hide Volume.PerBlock, InPlace, Volume.InodeBlock, Volume.InodeOffset, Volume.BlockByte;
    ByteAfter(start, v.blockSize, k);
  }

  lemma ByteAfter(x: nat, d: nat, k: nat)
    requires d > 0 && x % d + k < d
    ensures (x + k) / d == x / d && (x + k) % d == x % d + k
  {
    Quotient(x + k, d, x / d, x % d + k);
  }

  /** A byte of the disk. */
  function DiskByte(v: Volume, n: nat): u8
    requires n / SECTOR < WORD
  {
    v.disk(n / SECTOR)[n % SECTOR]
  }

  /** Block b of the file system is the bytes of the disk from there on, while sector numbers fit. */
  lemma BlockOnDisk(v: Volume, b: u32, k: nat)
    requires v.Valid() && k < v.blockSize && v.partLba + (b + 1) * (v.blockSize / SECTOR) <= WORD
    ensures var at := v.partLba * SECTOR + b * v.blockSize + k;
      at / SECTOR < WORD && v.Block(b)[k] == DiskByte(v, at)
  {
    var first := b * (v.blockSize / SECTOR);
    BlockBytes(v.blockSize, b);
    FirstSector(v, b, k / SECTOR, first);
    SectorAt(v.partLba, first, k);
    hide Volume.LbaOf, Volume.Valid;
  }

  lemma FirstSector(v: Volume, b: u32, i: nat, first: nat)
    requires first == b * (v.blockSize / SECTOR) && v.partLba + first + i < WORD
    ensures v.LbaOf(b, i) == v.partLba + first + i
  {
    assert Wrap(first) == first && Wrap(v.partLba + first) == v.partLba + first;
    assert Wrap(v.partLba + first + i) == v.partLba + first + i;
    hide Wrap;
  }

  lemma SectorAt(p: nat, s: nat, k: nat)
    ensures (p * SECTOR + s * SECTOR + k) / SECTOR == p + s + k / SECTOR
    ensures (p * SECTOR + s * SECTOR + k) % SECTOR == k % SECTOR
  {
  }

  lemma BlockBytes(bs: nat, b: nat)
    requires bs == 1024 || bs == 2048 || bs == 4096
    ensures b * bs == b * (bs / SECTOR) * SECTOR && (b + 1) * (bs / SECTOR) == b * (bs / SECTOR) + bs / SECTOR
  {
  }

  /** The bytes of an inode on disk, from its fields (ext2.h). */
  datatype InodeFields = InodeFields(mode: u16, uid: u16, size: u32, atime: u32, ctime: u32, mtime: u32, dtime: u32,
      gid: u16, links: u16, sectors: u32, flags: u32, osd1: u32, blocks: Blocks,
      generation: u32, fileAcl: u32, dirAcl: u32, faddr: u32, osd2: seq<u8>) {
    predicate Valid() {
      |osd2| == 12
    }

    function Bytes(): (b: seq<u8>)
      requires Valid()
      ensures |b| == INODE_BYTES
    {
      Word2(mode) + Word2(uid) + Words([size, atime, ctime, mtime, dtime]) + Word2(gid) + Word2(links)
      + Words([sectors, flags, osd1]) + Words(blocks) + Words([generation, fileAcl, dirAcl, faddr]) + osd2
    }
  }

  /** Parsing an inode gives back its size and its fifteen block pointers. */
  lemma InodeRoundTrip(f: InodeFields)
    requires f.Valid()
    ensures ParseInode(f.Bytes()) == Inode(f.size, f.blocks)
  {
    var b := f.Bytes();
    InodePlaces(f);
    hide InodeFields.Bytes, Words, U32;
    WordsAt(b, 4, [f.size, f.atime, f.ctime, f.mtime, f.dtime], 0);
    forall i | 0 <= i < 15
      ensures U32(b, 40 + 4 * i) == f.blocks[i]
    {
      WordsAt(b, 40, f.blocks, i);
    }
  }

  lemma InodePlaces(f: InodeFields)
    requires f.Valid()
    ensures f.Bytes()[4..24] == Words([f.size, f.atime, f.ctime, f.mtime, f.dtime])
    ensures f.Bytes()[40..100] == Words(f.blocks)
  {
    var head, times := Word2(f.mode) + Word2(f.uid), Words([f.size, f.atime, f.ctime, f.mtime, f.dtime]);
    var mid, ptrs := Word2(f.gid) + Word2(f.links) + Words([f.sectors, f.flags, f.osd1]), Words(f.blocks);
    var tail := Words([f.generation, f.fileAcl, f.dirAcl, f.faddr]) + f.osd2;
    assert |head| == 4 && |times| == 20 && |mid| == 16 && |ptrs| == 60 && |tail| == 28;
    assert f.Bytes() == head + times + mid + ptrs + tail;
    hide Words, Word2, InodeFields.Bytes;
    InodePieces(f.Bytes(), head, times, mid, ptrs, tail);
  }

  lemma InodePieces(b: seq<u8>, head: seq<u8>, times: seq<u8>, mid: seq<u8>, ptrs: seq<u8>, tail: seq<u8>)
    requires |head| == 4 && |times| == 20 && |mid| == 16 && |ptrs| == 60 && |tail| == 28
    requires b == head + times + mid + ptrs + tail
    ensures b[4..24] == times && b[40..100] == ptrs
  {
  }

  /** On a volume whose inode table holds the bytes of an inode in its place, the driver reads that inode. */
  lemma InodeStored(v: Volume, i: u32, f: InodeFields)
    requires v.Valid() && v.blockSize % v.inodeSize == 0 && i > 0 && f.Valid()
    requires forall k :: 0 <= k < INODE_BYTES ==> v.TableByte((i - 1) * v.inodeSize + k) == f.Bytes()[k]
    ensures v.InodeAt(i) == Inode(f.size, f.blocks)
  {
    var raw := v.Block(v.InodeBlock(i))[v.InodeOffset(i)..v.InodeOffset(i) + INODE_BYTES];
    hide InodeFields.Bytes, Volume.TableByte, ParseInode, Volume.Block;
    forall k | 0 <= k < INODE_BYTES
      ensures raw[k] == f.Bytes()[k]
    {
      InodeFetched(v, i, k);
    }
    assert raw == f.Bytes();
    InodeRoundTrip(f);
  }

  /** A file's contents, block by block: zeros for a hole, the block's bytes otherwise, up to its size. */
  lemma ContentsAt(v: Volume, inode: Inode, blk: nat, k: nat)
    requires v.Valid() && blk < DIRECT && k < v.blockSize && blk * v.blockSize + k < inode.size
    ensures blk * v.blockSize + k < |v.Contents(inode)|
    ensures v.Contents(inode)[blk * v.blockSize + k]
            == if inode.blocks[blk] == 0 then 0 else v.Block(inode.blocks[blk])[k]
    ensures |v.Contents(inode)| == if inode.size < 12 * v.blockSize then inode.size else 12 * v.blockSize
  {
    var at := v.StartOf(blk) + k;
    RawIn(v, inode, blk);
    Starts(v);
    assert v.StartOf(blk + 1) == v.StartOf(blk) + v.blockSize <= DIRECT * v.blockSize;
    hide Volume.RawByte;
    assert v.Contents(inode)[at] == v.RawByte(inode, 0 + at);
    assert at - v.StartOf(blk) == k;
  }

  /** Offset past which a positioned read that the 32-bit sum offset + size overflows is not cut
      at the end of the file. */
  ghost predicate Overruns(v: Volume, inode: Inode, offset: u32, size: u32) {
    offset < inode.size < DIRECT * v.blockSize && offset + size >= WORD
  }

  /** s[from..] cut to n bytes. */
  function Slice(s: seq<u8>, from: nat, n: nat): seq<u8> {
    if from >= |s| then [] else s[from..Min(|s|, from + n)]
  }

  /** A positioned read gives the slice of the contents that was asked for, unless it overruns. */
  lemma PreadIsSlice(v: Volume, inode: Inode, offset: u32, size: u32)
    requires v.Valid()
    ensures v.Pread(inode, offset, size) == Slice(v.Contents(inode), offset, size) <==>
        !Overruns(v, inode, offset, size)
    ensures Overruns(v, inode, offset, size) ==>
        offset < inode.size && v.PreadLen(inode, offset, size) > inode.size - offset
    ensures v.PreadLen(inode, offset, size) > 0 ==> offset + v.PreadLen(inode, offset, size) <= DIRECT * v.blockSize
  {
    PreadCount(v, inode, offset, size);
    if !Overruns(v, inode, offset, size) {
      assert v.Pread(inode, offset, size) == Slice(v.Contents(inode), offset, size);
    }
  }

  /** A volume whose inode table is block 5: inode 1 is a file of two bytes, inode 2 a directory of one
      block, number 7, in which a single record names inode 11 with the three bytes 'a', 0, 'b'. */
  function SampleVolume(): (v: Volume)
    ensures v.Valid()
  {
    Volume(SampleDisk, 0, 1024, 128, 5)
  }

  function SampleDisk(lba: u32): Sector {
    seq<u8>(SECTOR, k requires 0 <= k < SECTOR => SampleByte(lba, k))
  }

  function SampleByte(lba: u32, k: nat): u8 {
    if lba == 10 then  // the table: sizes, and the directory's block
      if k == 4 then 2 else if k == 133 then 4 else if k == 168 then 7 else 0
    else if lba == 14 then  // the directory
      if k == 0 then 11 else if k == 5 then 4 else if k == 6 then 3 else if k == 7 then 1
      else if k == 8 then 'a' as int else if k == 10 then 'b' as int else 0
    else 0
  }

  /** The two inodes, as the driver parses them. */
  lemma SampleInode(i: u32)
    requires i == 1 || i == 2
    ensures SampleVolume().InodeAt(i).size == if i == 1 then 2 else 1024
    ensures SampleVolume().InodeAt(i).blocks[0] == if i == 1 then 0 else 7
  {
    var v, at := SampleVolume(), if i == 1 then 0 else 128;
    SamplePosition(i);
    var raw := v.Block(5)[at..at + INODE_BYTES];
    forall k | 0 <= k < INODE_BYTES
      ensures raw[k] == SampleByte(10, at + k)
    {
      assert raw[k] == v.BlockByte(5, at + k) && v.LbaOf(5, 0) == 10;
    }
    hide Volume.Block, Volume.InodeBlock, Volume.InodeOffset, ParseInode, SampleByte, SampleVolume;
    SampleParsed(at, raw);
  }

  lemma SamplePosition(i: u32)
    requires i == 1 || i == 2
    ensures SampleVolume().InodeBlock(i) == 5
    ensures SampleVolume().InodeOffset(i) == if i == 1 then 0 else 128
  {
    assert SampleVolume().PerBlock() == 8;
  }

  lemma SampleParsed(at: nat, raw: seq<u8>)
    requires (at == 0 || at == 128) && |raw| == INODE_BYTES
    requires forall k :: 0 <= k < INODE_BYTES ==> raw[k] == SampleByte(10, at + k)
    ensures ParseInode(raw).size == if at == 0 then 2 else 1024
    ensures ParseInode(raw).blocks[0] == if at == 0 then 0 else 7
  {
    assert raw[4] == (if at == 0 then 2 else 0) && raw[5] == (if at == 0 then 0 else 4);
    assert raw[6] == 0 && raw[7] == 0;
    assert raw[40] == (if at == 0 then 0 else 7) && raw[41] == 0 && raw[42] == 0 && raw[43] == 0;
    hide SampleByte;
  }

  /** The file of two bytes, read at offset 1 with a count that takes the sum past 2^32: 12287 bytes
      are delivered instead of one. */
  lemma OverrunExample()
    ensures var v := SampleVolume();
      var inode := v.InodeAt(1);
      && inode.size == 2 && |Slice(v.Contents(inode), 1, 0xFFFF_FFFF)| == 1
      && v.PreadLen(inode, 1, 0xFFFF_FFFF) == 12287
  {
    var v := SampleVolume();
    SampleInode(1);
    hide Volume.InodeAt;
  }

  lemma PreadCount(v: Volume, inode: Inode, offset: u32, size: u32)
    requires v.Valid()
    ensures Overruns(v, inode, offset, size) ==> v.PreadLen(inode, offset, size) > inode.size - offset
    ensures !Overruns(v, inode, offset, size) ==>
        v.PreadLen(inode, offset, size) == |Slice(v.Contents(inode), offset, size)|
  {
    if offset + size >= WORD {
      assert Wrap(offset + size) == offset + size - WORD;
    } else {
      assert Wrap(offset + size) == offset + size;
    }
  }

  // ----- successive reads through one descriptor -----

  /** The descriptor's offset, and everything read so far. */
  datatype Cursor = Cursor(offset: u32, data: seq<u8>)

  /** One read for each count in turn, the offset advancing by what each one delivers. */
  ghost function ReadAll(v: Volume, inode: Inode, counts: seq<u32>): Cursor
    requires v.Valid()
  {
    if counts == [] then Cursor(0, [])
    else
      var c, n := ReadAll(v, inode, counts[..|counts| - 1]), counts[|counts| - 1];
      var got := v.Pread(inode, c.offset, n);
      Cursor(Wrap(c.offset + |got|), c.data + got)
  }

  function Sum(counts: seq<u32>): nat {
    if counts == [] then 0 else Sum(counts[..|counts| - 1]) + counts[|counts| - 1]
  }

  /** Read k asks for bytes past 2^32 while the file still has some. */
  ghost predicate Wraps(v: Volume, inode: Inode, counts: seq<u32>, k: nat)
    requires k < |counts|
  {
    Sum(counts[..k]) < inode.size < DIRECT * v.blockSize && Sum(counts[..k]) + counts[k] >= WORD
  }

  ghost predicate NoWrap(v: Volume, inode: Inode, counts: seq<u32>) {
    forall k :: 0 <= k < |counts| ==> !Wraps(v, inode, counts, k)
  }

  /** Successive reads deliver the first bytes of the file, as many as were asked for and it has,
      exactly when no read asks for bytes past 2^32 while the file still has some. */
  lemma {:induction false} ReadsCompose(v: Volume, inode: Inode, counts: seq<u32>)
    requires v.Valid()
    ensures var c := ReadAll(v, inode, counts);
      && c.offset == |c.data| <= DIRECT * v.blockSize
      && (NoWrap(v, inode, counts) <==> c.data == Slice(v.Contents(inode), 0, Sum(counts)))
      && (!NoWrap(v, inode, counts) ==> |c.data| > inode.size)
  {
    hide *;
    if counts == [] {
      NothingRead(v, inode, counts);
    } else {
      var k := |counts| - 1;
      assert counts[..k] + [counts[k]] == counts;
      ReadsCompose(v, inode, counts[..k]);
      NoWrapPrefix(v, inode, counts);
      OneMore(v, inode, counts);
      NextRead(v, inode, ReadAll(v, inode, counts[..k]), counts[..k], counts[k]);
    }
  }

  lemma NothingRead(v: Volume, inode: Inode, counts: seq<u32>)
    requires v.Valid() && counts == []
    ensures ReadAll(v, inode, counts) == Cursor(0, []) && NoWrap(v, inode, counts)
    ensures Slice(v.Contents(inode), 0, Sum(counts)) == [] && 0 <= DIRECT * v.blockSize
  {
  }

  lemma OneMore(v: Volume, inode: Inode, counts: seq<u32>)
    requires v.Valid() && counts != []
    ensures var k := |counts| - 1;
      var c := ReadAll(v, inode, counts[..k]);
      var got := v.Pread(inode, c.offset, counts[k]);
      && Sum(counts) == Sum(counts[..k]) + counts[k]
      && ReadAll(v, inode, counts).data == c.data + got
      && (c.offset + |got| < WORD ==> ReadAll(v, inode, counts).offset == c.offset + |got|)
      && DIRECT * v.blockSize < WORD && |Slice(v.Contents(inode), 0, Sum(counts))| <= inode.size
  {
  }

  lemma NoWrapPrefix(v: Volume, inode: Inode, counts: seq<u32>)
    requires counts != []
    ensures NoWrap(v, inode, counts) <==>
        NoWrap(v, inode, counts[..|counts| - 1]) && !Wraps(v, inode, counts, |counts| - 1)
  {
    var front := counts[..|counts| - 1];
    forall k | 0 <= k < |front|
      ensures Wraps(v, inode, front, k) == Wraps(v, inode, counts, k)
    {
      assert front[..k] == counts[..k];
    }
    if NoWrap(v, inode, front) && !Wraps(v, inode, counts, |counts| - 1) {
      forall k | 0 <= k < |counts|
        ensures !Wraps(v, inode, counts, k)
      {
        assert k < |front| ==> !Wraps(v, inode, front, k);
      }
    }
    if NoWrap(v, inode, counts) {
      forall k | 0 <= k < |front|
        ensures !Wraps(v, inode, front, k)
      {
        assert !Wraps(v, inode, counts, k);
      }
    }
  }

  /** The file of two bytes, read for one byte and then for 2^32 - 1 more. */
  lemma ReadsOverrunExample()
    ensures var v, counts := SampleVolume(), [1, 0xFFFF_FFFF];
      var inode := v.InodeAt(1);
      ReadAll(v, inode, counts).data != Slice(v.Contents(inode), 0, Sum(counts)) && |ReadAll(v, inode, counts).data| > 2
  {
    var v, counts: seq<u32> := SampleVolume(), [1, 0xFFFF_FFFF];
    SampleInode(1);
    hide Volume.InodeAt;
    assert counts[..1][..0] == [] && counts[..1] == [1];
    assert Sum(counts[..1]) == 1;
    assert Wraps(v, v.InodeAt(1), counts, 1);
    hide ReadAll, Sum, Wraps;
    ReadsCompose(v, v.InodeAt(1), counts);
  }

  /** One more read. */
  lemma NextRead(v: Volume, inode: Inode, c: Cursor, before: seq<u32>, n: u32)
    requires v.Valid() && c.offset == |c.data| <= DIRECT * v.blockSize
    requires if NoWrap(v, inode, before) then c.data == Slice(v.Contents(inode), 0, Sum(before))
        else |c.data| > inode.size
    ensures var data, counts := c.data + v.Pread(inode, c.offset, n), before + [n];
      && |data| <= DIRECT * v.blockSize
      && if NoWrap(v, inode, before) && !Wraps(v, inode, counts, |before|)
         then data == Slice(v.Contents(inode), 0, Sum(before) + n)
         else |data| > inode.size
  {
    hide *;
    PreadIsSlice(v, inode, c.offset, n);
    if NoWrap(v, inode, before) {
      WrapsIffOverruns(v, inode, before, n, c.offset);
      SliceJoin(v.Contents(inode), Sum(before), n);
    }
  }

  lemma WrapsIffOverruns(v: Volume, inode: Inode, before: seq<u32>, n: u32, offset: u32)
    requires v.Valid() && offset == |Slice(v.Contents(inode), 0, Sum(before))|
    ensures Wraps(v, inode, before + [n], |before|) <==> Overruns(v, inode, offset, n)
    ensures Overruns(v, inode, offset, n) ==> offset < inode.size
  {
    assert (before + [n])[..|before|] == before;
    hide Sum, Volume.RawBytes;
  }

  lemma SliceJoin(s: seq<u8>, a: nat, n: nat)
    ensures Slice(s, 0, a) + Slice(s, |Slice(s, 0, a)|, n) == Slice(s, 0, a + n)
  {
  }

  // ----- directories -----

  datatype Dirent = Dirent(inode: u32, name: seq<u8>)

  /** The live entries met by following rec_len from `off` until `end`. `b` is the block, and what
      follows it in memory. */
  function Scan(b: seq<u8>, off: nat, end: nat): seq<Dirent>
    requires end + DIRENT_MAX <= |b|
    decreases end - off
  {
    if off >= end || U16(b, off + 4) == 0 then []
    else
      (if U32(b, off) == 0 then [] else [Dirent(U32(b, off), b[off + 8..off + 8 + b[off + 6]])])
      + Scan(b, off + U16(b, off + 4), end)
  }

  lemma ScanStep(b: seq<u8>, off: nat, end: nat)
    requires end + DIRENT_MAX <= |b| && off < end && U16(b, off + 4) != 0
    ensures U32(b, off) == 0 ==> Scan(b, off, end) == Scan(b, off + U16(b, off + 4), end)
    ensures U32(b, off) != 0 ==>
              Scan(b, off, end)
              == [Dirent(U32(b, off), b[off + 8..off + 8 + b[off + 6]])] + Scan(b, off + U16(b, off + 4), end)
  {
  }

  lemma ListEnds(lines: seq<CString>, b: seq<u8>, off: nat, end: nat)
    requires end + DIRENT_MAX <= |b| && (off >= end || U16(b, off + 4) == 0)
    ensures lines + Listing(Scan(b, off, end)) == lines
  {
  }

  /** The listing so far, after the live record at off. */
  lemma ListStep(lines: seq<CString>, b: seq<u8>, off: nat, end: nat)
    requires end + DIRENT_MAX <= |b| && off < end && U16(b, off + 4) != 0 && U32(b, off) != 0
    ensures lines + Listing(Scan(b, off, end))
            == lines + [Printed(b[off + 8..off + 8 + b[off + 6]])] + Listing(Scan(b, off + U16(b, off + 4), end))
  {
    var d, rest := Dirent(U32(b, off), b[off + 8..off + 8 + b[off + 6]]), Scan(b, off + U16(b, off + 4), end);
    ScanStep(b, off, end);
    hide Scan, U16, U32;
    ListHead(lines, d, rest);
  }

  lemma ListHead(lines: seq<CString>, d: Dirent, rest: seq<Dirent>)
    ensures lines + Listing([d] + rest) == lines + [Printed(d.name)] + Listing(rest)
  {
    assert ([d] + rest)[1..] == rest;
  }

  lemma ScanEnds(b: seq<u8>, off: nat, end: nat)
    requires end + DIRENT_MAX <= |b| && (off >= end || U16(b, off + 4) == 0)
    ensures Scan(b, off, end) == []
  {
  }

  /** The inode of the first entry with this name, or 0. */
  function Lookup(es: seq<Dirent>, name: seq<u8>): u32 {
    if es == [] then 0 else if es[0].name == name then es[0].inode else Lookup(es[1..], name)
  }

  /** What `print` shows of a buffer: the bytes before the first zero. */
  function Printed(s: seq<u8>): (r: CString) {
    if s == [] || s[0] == 0 then [] else [s[0]] + Printed(s[1..])
  }

  /** The names ext2_ls prints. */
  function Listing(es: seq<Dirent>): (r: seq<CString>)
    ensures |r| == |es| && forall i :: 0 <= i < |es| ==> r[i] == Printed(es[i].name)
  {
    if es == [] then [] else [Printed(es[0].name)] + Listing(es[1..])
  }

  /** A directory record as it is laid out on disk. */
  datatype Record = Record(inode: u32, ftype: u8, name: seq<u8>, pad: seq<u8>) {
    function Len(): nat {
      8 + |name| + |pad|
    }

    predicate Valid() {
      |name| < 256 && Len() < 0x1_0000
    }

    function Bytes(): (b: seq<u8>)
      requires Valid()
      ensures |b| == Len()
    {
      [ByteOf(inode, 0), ByteOf(inode, 1), ByteOf(inode, 2), ByteOf(inode, 3)]
      + [Len() % 0x100, Len() / 0x100, |name|, ftype] + name + pad
    }
  }

  function Encode(rs: seq<Record>): seq<u8>
    requires forall r :: r in rs ==> r.Valid()
  {
    if rs == [] then [] else rs[0].Bytes() + Encode(rs[1..])
  }

  function Live(rs: seq<Record>): seq<Dirent> {
    if rs == [] then []
    else (if rs[0].inode == 0 then [] else [Dirent(rs[0].inode, rs[0].name)]) + Live(rs[1..])
  }

  lemma RecordFields(b: seq<u8>, off: nat, r: Record)
    requires r.Valid() && off + r.Len() <= |b| && b[off..off + r.Len()] == r.Bytes()
    ensures U32(b, off) == r.inode && U16(b, off + 4) == r.Len()
    ensures b[off + 6] == |r.name| && b[off + 8..off + 8 + |r.name|] == r.name
  {
    var s := r.Bytes();
    assert forall k :: 0 <= k < r.Len() ==> b[off + k] == s[k];
    BytesOfWord(s[0], s[1], s[2], s[3]);
    SameWord(LittleEndian(s[0], s[1], s[2], s[3]), r.inode);
    assert s[8..8 + |r.name|] == r.name;
  }

  lemma EncodeHead(b: seq<u8>, off: nat, rs: seq<Record>)
    requires rs != [] && forall r :: r in rs ==> r.Valid()
    requires off + |Encode(rs)| <= |b| && b[off..off + |Encode(rs)|] == Encode(rs)
    ensures |Encode(rs)| == rs[0].Len() + |Encode(rs[1..])|
    ensures b[off..off + rs[0].Len()] == rs[0].Bytes()
    ensures b[off + rs[0].Len()..off + |Encode(rs)|] == Encode(rs[1..])
  {
    SplitAt(b, off, rs[0].Bytes(), Encode(rs[1..]));
  }

  lemma SplitAt(b: seq<u8>, off: nat, x: seq<u8>, y: seq<u8>)
    requires off + |x| + |y| <= |b| && b[off..off + |x| + |y|] == x + y
    ensures b[off..off + |x|] == x && b[off + |x|..off + |x| + |y|] == y
  {
    assert b[off..off + |x| + |y|][..|x|] == x;
    assert b[off..off + |x| + |y|][|x|..] == y;
  }

  /** Scanning a directory gives back the live records it was laid out from. */
  lemma {:induction false} ScanInvertsLayout(b: seq<u8>, off: nat, rs: seq<Record>)
    requires forall r :: r in rs ==> r.Valid()
    requires off + |Encode(rs)| + DIRENT_MAX <= |b| && b[off..off + |Encode(rs)|] == Encode(rs)
    ensures Scan(b, off, off + |Encode(rs)|) == Live(rs)
    decreases |rs|
  {
    hide Scan, Encode, U16, U32, Live, Record.Bytes;
    if rs == [] {
      NoRecords(b, off);
    } else {
      EncodeHead(b, off, rs);
      ScanInvertsLayout(b, off + rs[0].Len(), rs[1..]);
      ScanRecord(b, off, off + |Encode(rs)|, rs);
    }
  }

  lemma NoRecords(b: seq<u8>, off: nat)
    requires off + DIRENT_MAX <= |b|
    ensures |Encode([])| == 0 && Scan(b, off, off) == Live([])
  {
  }

  lemma ScanRecord(b: seq<u8>, off: nat, end: nat, rs: seq<Record>)
    requires rs != [] && rs[0].Valid() && off + rs[0].Len() <= end && end + DIRENT_MAX <= |b|
    requires b[off..off + rs[0].Len()] == rs[0].Bytes()
    requires Scan(b, off + rs[0].Len(), end) == Live(rs[1..])
    ensures Scan(b, off, end) == Live(rs)
  {
    RecordFields(b, off, rs[0]);
    hide Record.Bytes, U16, U32;
  }

  /** Record i is the first live one with this name. */
  ghost predicate FirstNamed(rs: seq<Record>, name: seq<u8>, i: nat) {
    && i < |rs| && rs[i].inode != 0 && rs[i].name == name
    && forall j :: 0 <= j < i && rs[j].inode != 0 ==> rs[j].name != name
  }

  /** A lookup gives the inode of the first live record with the name, and 0 if there is none. */
  lemma {:induction false} LookupFirst(rs: seq<Record>, name: seq<u8>)
    ensures forall i: nat :: FirstNamed(rs, name, i) ==> Lookup(Live(rs), name) == rs[i].inode
    ensures (forall i :: 0 <= i < |rs| && rs[i].inode != 0 ==> rs[i].name != name) ==> Lookup(Live(rs), name) == 0
  {
    if rs != [] {
      LookupFirst(rs[1..], name);
      LookupHead(rs, name);
      hide Lookup, Live;
      forall i: nat | FirstNamed(rs, name, i)
        ensures Lookup(Live(rs), name) == rs[i].inode
      {
        if i > 0 {
          assert FirstNamed(rs[1..], name, i - 1);
        }
      }
    }
  }

  lemma LookupHead(rs: seq<Record>, name: seq<u8>)
    requires rs != []
    ensures Lookup(Live(rs), name)
            == if rs[0].inode != 0 && rs[0].name == name then rs[0].inode else Lookup(Live(rs[1..]), name)
  {
    if rs[0].inode != 0 {
      assert Live(rs)[1..] == Live(rs[1..]);
    } else {
      assert Live(rs) == Live(rs[1..]);
    }
  }

  /** A directory whose first block is tiled by records: both scans see its live records in order,
      whatever else is in the buffer. */
  lemma DirectoryInverse(v: Volume, ino: u32, rs: seq<Record>, stale: seq<u8>)
    requires v.Valid() && |stale| + v.blockSize == BLOCK_BUFFER + DIRENT_MAX
    requires forall r :: r in rs ==> r.Valid() && 0 !in r.name
    requires |Encode(rs)| == Min(v.InodeAt(ino).size, v.blockSize)
    requires v.Block(v.InodeAt(ino).blocks[0])[..|Encode(rs)|] == Encode(rs)
    ensures Scan(v.DirView(ino, stale), 0, v.DirEnd(ino)) == Live(rs)
    ensures Listing(Live(rs)) == LiveNames(rs)
  {
    var b := v.DirView(ino, stale);
    assert b[0..|Encode(rs)|] == v.Block(v.InodeAt(ino).blocks[0])[..|Encode(rs)|];
    hide Encode, Scan, Live;
    ScanInvertsLayout(b, 0, rs);
    ListsLiveNames(rs);
  }

  function LiveNames(rs: seq<Record>): seq<seq<u8>> {
    if rs == [] then [] else (if rs[0].inode == 0 then [] else [rs[0].name]) + LiveNames(rs[1..])
  }

  lemma {:induction false} ListsLiveNames(rs: seq<Record>)
    requires forall r :: r in rs ==> 0 !in r.name
    ensures Listing(Live(rs)) == LiveNames(rs)
  {
    if rs != [] {
      ListsLiveNames(rs[1..]);
      PrintedFixed(rs[0].name);
      if rs[0].inode != 0 {
        assert Live(rs)[1..] == Live(rs[1..]);
      } else {
        assert Live(rs) == Live(rs[1..]);
      }
    }
  }

  ghost predicate Named(es: seq<Dirent>, name: seq<u8>) {
    exists e :: e in es && e.name == name
  }

  ghost predicate AllLive(es: seq<Dirent>) {
    forall e :: e in es ==> e.inode != 0
  }

  lemma {:induction false} ScanIsLive(b: seq<u8>, off: nat, end: nat)
    requires end + DIRENT_MAX <= |b|
    ensures AllLive(Scan(b, off, end))
    decreases end - off
  {
    if off < end && U16(b, off + 4) != 0 {
      ScanIsLive(b, off + U16(b, off + 4), end);
    }
  }

  lemma {:induction false} FoundIffNamed(es: seq<Dirent>, name: seq<u8>)
    requires AllLive(es)
    ensures Lookup(es, name) != 0 <==> Named(es, name)
  {
    if es != [] {
      assert AllLive(es[1..]);
      FoundIffNamed(es[1..], name);
      assert forall e :: e in es <==> e == es[0] || e in es[1..];
    }
  }

  lemma {:induction false} PrintedFixed(s: seq<u8>)
    ensures 0 !in s <==> Printed(s) == s
  {
    if s != [] {
      PrintedFixed(s[1..]);
    }
  }

  /** Printing stops at a zero byte. */
  lemma {:induction false} PrintedStops(s: seq<u8>, rest: seq<u8>)
    requires 0 !in s
    ensures Printed(s + [0] + rest) == s
  {
    if s != [] {
      assert (s + [0] + rest)[1..] == s[1..] + [0] + rest;
      PrintedStops(s[1..], rest);
    }
  }

  lemma NamedIsListed(es: seq<Dirent>, name: CString)
    requires Named(es, name)
    ensures name in Listing(es)
  {
    var e :| e in es && e.name == name;
    PrintedFixed(name);
    var i :| 0 <= i < |es| && es[i] == e;
    assert Listing(es)[i] == name;
  }

  /** What is listed is the printed form of some entry's name, and the other way round. */
  lemma ListedIffPrinted(es: seq<Dirent>, name: CString)
    ensures name in Listing(es) <==> exists e :: e in es && Printed(e.name) == name
  {
    if name in Listing(es) {
      var i :| 0 <= i < |es| && Listing(es)[i] == name;
      assert es[i] in es && Printed(es[i].name) == name;
    }
    if e :| e in es && Printed(e.name) == name {
      var i :| 0 <= i < |es| && es[i] == e;
      assert Listing(es)[i] == name;
    }
  }

  ghost predicate FoundAsListed(es: seq<Dirent>, name: CString) {
    Lookup(es, name) != 0 <==> name in Listing(es)
  }

  /** Names found and names listed are the same, for a block of any content, exactly when what is
      listed for an entry with a zero byte in its name is also the whole name of some entry. */
  lemma FoundIffListed(es: seq<Dirent>)
    requires AllLive(es)
    ensures (forall name: CString :: FoundAsListed(es, name))
            <==> (forall e :: e in es && 0 in e.name ==> Named(es, Printed(e.name)))
  {
    if forall e :: e in es && 0 in e.name ==> Named(es, Printed(e.name)) {
      forall name: CString
        ensures FoundAsListed(es, name)
      {
        FoundIffNamed(es, name);
        ListedIffPrinted(es, name);
        if name in Listing(es) {
          var e :| e in es && Printed(e.name) == name;
          PrintedFixed(e.name);
        } else if Named(es, name) {
          NamedIsListed(es, name);
        }
      }
    }
    if forall name: CString :: FoundAsListed(es, name) {
      forall e | e in es && 0 in e.name
        ensures Named(es, Printed(e.name))
      {
        var p: CString := Printed(e.name);
        ListedIffPrinted(es, p);
        assert FoundAsListed(es, p);
        FoundIffNamed(es, p);
      }
    }
  }

  /** The sample volume's directory: the name that is listed for its entry cannot be opened. */
  lemma ListedNotFound(stale: seq<u8>)
    requires |stale| + 1024 == BLOCK_BUFFER + DIRENT_MAX
    ensures var v := SampleVolume();
      var es := Scan(v.DirView(2, stale), 0, v.DirEnd(2));
      es == [Dirent(11, ['a' as int, 0, 'b' as int])] && Listing(es) == [['a' as int]] && Lookup(es, ['a' as int]) == 0
  {
    var v, name: seq<u8>, shown: seq<u8> := SampleVolume(), ['a' as int, 0, 'b' as int], ['a' as int];
    SampleInode(2);
    hide Volume.InodeAt;
    var b := v.DirView(2, stale);
    SampleRecord(b);
    ScanStep(b, 0, 1024);
    ScanEnds(b, 1024, 1024);
    var es := Scan(b, 0, 1024);
    assert es == [Dirent(11, name)];
    assert name[1..][0] == 0 && Printed(name[1..]) == [];
    assert Printed(name) == shown;
    assert es[1..] == [];
  }

  lemma SampleRecord(b: seq<u8>)
    requires |b| >= 1024 && b[..1024] == SampleVolume().Block(7)
    ensures U32(b, 0) == 11 && U16(b, 4) == 1024 && b[6] == 3 && b[8..11] == ['a' as int, 0, 'b' as int]
  {
    var v := SampleVolume();
    assert v.LbaOf(7, 0) == 14;
    forall k | 0 <= k < 11
      ensures b[k] == SampleByte(14, k)
    {
      assert b[k] == b[..1024][k] == v.BlockByte(7, k);
    }
  }

  // ----- the driver -----

  class Driver {
    const vol: Volume
    const blkA: array<u8>  // blk_a
    const blkB: array<u8>  // blk_b, and as much of what lies after it as a record can reach

    predicate Buffers() {
      blkA != blkB && blkA.Length == BLOCK_BUFFER && blkB.Length == BLOCK_BUFFER + DIRENT_MAX
    }

    constructor (vol: Volume)
      ensures this.vol == vol && Buffers() && fresh(blkA) && fresh(blkB)
    {
      this.vol := vol;
      blkA := new u8[BLOCK_BUFFER](_ => 0);
      blkB := new u8[BLOCK_BUFFER + DIRENT_MAX](_ => 0);
    }

    /** ide_read_sector into buf + at. */
    method ReadSector(lba: u32, buf: array<u8>, at: nat)
      requires at + SECTOR <= buf.Length
      modifies buf
      ensures forall k :: 0 <= k < buf.Length ==>
          buf[k] == if at <= k < at + SECTOR then vol.disk(lba)[k - at] else old(buf[k])
    {
      forall k | 0 <= k < SECTOR {
        buf[at + k] := vol.disk(lba)[k];
      }
    }

    lemma SectorBytes(block: u32, i: nat)
      ensures vol.LbaOf(block, i) == Wrap(Wrap(vol.partLba + Wrap(block * (vol.blockSize / SECTOR))) + i)
      ensures forall k :: i * SECTOR <= k < i * SECTOR + SECTOR ==>
          vol.BlockByte(block, k) == vol.disk(vol.LbaOf(block, i))[k - i * SECTOR]
    {
      forall k | i * SECTOR <= k < i * SECTOR + SECTOR
        ensures vol.BlockByte(block, k) == vol.disk(vol.LbaOf(block, i))[k - i * SECTOR]
      {
        Quotient(k, SECTOR, i, k - i * SECTOR);
      }
    }

    /** ext2_read_block. */
    method ReadBlock(block: u32, buf: array<u8>)
      requires vol.Valid() && buf.Length >= BLOCK_BUFFER
      modifies buf
      ensures buf[..vol.blockSize] == vol.Block(block)
      ensures buf[vol.blockSize..] == old(buf[vol.blockSize..])
    {
      hide Volume.BlockByte, Volume.LbaOf;
      var sects := vol.blockSize / SECTOR;
      var lba := Wrap(vol.partLba + Wrap(block * sects));
      var i := 0;
      ghost var done := 0;
      while i < sects
        invariant 0 <= i <= sects && done == i * SECTOR
        invariant forall k :: 0 <= k < done ==> buf[k] == vol.BlockByte(block, k)
        invariant forall k :: done <= k < buf.Length ==> buf[k] == old(buf[k])
      {
        SectorBytes(block, i);
        ReadSector(Wrap(lba + i), buf, i * SECTOR);
        i := i + 1;
        done := done + SECTOR;
      }
    }

    /** ext2_read_inode. */
    method ReadInode(inum: u32) returns (inode: Inode)
      requires vol.Valid() && Buffers()
      modifies blkA
      ensures inode == vol.InodeAt(inum)
    {
      var idx := Wrap(inum - 1);
      var ipb := vol.PerBlock();
      var block := Wrap(vol.inodeTable + idx / ipb);
      var offset := idx % ipb * vol.inodeSize;
      assert block == vol.InodeBlock(inum) && offset == vol.InodeOffset(inum);
      hide Volume.PerBlock, Volume.InodeBlock, Volume.InodeOffset, Volume.Block, ParseInode;
      ReadBlock(block, blkA);
      var raw := CopyRaw(offset);
      assert raw == blkA[..vol.blockSize][offset..offset + INODE_BYTES];
      inode := ParseInode(raw);
    }

    /** Copy an inode's bytes out of blk_a. */
    method CopyRaw(offset: nat) returns (raw: seq<u8>)
      requires offset + INODE_BYTES <= blkA.Length
      ensures raw == blkA[offset..offset + INODE_BYTES]
    {
      var copy := new u8[INODE_BYTES];
      var i := 0;
      while i < INODE_BYTES
        invariant 0 <= i <= INODE_BYTES && copy[..i] == blkA[offset..offset + i]
      {
        copy[i] := blkA[offset + i];
        i := i + 1;
      }
      raw := copy[..];
    }

    /** Read the first block of a directory into blk_b. */
    method LoadDirectory(dirIno: u32) returns (size: u32)
      requires vol.Valid() && Buffers()
      modifies blkA, blkB
      ensures size == vol.InodeAt(dirIno).size
      ensures |old(blkB[vol.blockSize..])| + vol.blockSize == BLOCK_BUFFER + DIRENT_MAX
      ensures blkB[..] == vol.DirView(dirIno, old(blkB[vol.blockSize..]))
    {
      var inode := ReadInode(dirIno);
      hide Volume.InodeAt, Volume.Block;
      ReadBlock(inode.blocks[0], blkB);
      assert blkB[..] == blkB[..vol.blockSize] + blkB[vol.blockSize..];
      size := inode.size;
    }

    /** ext2_ls. */
    method Ls(dirIno: u32) returns (lines: seq<CString>)
      requires vol.Valid() && Buffers()
      modifies blkA, blkB
      ensures |old(blkB[vol.blockSize..])| + vol.blockSize == BLOCK_BUFFER + DIRENT_MAX
      ensures lines == Listing(Scan(vol.DirView(dirIno, old(blkB[vol.blockSize..])), 0, vol.DirEnd(dirIno)))
    {
      hide Volume.InodeAt, Volume.DirView, Scan, U16, U32, Printed, Listing;
      var size := LoadDirectory(dirIno);
      ghost var b, end := vol.DirView(dirIno, old(blkB[vol.blockSize..])), vol.DirEnd(dirIno);
      var off := 0;
      lines := [];
      while off < size && off < vol.blockSize
        invariant 0 <= off && b == blkB[..]
        invariant lines + Listing(Scan(b, off, end)) == Listing(Scan(b, 0, end))
        decreases end - off
      {
        var recLen := U16(blkB[..], off + 4);
        if recLen == 0 {
          break;
        }
        ScanStep(b, off, end);
        if U32(blkB[..], off) != 0 {
          ListStep(lines, b, off, end);
          var name := CopyName(off);
          lines := lines + [name];
        }
        off := off + recLen;
      }
      ListEnds(lines, b, off, end);
    }

    /** Copy the name of the record at off into a buffer, and print it. */
    method CopyName(off: nat) returns (name: CString)
      requires Buffers() && off < BLOCK_BUFFER
      ensures name == Printed(blkB[off + 8..off + 8 + blkB[off + 6]])
    {
      var buffer := new u8[256];
      var j := 0;
      while j < blkB[off + 6]
        invariant 0 <= j <= blkB[off + 6] && buffer[..j] == blkB[off + 8..off + 8 + j]
      {
        buffer[j] := blkB[off + 8 + j];
        j := j + 1;
      }
      buffer[blkB[off + 6]] := 0;
      name := Print(buffer, blkB[off + 6]);
    }

    /** `print`: emit characters up to the terminator, which is at or before position n. */
    method Print(buffer: array<u8>, n: nat) returns (shown: CString)
      requires n < buffer.Length && buffer[n] == 0
      ensures shown == Printed(buffer[..n])
    {
      var i := 0;
      shown := [];
      while buffer[i] != 0
        invariant 0 <= i <= n && shown + Printed(buffer[i..n]) == Printed(buffer[..n])
        decreases n - i
      {
        assert buffer[i..n][1..] == buffer[i + 1..n];
        shown := shown + [buffer[i]];
        i := i + 1;
      }
    }

    /** The comparison loop of ext2_find for the record at off. */
    method Matches(off: nat, name: CString) returns (match_: bool)
      requires Buffers() && off < BLOCK_BUFFER
      ensures match_ <==> blkB[off + 8..off + 8 + blkB[off + 6]] == name
    {
      ghost var stored := blkB[off + 8..off + 8 + blkB[off + 6]];
      match_ := true;
      var j := 0;
      while j < blkB[off + 6]
        invariant 0 <= j <= blkB[off + 6] && j <= |name|
        invariant forall k :: 0 <= k < j ==> stored[k] == name[k]
      {
        assert stored[j] == blkB[off + 8 + j];
        if j == |name| || name[j] != blkB[off + 8 + j] {
          return false;
        }
        j := j + 1;
      }
      match_ := j == |name|;
    }

    /** ext2_find. */
    method Find(dirIno: u32, name: CString) returns (ino: u32)
      requires vol.Valid() && Buffers()
      modifies blkA, blkB
      ensures |old(blkB[vol.blockSize..])| + vol.blockSize == BLOCK_BUFFER + DIRENT_MAX
      ensures ino == Lookup(Scan(vol.DirView(dirIno, old(blkB[vol.blockSize..])), 0, vol.DirEnd(dirIno)), name)
    {
      hide Volume.InodeAt, Volume.DirView, Scan, U16, U32;
      var size := LoadDirectory(dirIno);
      ghost var b, end := vol.DirView(dirIno, old(blkB[vol.blockSize..])), vol.DirEnd(dirIno);
      var off := 0;
      while off < size && off < vol.blockSize
        invariant 0 <= off && b == blkB[..]
        invariant Lookup(Scan(b, off, end), name) == Lookup(Scan(b, 0, end), name)
        decreases end - off
      {
        var recLen := U16(blkB[..], off + 4);
        if recLen == 0 {
          break;
        }
        ScanStep(b, off, end);
        if U32(blkB[..], off) != 0 {
          var found := Matches(off, name);
          if found {
            return U32(blkB[..], off);
          }
        }
        off := off + recLen;
      }
      ScanEnds(b, off, end);
      return 0;
    }

    /** ext2_inode_size. */
    method InodeSize(inum: u32) returns (size: u32)
      requires vol.Valid() && Buffers()
      modifies blkA
      ensures size == vol.InodeAt(inum).size
    {
      var inode := ReadInode(inum);
      size := inode.size;
    }

    /** The rest of a hole, as zeros, up to `size` bytes in all. */
    method PutZeros(buf: array<u8>, blkOff: nat, copied0: nat, size: nat) returns (copied: nat)
      requires blkOff < vol.blockSize && copied0 < size && Min(size, copied0 + (vol.blockSize - blkOff)) <= buf.Length
      modifies buf
      ensures copied == Min(size, copied0 + (vol.blockSize - blkOff))
      ensures forall k :: 0 <= k < buf.Length ==> buf[k] == if copied0 <= k < copied then 0 else old(buf[k])
    {
      copied := copied0;
      var j := blkOff;
      while j < vol.blockSize && copied < size
        invariant blkOff <= j <= vol.blockSize && copied == copied0 + (j - blkOff) <= size
        invariant forall k :: 0 <= k < buf.Length ==> buf[k] == if copied0 <= k < copied then 0 else old(buf[k])
      {
        buf[copied] := 0;
        copied := copied + 1;
        j := j + 1;
      }
    }

    /** The rest of the block in blk_a, up to `size` bytes in all. */
    method PutBlock(buf: array<u8>, blkOff: nat, copied0: nat, size: nat) returns (copied: nat)
      requires buf != blkA && vol.blockSize <= blkA.Length
      requires blkOff < vol.blockSize && copied0 < size && Min(size, copied0 + (vol.blockSize - blkOff)) <= buf.Length
      modifies buf
      ensures copied == Min(size, copied0 + (vol.blockSize - blkOff))
      ensures forall k :: 0 <= k < buf.Length ==>
          buf[k] == if copied0 <= k < copied then blkA[blkOff + (k - copied0)] else old(buf[k])
    {
      copied := copied0;
      var j := blkOff;
      while j < vol.blockSize && copied < size
        invariant blkOff <= j <= vol.blockSize && copied == copied0 + (j - blkOff) <= size
        invariant forall k :: 0 <= k < buf.Length ==>
            buf[k] == if copied0 <= k < copied then blkA[blkOff + (k - copied0)] else old(buf[k])
      {
        buf[copied] := blkA[j];
        copied := copied + 1;
        j := j + 1;
      }
    }

    /** One round of the loop of ext2_pread: copy from byte blkOff of block blk on. */
    method PreadRound(inode: Inode, buf: array<u8>, ghost offset: nat, blk: nat, blkOff: nat, copied0: nat, size: nat)
      returns (copied: nat)
      requires vol.Valid() && Buffers() && buf != blkA && buf != blkB
      requires blk < DIRECT && blkOff < vol.blockSize && copied0 < size
      requires Min(size, copied0 + (vol.blockSize - blkOff)) <= buf.Length
      requires offset + copied0 == vol.StartOf(blk) + blkOff
      modifies blkA, buf
      ensures copied == Min(size, copied0 + (vol.blockSize - blkOff))
      ensures forall k :: 0 <= k < buf.Length ==>
          buf[k] == if copied0 <= k < copied then vol.RawByte(inode, offset + k) else old(buf[k])
    {
      RawIn(vol, inode, blk);
      hide Volume.RawByte, Volume.StartOf, Volume.BlockByte;
      var b := inode.blocks[blk];
      if b == 0 {
        copied := PutZeros(buf, blkOff, copied0, size);
      } else {
        ReadBlock(b, blkA);
        assert forall j :: 0 <= j < vol.blockSize ==> blkA[j] == vol.Block(b)[j];
        copied := PutBlock(buf, blkOff, copied0, size);
      }
      forall k | copied0 <= k < copied
        ensures buf[k] == vol.RawByte(inode, offset + k)
      {
        assert offset + k - vol.StartOf(blk) == blkOff + (k - copied0);
      }
    }

    /** ext2_pread. The caller provides room for what is delivered. */
    method Pread(inum: u32, buf: array<u8>, offset: u32, size: u32) returns (copied: nat)
      requires vol.Valid() && Buffers() && buf != blkA && buf != blkB
      requires vol.PreadLen(vol.InodeAt(inum), offset, size) <= buf.Length
      modifies blkA, buf
      ensures copied <= buf.Length && buf[..copied] == vol.Pread(vol.InodeAt(inum), offset, size)
      ensures buf[copied..] == old(buf[copied..])
    {
      Clip(vol.InodeAt(inum).size, offset, size);
      hide Volume.InodeAt, Volume.RawByte;
      var inode := ReadInode(inum);
      var fileSize := inode.size;
      if offset >= fileSize {
        return 0;
      }
      var wanted: nat := size;
      if Wrap(offset + size) > fileSize {
        wanted := fileSize - offset;
      }
      copied := CopyFrom(inode, buf, offset, wanted);
    }

    /** The loop of ext2_pread. */
    method CopyFrom(inode: Inode, buf: array<u8>, offset: u32, size: nat) returns (copied: nat)
      requires vol.Valid() && Buffers() && buf != blkA && buf != blkB && Min(size, vol.Reach(offset)) <= buf.Length
      modifies blkA, buf
      ensures copied == Min(size, vol.Reach(offset))
      ensures forall k :: 0 <= k < buf.Length ==>
          buf[k] == if k < copied then vol.RawByte(inode, offset + k) else old(buf[k])
    {
      Starts(vol);
      StartsAt(vol, offset);
      hide Volume.RawByte, Volume.StartOf;
      copied := 0;
      var blk: nat := offset / vol.blockSize;
      var blkOff: nat := offset % vol.blockSize;
      while copied < size && blk < DIRECT
        invariant copied <= size && blkOff < vol.blockSize
        invariant copied < size ==> offset + copied == vol.StartOf(blk) + blkOff
        invariant if copied == 0 then blk < DIRECT <==> offset < DIRECT * vol.blockSize
                  else blkOff == 0 && blk <= DIRECT && offset + copied <= vol.StartOf(blk)
        invariant forall k :: 0 <= k < buf.Length ==>
            buf[k] == if k < copied then vol.RawByte(inode, offset + k) else old(buf[k])
        decreases DIRECT - blk
      {
        assert vol.StartOf(blk + 1) == vol.StartOf(blk) + vol.blockSize;
        copied := PreadRound(inode, buf, offset, blk, blkOff, copied, size);
        blk := blk + 1;
        blkOff := 0;
      }
    }

    /** ext2_read_file. */
    method ReadFile(inum: u32, buf: array<u8>, maxSize: u32) returns (copied: nat)
      requires vol.Valid() && Buffers() && buf != blkA && buf != blkB
      requires vol.PreadLen(vol.InodeAt(inum), 0, maxSize) <= buf.Length
      modifies blkA, buf
      ensures copied <= buf.Length && buf[..copied] == vol.Pread(vol.InodeAt(inum), 0, maxSize)
      ensures buf[copied..] == old(buf[copied..])
    {
      hide Volume.InodeAt, Volume.RawByte;
      var inode := ReadInode(inum);
      var size := if inode.size < maxSize then inode.size else maxSize;
      copied := CopyFile(inode, buf, size);
      assert copied == vol.PreadLen(inode, 0, maxSize);
    }

    /** The loop of ext2_read_file. */
    method CopyFile(inode: Inode, buf: array<u8>, size: nat) returns (copied: nat)
      requires vol.Valid() && Buffers() && buf != blkA && buf != blkB && Min(size, DIRECT * vol.blockSize) <= buf.Length
      modifies blkA, buf
      ensures copied == Min(size, DIRECT * vol.blockSize)
      ensures forall k :: 0 <= k < buf.Length ==> buf[k] == if k < copied then vol.RawByte(inode, k) else old(buf[k])
    {
      Starts(vol);
      hide Volume.RawByte, Volume.StartOf;
      copied := 0;
      var blk := 0;
      while blk < DIRECT && copied < size
        invariant 0 <= blk <= DIRECT && copied == Min(size, vol.StartOf(blk))
        invariant forall k :: 0 <= k < buf.Length ==>
            buf[k] == if k < copied then vol.RawByte(inode, k) else old(buf[k])
      {
        assert vol.StartOf(blk + 1) == vol.StartOf(blk) + vol.blockSize;
        var bytes := BytesInRound(copied, size);
        FileRound(inode, buf, blk, copied, bytes);
        copied := copied + bytes;
        blk := blk + 1;
      }
    }

    /** A whole block, or what is left to copy; the sum is a 32-bit one. */
    function BytesInRound(copied: nat, size: nat): (bytes: nat)
      requires vol.Valid() && copied < size && copied <= DIRECT * vol.blockSize
      ensures bytes == Min(vol.blockSize, size - copied)
    {
      if Wrap(copied + vol.blockSize) > size then size - copied else vol.blockSize
    }

    /** n zeros at position `at` of the buffer. */
    method FillHole(buf: array<u8>, at: nat, n: nat)
      requires at + n <= buf.Length
      modifies buf
      ensures forall k :: 0 <= k < buf.Length ==> buf[k] == if at <= k < at + n then 0 else old(buf[k])
    {
      var j := 0;
      while j < n
        invariant 0 <= j <= n
        invariant forall k :: 0 <= k < buf.Length ==> buf[k] == if at <= k < at + j then 0 else old(buf[k])
      {
        buf[at + j] := 0;
        j := j + 1;
      }
    }

    /** The first n bytes of blk_a at position `at` of the buffer. */
    method CopyBlock(buf: array<u8>, at: nat, n: nat)
      requires buf != blkA && n <= blkA.Length && at + n <= buf.Length
      modifies buf
      ensures forall k :: 0 <= k < buf.Length ==> buf[k] == if at <= k < at + n then blkA[k - at] else old(buf[k])
    {
      var j := 0;
      while j < n
        invariant 0 <= j <= n
        invariant forall k :: 0 <= k < buf.Length ==> buf[k] == if at <= k < at + j then blkA[k - at] else old(buf[k])
      {
        buf[at + j] := blkA[j];
        j := j + 1;
      }
    }

    /** One round of the loop of ext2_read_file. */
    method FileRound(inode: Inode, buf: array<u8>, blk: nat, copied: nat, bytes: nat)
      requires vol.Valid() && Buffers() && buf != blkA && buf != blkB
      requires blk < DIRECT && copied == vol.StartOf(blk) && bytes <= vol.blockSize && copied + bytes <= buf.Length
      modifies blkA, buf
      ensures forall k :: 0 <= k < buf.Length ==>
          buf[k] == if copied <= k < copied + bytes then vol.RawByte(inode, k) else old(buf[k])
    {
      RawIn(vol, inode, blk);
      hide Volume.RawByte, Volume.StartOf, Volume.BlockByte;
      var b := inode.blocks[blk];
      if b == 0 {
        FillHole(buf, copied, bytes);
      } else {
        ReadBlock(b, blkA);
        assert forall i :: 0 <= i < vol.blockSize ==> blkA[i] == vol.Block(b)[i];
        CopyBlock(buf, copied, bytes);
      }
      forall k | copied <= k < copied + bytes
        ensures buf[k] == vol.RawByte(inode, k)
      {
        assert k - vol.StartOf(blk) == k - copied;
      }
    }
  }

  /** The bytes of direct block blk of a file. */
  lemma RawIn(v: Volume, inode: Inode, blk: nat)
    requires v.Valid() && blk < DIRECT
    ensures forall k :: v.StartOf(blk) <= k < v.StartOf(blk) + v.blockSize ==>
              v.RawByte(inode, k)
                  == if inode.blocks[blk] == 0 then 0 else v.BlockByte(inode.blocks[blk], k - v.StartOf(blk))
  {
    forall k | v.StartOf(blk) <= k < v.StartOf(blk) + v.blockSize
      ensures v.RawByte(inode, k)
          == if inode.blocks[blk] == 0 then 0 else v.BlockByte(inode.blocks[blk], k - v.StartOf(blk))
    {
      Quotient(k, v.blockSize, blk, k - v.StartOf(blk));
    }
  }

  lemma Starts(v: Volume)
    requires v.Valid()
    ensures v.StartOf(0) == 0 && v.StartOf(DIRECT) == DIRECT * v.blockSize
    ensures forall blk: nat :: v.StartOf(blk + 1) == v.StartOf(blk) + v.blockSize
    ensures forall blk: nat :: blk <= DIRECT <==> v.StartOf(blk) <= DIRECT * v.blockSize
  {
  }

  /** `offset / block_size` and `offset % block_size` */
  lemma StartsAt(v: Volume, offset: nat)
    requires v.Valid()
    ensures v.StartOf(offset / v.blockSize) + offset % v.blockSize == offset
    ensures offset / v.blockSize < DIRECT <==> offset < DIRECT * v.blockSize
  {
  }
}
