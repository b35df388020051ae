/** Two ELF files that elf_exec accepts and starts, and whose processes do not get what the files say. */
module Programs {
  import opened Bits
  import opened Memory
  import opened Machines
  import opened Elf
  import opened ElfFile
  import opened ElfExec
  import Ext2
  import Paging

  /** An ELF header with one program header, right after it. */
  function OneHeader(entry: u32): (h: HeaderFields)
    ensures h.Valid()
  {
    HeaderFields([0x7F, 0x45, 0x4C, 0x46, 1, 1, 1, 0, 0, 0, 0, 0, 0, 0, 0, 0],
                 2, 3, 1, entry, 52, 0, 0, 52, 32, 1, 0, 0, 0)
  }

  /** A file that starts with such a header and program header p. */
  predicate Holds84(file: seq<u8>, p: PhdrFields) {
    |file| >= 84 && file[..84] == OneHeader(p.vaddr).Bytes() + p.Bytes()
  }

  lemma OneTable(file: seq<u8>, p: PhdrFields)
    requires Holds84(file, p)
    ensures Magic(file) && TableInFile(file) && Headers(file) == [Phdr(p.ptype, p.offset, p.vaddr, p.filesz, p.memsz)]
  {
    var h := OneHeader(p.vaddr);
    var s := file[..84];
    assert file[..52] == s[..52] == h.Bytes();
    assert file[52..84] == s[52..] == p.Bytes();
    assert h.ident[..4] == [0x7F, 0x45, 0x4C, 0x46] && h.phnum == 1 && h.At(0) == 52;
    hide HeaderFields.Bytes, PhdrFields.Bytes, OneHeader, TableInFile, Headers, Magic;
    HeaderRoundTrip(h, file);
    FileRoundTrip(h, [p], file);
  }

  // ----- a segment at the end of the address space -----

  /** 0x800 bytes of memory at 0xFFFFF000, none of them in the file. */
  function HighPhdr(): PhdrFields {
    PhdrFields(PT_LOAD, 0, 0xFFFF_F000, 0, 0, 0x800, 6, 4096)
  }

  function HighSegment(): Phdr {
    Phdr(PT_LOAD, 0, 0xFFFF_F000, 0, 0x800)
  }

  /** The file is loadable, and its process starts without the segment: the page range wraps to nothing. */
  lemma HighSegmentLost(m: Ram, file: seq<u8>)
    requires |m| == FRAMES && Paging.KernelTables(m) && Holds84(file, HighPhdr())
    ensures Magic(file) && Loadable(file, m[KERNEL_PD]) && Headers(file) == [HighSegment()]
    ensures forall m', pd :: Sees(m', pd, m[KERNEL_PD], Image(Headers(file)), file) ==>
        ReadByte(m', pd, 0xFFFF_F000) == None
  {
    OneTable(file, HighPhdr());
    HighRange();
    hide Holds84, HighSegment, TableInFile, Headers, Magic;
    LoadableAfterBoot(m, file);
    assert m[KERNEL_PD][1023] == 0;
    forall m', pd | Sees(m', pd, m[KERNEL_PD], Image(Headers(file)), file)
      ensures ReadByte(m', pd, 0xFFFF_F000) == None
    {
      ReadsNothing(m', pd, m[KERNEL_PD], file, 0xFFFF_F000);
    }
  }

  lemma HighRange()
    ensures HighSegment().First() == 0xF_FFFF && HighSegment().End() == 0
    ensures !HighSegment().Covers(PageOf(0xFFFF_F000)) && PageOf(0xFFFF_F000) == 0xF_FFFF
  {
  }

  // ----- a file larger than its direct blocks -----

  /** A volume with blocks of 1024 bytes and the inode table in block 5: inode 1 is a file of 20000 bytes,
      an ELF file with one PT_LOAD header for all of it at 16 MB; block 8 holds its first bytes, the rest
      are zeros. */
  function LongVolume(): (v: Ext2.Volume)
    ensures v.Valid()
  {
    Ext2.Volume(LongDisk, 0, 1024, 128, 5)
  }

  function LongPhdr(): PhdrFields {
    PhdrFields(PT_LOAD, 0, 0x0100_0000, 0, 20000, 20000, 7, 4096)
  }

  function LongInodeFields(): (f: Ext2.InodeFields)
    ensures f.Valid()
  {
    Ext2.InodeFields(0x81A4, 0, 20000, 0, 0, 0, 0, 0, 1, 24, 0, 0, [8, 0, 0, 0, 0, 0, 0, 0, 0, 0, 0, 0, 0, 0, 0],
                     0, 0, 0, 0, [0, 0, 0, 0, 0, 0, 0, 0, 0, 0, 0, 0])
  }

  function LongDisk(lba: u32): Ext2.Sector {
    seq<u8>(Ext2.SECTOR, k requires 0 <= k < Ext2.SECTOR => LongByte(lba, k))
  }

  function LongByte(lba: u32, k: nat): u8 {
    if lba == 10 && k < 128 then LongInodeFields().Bytes()[k]
    else if lba == 16 && k < 84 then LongHead()[k]
    else 0
  }

  function LongHead(): (b: seq<u8>)
    ensures |b| == 84
  {
    OneHeader(LongPhdr().vaddr).Bytes() + LongPhdr().Bytes()
  }

  /** The first sectors of the inode table and of the file. */
  lemma LongSectors(k: nat)
    requires k < 512
    ensures LongVolume().BlockByte(5, k) == LongByte(10, k) && LongVolume().BlockByte(8, k) == LongByte(16, k)
  {
    hide LongByte;
    assert LongVolume().LbaOf(5, 0) == 10 && LongVolume().LbaOf(8, 0) == 16;
  }

  function LongSegment(): Phdr {
    Phdr(PT_LOAD, 0, 0x0100_0000, 20000, 20000)
  }

  /** It is accepted and loadable; but of its 20000 bytes 12288 are read, and from there on its process
      finds what the last use of the buffer left. */
  lemma LongProgram(m: Ram, before: seq<u8>)
    requires |m| == FRAMES && Paging.KernelTables(m) && |before| == MAX_ELF_SIZE
    ensures var v := LongVolume();
      var file := InBuffer(v, 1, before);
      && v.InodeAt(1).size == 20000 && |FileOf(v, 1)| == 12288 && Judge(1, FileOf(v, 1)) == Accepted
      && Loadable(file, m[KERNEL_PD]) && Headers(file) == [LongSegment()]
      && forall m', pd :: Sees(m', pd, m[KERNEL_PD], Image(Headers(file)), file) ==>
           ReadByte(m', pd, 0x0100_3000) == Some(before[12288])
  {
    var v := LongVolume();
    var file := InBuffer(v, 1, before);
    LongFile(before);
    OneTable(file, LongPhdr());
    assert Headers(file) == [LongSegment()];
    hide LongVolume, InBuffer, FileOf, LongSegment, Headers, TableInFile, Ext2.Volume.InodeAt, Holds84;
    hide Sees, Image, LastAt, ReadByte, Judge, Paging.KernelTables, LongHead, Loadable;
    LongLoadable(m, file);
    forall m', pd | Sees(m', pd, m[KERNEL_PD], Image(Headers(file)), file)
      ensures ReadByte(m', pd, 0x0100_3000) == Some(before[12288])
    {
      LongRead(m, m', pd, file);
    }
  }

  lemma LongLoadable(m: Ram, file: seq<u8>)
    requires |m| == FRAMES && Paging.KernelTables(m) && |file| == MAX_ELF_SIZE
    requires TableInFile(file) && Headers(file) == [LongSegment()]
    ensures Loadable(file, m[KERNEL_PD])
  {
    LongRange();
    LoadableAfterBoot(m, file);
    hide LongSegment, TableInFile, Headers, Loadable, Paging.KernelTables;
    assert FitsAbove(LongSegment(), file);
  }

  lemma LongRead(m: Ram, m': Ram, pd: nat, file: seq<u8>)
    requires |m| == FRAMES && TableInFile(file) && Headers(file) == [LongSegment()] && Loadable(file, m[KERNEL_PD])
    requires |file| == MAX_ELF_SIZE && Sees(m', pd, m[KERNEL_PD], Image(Headers(file)), file)
    ensures ReadByte(m', pd, 0x0100_3000) == Some(file[12288])
  {
    LongRange();
    hide Sees, Image, LastAt, ReadByte, LongSegment, Headers, TableInFile, Loadable;
    ReadsSegment(m', pd, m[KERNEL_PD], file, 0, 0x0100_3000);
  }

  lemma LongRange()
    ensures LongSegment().First() == 4096 && LongSegment().End() == 4101 && LongSegment().FileEnd() == 0x0100_4E20
    ensures LastAt([LongSegment()], 0, 0x0100_3000) && LongSegment().offset == 0
    ensures LongSegment().ptype == PT_LOAD && LongSegment().Fits(MAX_ELF_SIZE) && LongSegment().vaddr == 0x0100_0000
  {
  }

  /** The file, as the driver reads it, and the buffer. */
  lemma LongFile(before: seq<u8>)
    requires |before| == MAX_ELF_SIZE
    ensures var v := LongVolume();
      var file := InBuffer(v, 1, before);
      && v.InodeAt(1).size == 20000 && |FileOf(v, 1)| == 12288 && Judge(1, FileOf(v, 1)) == Accepted
      && |file| == MAX_ELF_SIZE && file[12288] == before[12288] && Holds84(file, LongPhdr())
  {
    LongContents();
    var v := LongVolume();
    hide LongVolume, Holds84, Judge, Ext2.Volume.InodeAt, LongPhdr, FileOf;
    BufferHead(FileOf(v, 1), before);
  }

  lemma BufferHead(f: seq<u8>, before: seq<u8>)
    requires |before| == MAX_ELF_SIZE && |f| == 12288 && Holds84(f, LongPhdr())
    ensures var file := f + before[|f|..];
      |file| == MAX_ELF_SIZE && file[12288] == before[12288] && Holds84(file, LongPhdr())
  {
    assert (f + before[|f|..])[..84] == f[..84];
    hide HeaderFields.Bytes, PhdrFields.Bytes, LongPhdr, OneHeader;
  }

  lemma LongContents()
    ensures var v := LongVolume();
      && v.InodeAt(1).size == 20000 && |FileOf(v, 1)| == 12288 && Judge(1, FileOf(v, 1)) == Accepted
      && Holds84(FileOf(v, 1), LongPhdr())
  {
    var v := LongVolume();
    hide LongVolume, LongHead, Ext2.Volume.InodeAt, Ext2.Volume.RawByte, LongPhdr, FileOf, Ext2.Volume.Contents;
    LongInode();
    FileIsContents(v, 1);
    LongSize(v.InodeAt(1));
    var f := FileOf(v, 1);
    forall k | 0 <= k < 84
      ensures f[k] == LongHead()[k]
    {
      LongRaw(v.InodeAt(1), k);
    }
    LongAccepted(f);
  }

  lemma LongSize(inode: Ext2.Inode)
    requires inode.size == 20000
    ensures |LongVolume().Contents(inode)| == 12288
    ensures forall k :: 0 <= k < 84 ==> LongVolume().Contents(inode)[k] == LongVolume().RawByte(inode, k)
  {
    hide Ext2.Volume.RawByte;
    assert forall k :: 0 <= k < 84 ==> LongVolume().Contents(inode)[k] == LongVolume().RawByte(inode, 0 + k);
  }

  lemma LongAccepted(f: seq<u8>)
    requires |f| >= 84 && forall k :: 0 <= k < 84 ==> f[k] == LongHead()[k]
    ensures Judge(1, f) == Accepted && f[..84] == LongHead() && Holds84(f, LongPhdr())
  {
    assert f[..84] == LongHead();
    hide LongHead, HeaderFields.Bytes, PhdrFields.Bytes;
    assert Holds84(f, LongPhdr()) by {
      LongHeadIs();
    }
    OneTable(f, LongPhdr());
  }

  lemma LongHeadIs()
    ensures LongHead() == OneHeader(LongPhdr().vaddr).Bytes() + LongPhdr().Bytes()
  {
  }

  lemma LongRaw(inode: Ext2.Inode, k: nat)
    requires inode.blocks[0] == 8 && k < 84
    ensures LongVolume().RawByte(inode, k) == LongHead()[k]
  {
    hide *;
    LongSectors(k);
    LongShape(k);
    FirstBlock(LongVolume(), inode, k);
  }

  lemma FirstBlock(v: Ext2.Volume, inode: Ext2.Inode, k: nat)
    requires v.blockSize == 1024 && k < 1024 && inode.blocks[0] != 0
    ensures v.RawByte(inode, k) == v.BlockByte(inode.blocks[0], k)
  {
    hide Ext2.Volume.BlockByte;
  }

  lemma LongShape(k: nat)
    requires k < 84
    ensures LongVolume().blockSize == 1024 && LongByte(16, k) == LongHead()[k] && k < 512
  {
    hide LongHead;
  }

  lemma LongInode()
    ensures LongVolume().InodeAt(1).size == 20000 && LongVolume().InodeAt(1).blocks[0] == 8
  {
    var v, f := LongVolume(), LongInodeFields();
    hide Ext2.InodeFields.Bytes, Ext2.Volume.InodeAt, Ext2.Volume.BlockByte, LongHead, LongInodeFields;
    forall k | 0 <= k < Ext2.INODE_BYTES
      ensures v.TableByte((1 - 1) * v.inodeSize + k) == f.Bytes()[k]
    {
      LongSectors(k);
      assert v.TableByte(k) == v.BlockByte(5, k);
    }
    Ext2.InodeStored(v, 1, f);
    LongFields();
  }

  lemma LongFields()
    ensures LongInodeFields().size == 20000 && LongInodeFields().blocks[0] == 8
  {
  }
}
