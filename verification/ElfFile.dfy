/** fs/elf.h: the ELF header and the program headers as bytes, and what the loader makes of a file that
    starts with them. */
module ElfFile {
  import opened Bits
  import opened Memory
  import opened Elf

  /** elf32_hdr_t */
  datatype HeaderFields = HeaderFields(ident: seq<u8>, etype: u16, machine: u16, version: u32, entry: u32, phoff: u32,
      shoff: u32, flags: u32, ehsize: u16, phentsize: u16, phnum: u16, shentsize: u16, shnum: u16, shstrndx: u16) {
    predicate Valid() {
      |ident| == 16
    }

    function Bytes(): (b: seq<u8>)
      requires Valid()
      ensures |b| == 52
    {
      ident + Word2(etype) + Word2(machine) + Words([version, entry, phoff, shoff, flags])
      + Word2(ehsize) + Word2(phentsize) + Word2(phnum) + Word2(shentsize) + Word2(shnum) + Word2(shstrndx)
    }

    /** Where program header i lies. */
    function At(i: nat): nat {
      phoff + i * phentsize
    }
  }

  /** elf32_phdr_t */
  datatype PhdrFields = PhdrFields(ptype: u32, offset: u32, vaddr: u32, paddr: u32, filesz: u32, memsz: u32,
      flags: u32, align: u32) {
    function Bytes(): (b: seq<u8>)
      ensures |b| == 32
    {
      Words([ptype, offset, vaddr, paddr, filesz, memsz, flags, align])
    }
  }

  /** The header h is where a file starts. */
  ghost predicate Starts(h: HeaderFields, file: seq<u8>) {
    h.Valid() && |file| >= 52 && file[..52] == h.Bytes()
  }

  /** Parsing the bytes of a header gives back its entry point and its program header table, and it is an
      ELF header exactly when it begins with 0x7F, 'E', 'L', 'F'. */
  lemma HeaderRoundTrip(h: HeaderFields, file: seq<u8>)
    requires Starts(h, file)
    ensures var p := ParseHeader(file);
      p.entry == h.entry && p.phoff == h.phoff && p.phentsize == h.phentsize && p.phnum == h.phnum
    ensures Magic(file) <==> h.ident[..4] == [0x7F, 0x45, 0x4C, 0x46]
  {
    HeaderPlaces(h, file);
    hide HeaderFields.Bytes, Words, Word2, U16, U32;
    WordsAt(file, 20, [h.version, h.entry, h.phoff, h.shoff, h.flags], 1);
    WordsAt(file, 20, [h.version, h.entry, h.phoff, h.shoff, h.flags], 2);
    Word2At(file, 42, h.phentsize);
    Word2At(file, 44, h.phnum);
    assert forall k :: 0 <= k < 4 ==> file[k] == h.ident[k];
  }

  lemma HeaderPlaces(h: HeaderFields, file: seq<u8>)
    requires Starts(h, file)
    ensures file[..16] == h.ident
    ensures file[20..40] == Words([h.version, h.entry, h.phoff, h.shoff, h.flags])
    ensures file[42..44] == Word2(h.phentsize) && file[44..46] == Word2(h.phnum)
  {
    var a, words := h.ident + Word2(h.etype) + Word2(h.machine), Words([h.version, h.entry, h.phoff, h.shoff, h.flags]);
    var b := Word2(h.shentsize) + Word2(h.shnum) + Word2(h.shstrndx);
    var size, psize, num := Word2(h.ehsize), Word2(h.phentsize), Word2(h.phnum);
    assert |a| == 20 && |words| == 20 && |size| == 2 && |psize| == 2 && |num| == 2 && |b| == 6;
    assert a[..16] == h.ident;
    assert h.Bytes() == a + words + size + psize + num + b;
    hide Words, Word2, HeaderFields.Bytes;
    Pieces(file, a, words, size, psize, num, b);
  }

  lemma Pieces(file: seq<u8>, a: seq<u8>, words: seq<u8>, size: seq<u8>, psize: seq<u8>, num: seq<u8>, b: seq<u8>)
    requires |a| == 20 && |words| == 20 && |size| == 2 && |psize| == 2 && |num| == 2 && |b| == 6 && |file| >= 52
    requires file[..52] == a + words + size + psize + num + b
    ensures file[..16] == a[..16] && file[20..40] == words && file[42..44] == psize && file[44..46] == num
  {
    var s := file[..52];
    assert s[..16] == a[..16];
    assert s[20..40] == words;
    assert s[42..44] == psize;
    assert s[44..46] == num;
  }

  /** Parsing the bytes of a program header gives back its fields. */
  lemma PhdrRoundTrip(p: PhdrFields, file: seq<u8>, o: nat)
    requires o + 32 <= |file| && file[o..o + 32] == p.Bytes()
    ensures ParsePhdr(file, o) == Phdr(p.ptype, p.offset, p.vaddr, p.filesz, p.memsz)
  {
    var ws := [p.ptype, p.offset, p.vaddr, p.paddr, p.filesz, p.memsz, p.flags, p.align];
    assert p.Bytes() == Words(ws);
    hide Words, U32, PhdrFields.Bytes;
    WordsAt(file, o, ws, 0);
    WordsAt(file, o, ws, 1);
    WordsAt(file, o, ws, 2);
    WordsAt(file, o, ws, 4);
    WordsAt(file, o, ws, 5);
  }

  /** A file that starts with a header and holds the program headers where that says: the loader sees
      exactly those, in order. */
  lemma FileRoundTrip(h: HeaderFields, ps: seq<PhdrFields>, file: seq<u8>)
    requires Starts(h, file) && |ps| == h.phnum
    requires forall i :: 0 <= i < |ps| ==> h.At(i) + 32 <= |file| && file[h.At(i)..h.At(i) + 32] == ps[i].Bytes()
    ensures TableInFile(file) && |Headers(file)| == |ps|
    ensures forall i :: 0 <= i < |ps| ==>
        Headers(file)[i] == Phdr(ps[i].ptype, ps[i].offset, ps[i].vaddr, ps[i].filesz, ps[i].memsz)
  {
    HeaderRoundTrip(h, file);
    hide ParsePhdr, PhdrFields.Bytes, HeaderFields.Bytes;
    var p := ParseHeader(file);
    hide ParseHeader;
    forall i | 0 <= i < h.phnum
      ensures HeaderOffset(p, i) == h.At(i)
      ensures HeaderOffset(p, i) + 32 <= |file|
    {
    }
    forall i | 0 <= i < |ps|
      ensures Headers(file)[i] == Phdr(ps[i].ptype, ps[i].offset, ps[i].vaddr, ps[i].filesz, ps[i].memsz)
    {
      PhdrRoundTrip(ps[i], file, h.At(i));
    }
  }
}
