/** fs/elf.c: loading a program. What a process sees through its page directory is what the
    PT_LOAD segments describe, and nothing that was in memory before is disturbed. */
module Elf {
  import opened Bits
  import opened Memory
  import opened Machines
  import opened Pmm

  const MAX_ELF_SIZE := 65536
  const PT_LOAD := 1
  const USER_STACK_VIRT: u32 := 0x4010_0000
  const STACK_PAGE := 0x4_0100  // USER_STACK_VIRT / PAGE

  // ----- program headers -----

  datatype Phdr = Phdr(ptype: u32, offset: u32, vaddr: u32, filesz: u32, memsz: u32) {
    /** First page, and the page after the last one, as the loader computes them. */
    function First(): nat {
      vaddr / PAGE
    }

    function End(): nat {
      Wrap(vaddr + memsz + 0xFFF) / PAGE
    }

    predicate Covers(v: nat) {
      ptype == PT_LOAD && First() <= v < End()
    }

    function PageCount(): nat {
      if ptype == PT_LOAD && First() < End() then End() - First() else 0
    }

    /** The segment's part of the file lies inside it. */
    predicate Fits(size: nat) {
      offset + filesz <= size
    }

    /** Where the part that the file has ends in memory: nowhere, if that is past the address space. */
    function FileEnd(): nat {
      if vaddr + filesz < WORD then vaddr + filesz else 0
    }

    /** The byte the segment puts at address a, unless that comes from before the file. */
    function ByteAt(file: seq<u8>, a: nat): u8
      requires Fits(|file|) && vaddr <= offset + a
    {
      if a < FileEnd() then file[offset + a - vaddr] else 0
    }
  }

  /** What a user page holds: part of a segment, or the initial stack. */
  datatype Source = Segment(ph: Phdr) | Stack

  /** The pages of a process after its first n program headers, and what each one holds. */
  ghost function Layout(phs: seq<Phdr>, n: nat): map<nat, Source>
    requires n <= |phs|
  {
    if n == 0 then map[]
    else Layout(phs, n - 1) + Pages(phs[n - 1], phs[n - 1].First(), phs[n - 1].End())
  }

  /** Pages lo..hi of a segment, if it is loadable. */
  ghost function Pages(ph: Phdr, lo: nat, hi: nat): map<nat, Source> {
    map v | 0 <= v < hi && From(v, lo) && ph.ptype == PT_LOAD :: Segment(ph)
  }

  predicate From(v: nat, lo: nat) {
    lo <= v
  }

  /** Where segments share a page, the last one wins. */
  lemma {:induction false} LastSegmentWins(phs: seq<Phdr>, n: nat, i: nat, v: nat)
    requires i < n <= |phs| && phs[i].Covers(v)
    requires forall j :: i < j < n ==> !phs[j].Covers(v)
    ensures v in Layout(phs, n) && Layout(phs, n)[v] == Segment(phs[i])
  {
    if i < n - 1 {
      LastSegmentWins(phs, n - 1, i, v);
    }
  }

  lemma {:induction false} LaidOutIffCovered(phs: seq<Phdr>, n: nat, v: nat)
    requires n <= |phs|
    ensures v in Layout(phs, n) <==> exists i :: 0 <= i < n && phs[i].Covers(v)
  {
    if n > 0 {
      LaidOutIffCovered(phs, n - 1, v);
      assert phs[n - 1].Covers(v) <==> v in Pages(phs[n - 1], phs[n - 1].First(), phs[n - 1].End());
    }
  }

  /** Page v holds what its source describes: of a segment that starts inside its first page, the
      bytes before its start are those that precede it in the file, or in memory. */
  ghost predicate Holds(p: Page, file: seq<u8>, src: Source, v: nat) {
    match src
    case Stack => p == ZeroPage()
    case Segment(ph) =>
      && ph.Fits(|file|) && ph.First() <= v
      && forall o :: 0 <= o < PAGE && ph.vaddr <= ph.offset + v * PAGE + o ==>
           GetByte(p, o) == ph.ByteAt(file, v * PAGE + o)
  }

  /** The segment's pages all lie in slots that the kernel directory leaves to processes. */
  ghost predicate InUserSlots(kd: Page, ph: Phdr) {
    forall v :: ph.First() <= v < ph.End() ==> UserSlot(kd, v)
  }

  function PageOf(a: u32): (v: nat)
    ensures v < PAGES
  {
    a / PAGE
  }

  // ----- a process under construction -----

  ghost function Slots(vs: set<nat>): set<nat> {
    set v | v in vs :: v / 1024
  }

  /** A slot the kernel directory leaves to processes. */
  predicate UserSlot(kd: Page, v: nat)
    requires v < PAGES
  {
    !Present(kd[v / 1024])
  }

  /** Directory pd: the kernel's entries, and private tables exactly where the process has pages. */
  ghost predicate Directories(m: Ram, own: Owners, pd: nat, kd: Page, vs: set<nat>) {
    && pd < |m|
    && forall i :: 0 <= i < 1024 ==> SlotBuilt(m, own, pd, kd, vs, i)
  }

  ghost predicate SlotBuilt(m: Ram, own: Owners, pd: nat, kd: Page, vs: set<nat>, i: nat)
    requires pd < |m| && i < 1024
  {
    if Present(kd[i]) then m[pd][i] == kd[i]
    else
      && (Present(m[pd][i]) <==> i in Slots(vs))
      && (Present(m[pd][i]) ==>
            && FrameOf(m[pd][i]) in own && own[FrameOf(m[pd][i])] == Table(pd, i)
            && Writable(m[pd][i]) && UserOk(m[pd][i]))
  }

  /** Each page of the process has its own frame fm[v], with the right contents. */
  ghost predicate Backed(m: Ram, own: Owners, pd: nat, kd: Page, img: map<nat, Source>, fm: map<nat, nat>,
      file: seq<u8>) {
    && fm.Keys == img.Keys
    && (forall v, w :: v in fm && w in fm && fm[v] == fm[w] ==> v == w)
    && forall v :: v in img ==>
         && v < PAGES && UserSlot(kd, v)
         && fm[v] in own && own[fm[v]] == UserPage(pd) && fm[v] < |m| && fm[v] < PAGES
         && Holds(m[fm[v]], file, img[v], v)
  }

  ghost predicate Translates(m: Ram, pd: nat, kd: Page, fm: map<nat, nat>) {
    && pd < |m|
    && forall v :: 0 <= v < PAGES && UserSlot(kd, v) ==>
         Walk(m, pd, v) == if v in fm then Some(Leaf(fm[v], true, true)) else None
  }

  ghost predicate Built(m: Ram, own: Owners, pd: nat, kd: Page, img: map<nat, Source>, fm: map<nat, nat>,
      file: seq<u8>) {
    && Owned(m, own, KERNEL_PD) && IsDirectory(own, pd) && pd != KERNEL_PD && m[KERNEL_PD] == kd
    && Directories(m, own, pd, kd, img.Keys)
    && Backed(m, own, pd, kd, img, fm, file)
    && Translates(m, pd, kd, fm)
  }

  /** A process directory uses the kernel's tables only where the kernel directory does. */
  lemma BuiltStraight(m: Ram, own: Owners, pd: nat, kd: Page, img: map<nat, Source>, fm: map<nat, nat>, file: seq<u8>)
    requires Built(m, own, pd, kd, img, fm, file)
    ensures Straight(m, own, KERNEL_PD, pd)
  {
    forall i | 0 <= i < 1024
      ensures StraightAt(m, own, KERNEL_PD, pd, i)
    {
      assert SlotBuilt(m, own, pd, kd, img.Keys, i);
      assert SlotOk(m, own, KERNEL_PD, KERNEL_PD, i);
    }
  }

  /** A fresh copy of the kernel directory is a process without pages. */
  lemma EmptyProcess(m: Ram, own: Owners, pd: nat, file: seq<u8>)
    requires Owned(m, own, KERNEL_PD) && pd !in own && pd < |m|
    ensures Built(m[pd := m[KERNEL_PD]], own[pd := Directory], pd, m[KERNEL_PD], map[], map[], file)
  {
    TakeDirectory(m, m[pd := m[KERNEL_PD]], own, KERNEL_PD, pd);
  }

  /** Filling a free frame f leaves a process under construction as it was. */
  lemma FillFrame(m: Ram, own: Owners, pd: nat, kd: Page, img: map<nat, Source>, fm: map<nat, nat>, file: seq<u8>,
      f: nat, p: Page, o: Owner)
    requires Built(m, own, pd, kd, img, fm, file)
    requires f !in own && f < |m| && (o.UserPage? || o.KernelStack?)
    ensures Built(m[f := p], own[f := o], pd, kd, img, fm, file)
  {
    var m', own' := m[f := p], own[f := o];
    TakeData(m, m', own, KERNEL_PD, f, o);
    forall v | 0 <= v < PAGES
      ensures Walk(m', pd, v) == Walk(m, pd, v)
    {
      WalkFrame(m, m', own, KERNEL_PD, pd, v);
    }
    forall i | 0 <= i < 1024
      ensures SlotBuilt(m', own', pd, kd, img.Keys, i)
    {
      assert SlotBuilt(m, own, pd, kd, img.Keys, i);
    }
  }

  /** Mapping page v to a filled frame adds it to the process. */
  lemma EnterPage(m: Ram, own: Owners, pd: nat, kd: Page, img: map<nat, Source>, fm: map<nat, nat>, file: seq<u8>,
      v: nat, f: nat, src: Source, g: nat)
    requires Built(m, own, pd, kd, img, fm, file)
    requires v < PAGES && UserSlot(kd, v)
    requires f in own && own[f] == UserPage(pd) && f < |m| && f < PAGES && Holds(m[f], file, src, v)
    requires f !in fm.Values
    requires CanMap(m, own, KERNEL_PD, pd, v, g, ALL)
    ensures Built(Mapped(m, pd, v, Entry(f, ALL), g, ALL), MappedOwners(m, own, pd, v, g), pd, kd, img[v := src],
        fm[v := f], file)
  {
    hide Directories, Backed, Translates, Holds;
    var e := Entry(f, ALL);
    EnterKernel(m, own, pd, v, e, g);
    EnterSlots(m, own, pd, kd, img.Keys, v, e, g);
    hide Mapped, MappedOwners, Owned, CanMap;
    assert (img[v := src]).Keys == img.Keys + {v};
    EnterTranslates(m, own, pd, kd, img.Keys, fm, v, f, g);
    EnterBacked(m, own, pd, kd, img, fm, file, v, f, src, g);
  }

  lemma EnterKernel(m: Ram, own: Owners, pd: nat, v: nat, e: u32, g: nat)
    requires CanMap(m, own, KERNEL_PD, pd, v, g, ALL) && pd != KERNEL_PD
    ensures var m', own' := Mapped(m, pd, v, e, g, ALL), MappedOwners(m, own, pd, v, g);
      Owned(m', own', KERNEL_PD) && IsDirectory(own', pd) && m'[KERNEL_PD] == m[KERNEL_PD]
  {
    MapKeeps(m, own, KERNEL_PD, pd, v, e, g, ALL);
  }

  /** Where the kernel directory leaves a slot to processes, the process has its own table or none. */
  lemma OwnSlot(m: Ram, own: Owners, pd: nat, kd: Page, vs: set<nat>, v: nat)
    requires Directories(m, own, pd, kd, vs) && v < PAGES && UserSlot(kd, v)
    ensures Private(m, own, pd, v / 1024)
  {
    assert SlotBuilt(m, own, pd, kd, vs, v / 1024);
  }

  lemma EnterTranslates(m: Ram, own: Owners, pd: nat, kd: Page, vs: set<nat>, fm: map<nat, nat>, v: nat, f: nat, g: nat)
    requires Directories(m, own, pd, kd, vs) && Translates(m, pd, kd, fm)
    requires v < PAGES && UserSlot(kd, v) && f < PAGES && pd != KERNEL_PD
    requires CanMap(m, own, KERNEL_PD, pd, v, g, ALL)
    ensures Translates(Mapped(m, pd, v, Entry(f, ALL), g, ALL), pd, kd, fm[v := f])
  {
    var e := Entry(f, ALL);
    EntryFields(f, ALL);
    assert SlotBuilt(m, own, pd, kd, vs, v / 1024);
    if !Present(m[pd][v / 1024]) {
      EntryFields(g, ALL);
    }
    assert Combine(SlotFor(m, pd, v, g, ALL), e) == Some(Leaf(f, true, true));
    forall v' | 0 <= v' < PAGES && UserSlot(kd, v')
      ensures Walk(Mapped(m, pd, v, e, g, ALL), pd, v')
          == if v' in fm[v := f] then Some(Leaf(fm[v := f][v'], true, true)) else None
    {
      MapPrivate(m, own, KERNEL_PD, pd, v, e, g, ALL, pd, v');
    }
  }

  lemma EnterBacked(m: Ram, own: Owners, pd: nat, kd: Page, img: map<nat, Source>, fm: map<nat, nat>, file: seq<u8>,
      v: nat, f: nat, src: Source, g: nat)
    requires Backed(m, own, pd, kd, img, fm, file)
    requires v < PAGES && UserSlot(kd, v)
    requires f in own && own[f] == UserPage(pd) && f < |m| && f < PAGES && Holds(m[f], file, src, v)
    requires f !in fm.Values
    requires CanMap(m, own, KERNEL_PD, pd, v, g, ALL)
    ensures Backed(Mapped(m, pd, v, Entry(f, ALL), g, ALL), MappedOwners(m, own, pd, v, g), pd, kd, img[v := src],
        fm[v := f], file)
  {
    MapKeeps(m, own, KERNEL_PD, pd, v, Entry(f, ALL), g, ALL);
    var m' := Mapped(m, pd, v, Entry(f, ALL), g, ALL);
    forall h | h in own && own[h] == UserPage(pd)
      ensures m'[h] == m[h]
    {
      assert h != pd && h != TableFor(m, pd, v, g);
    }
  }

  lemma EnterSlots(m: Ram, own: Owners, pd: nat, kd: Page, vs: set<nat>, v: nat, e: u32, g: nat)
    requires v < PAGES && UserSlot(kd, v) && Directories(m, own, pd, kd, vs)
    requires CanMap(m, own, KERNEL_PD, pd, v, g, ALL)
    ensures Directories(Mapped(m, pd, v, e, g, ALL), MappedOwners(m, own, pd, v, g), pd, kd, vs + {v})
    ensures Present(m[pd][v / 1024]) <==> v / 1024 in Slots(vs)
    ensures |Slots(vs + {v})| == |Slots(vs)| + if Present(m[pd][v / 1024]) then 0 else 1
  {
    var m', own' := Mapped(m, pd, v, e, g, ALL), MappedOwners(m, own, pd, v, g);
    MapKeeps(m, own, KERNEL_PD, pd, v, e, g, ALL);
    assert SlotBuilt(m, own, pd, kd, vs, v / 1024);
    assert Slots(vs + {v}) == Slots(vs) + {v / 1024};
    if v / 1024 in Slots(vs) {
      assert Slots(vs) + {v / 1024} == Slots(vs);
    }
    forall i | 0 <= i < 1024
      ensures SlotBuilt(m', own', pd, kd, vs + {v}, i)
    {
      assert SlotBuilt(m, own, pd, kd, vs, i);
      if i == v / 1024 && !Present(m[pd][i]) {
        EntryFields(g, ALL);
      }
    }
  }

  // ----- accounting -----

  /** The frames `taken` have been put to use, and none given up. */
  ghost predicate Grown(own0: Owners, own: Owners, taken: set<nat>) {
    && (forall f :: f in own0 ==> f in own && own[f] == own0[f])
    && (forall f :: f in own <==> f in own0 || f in taken)
    && own0.Keys !! taken
  }

  lemma GrowOne(own0: Owners, own: Owners, taken: set<nat>, f: nat, o: Owner)
    requires Grown(own0, own, taken) && f !in own
    ensures Grown(own0, own[f := o], taken + {f})
  {
  }

  /** Where a load started: the new directory, and the memory before it. */
  datatype Start = Start(pd: nat, m0: Ram, own0: Owners, s0: Frames)

  /** A load in progress: the pages so far, their frames, and all the frames taken. */
  datatype Progress = Progress(at: Start, img: map<nat, Source>, fm: map<nat, nat>, taken: set<nat>)

  /** Nothing in use before the load has changed, and the process is built up to `g.img`. */
  ghost predicate LoadingIn(m: Ram, own: Owners, s: Frames, file: seq<u8>, g: Progress) {
    && Consistent(m, own, s)
    && Owned(g.at.m0, g.at.own0, KERNEL_PD) && g.at.pd !in g.at.own0
    && Built(m, own, g.at.pd, g.at.m0[KERNEL_PD], g.img, g.fm, file)
    && Grown(g.at.own0, own, g.taken) && Took(g.at.s0, s, g.taken)
    && AgreeOn(g.at.m0, m, g.at.own0.Keys)
  }

  ghost predicate Loading(mach: Machine, file: seq<u8>, g: Progress)
    reads mach`own, mach.ram, mach.pmm`total, mach.pmm`free, mach.pmm.bitmap
  {
    mach.ram.Length == FRAMES && mach.pmm.Valid() && LoadingIn(mach.ram[..], mach.own, mach.pmm.State(), file, g)
  }

  /** Mapping a page of the new process touches nothing that was in use before. */
  lemma MapAvoids(m0: Ram, own0: Owners, m: Ram, own: Owners, pd: nat, v: nat, e: u32, g: nat, taken: set<nat>)
    requires Owned(m0, own0, KERNEL_PD) && pd !in own0 && Grown(own0, own, taken)
    requires CanMap(m, own, KERNEL_PD, pd, v, g, ALL) && Private(m, own, pd, v / 1024) && AgreeOn(m0, m, own0.Keys)
    ensures AgreeOn(m0, Mapped(m, pd, v, e, g, ALL), own0.Keys)
  {
    MapKeeps(m, own, KERNEL_PD, pd, v, e, g, ALL);
    forall h | h in own0
      ensures h != TableFor(m, pd, v, g) && h != pd
    {
      assert own0[h].Table? ==> own0[h].dir != pd;
    }
  }

  /** Progress after page v has been mapped to `frame`, f being the frame for a new page table. */
  ghost function AfterMap(m: Ram, g: Progress, v: nat, frame: nat, src: Source, f: nat): Progress
    requires g.at.pd < |m| && v < PAGES
  {
    g.(img := g.img[v := src], fm := g.fm[v := frame],
       taken := if Present(m[g.at.pd][v / 1024]) then g.taken else g.taken + {f})
  }

  lemma MapProgress(m: Ram, own: Owners, s: Frames, s': Frames, file: seq<u8>, g: Progress, v: nat, frame: nat,
      src: Source, f: nat)
    requires LoadingIn(m, own, s, file, g) && v < PAGES && UserSlot(g.at.m0[KERNEL_PD], v)
    requires frame in own && own[frame] == UserPage(g.at.pd) && frame < |m| && frame < PAGES
        && Holds(m[frame], file, src, v)
    requires frame !in g.fm.Values
    requires CanMap(m, own, KERNEL_PD, g.at.pd, v, f, ALL)
    requires Took(s, s', if Present(m[g.at.pd][v / 1024]) then {} else {f})
    ensures LoadingIn(Mapped(m, g.at.pd, v, Entry(frame, ALL), f, ALL), MappedOwners(m, own, g.at.pd, v, f), s', file,
        AfterMap(m, g, v, frame, src, f))
    ensures |AfterMap(m, g, v, frame, src, f).taken| + |Slots(g.img.Keys)| == |g.taken| + |Slots(g.img.Keys + {v})|
  {
    var e := Entry(frame, ALL);
    EnterPage(m, own, g.at.pd, g.at.m0[KERNEL_PD], g.img, g.fm, file, v, frame, src, f);
    EnterSlots(m, own, g.at.pd, g.at.m0[KERNEL_PD], g.img.Keys, v, e, f);
    OwnSlot(m, own, g.at.pd, g.at.m0[KERNEL_PD], g.img.Keys, v);
    MapAvoids(g.at.m0, g.at.own0, m, own, g.at.pd, v, e, f, g.taken);
    MapKeeps(m, own, KERNEL_PD, g.at.pd, v, e, f, ALL);
    if !Present(m[g.at.pd][v / 1024]) {
      TakeConsistent(m, own, s, s', f, Mapped(m, g.at.pd, v, e, f, ALL), Table(g.at.pd, v / 1024));
      GrowOne(g.at.own0, own, g.taken, f, Table(g.at.pd, v / 1024));
      TookMore(g.at.s0, s, g.taken, s', f);
    }
  }

  /** Progress after a free frame has been filled with p. */
  lemma FillProgress(m: Ram, own: Owners, s: Frames, s': Frames, file: seq<u8>, g: Progress, frame: nat, p: Page,
      o: Owner)
    requires LoadingIn(m, own, s, file, g) && Took(s, s', {frame})
    requires frame !in own && frame < |m| && (o.UserPage? || o.KernelStack?)
    ensures LoadingIn(m[frame := p], own[frame := o], s', file, g.(taken := g.taken + {frame}))
    ensures |g.taken + {frame}| == |g.taken| + 1
    ensures frame !in g.fm.Values
  {
    FillFrame(m, own, g.at.pd, g.at.m0[KERNEL_PD], g.img, g.fm, file, frame, p, o);
    TakeConsistent(m, own, s, s', frame, m[frame := p], o);
    GrowOne(g.at.own0, own, g.taken, frame, o);
    TookMore(g.at.s0, s, g.taken, s', frame);
  }

  // ----- the code -----

  /** proc_alloc_pd. */
  method AllocPd(mach: Machine, ghost file: seq<u8>) returns (pd: nat)
    requires mach.Valid() && LowFree(mach.pmm.State()) != {}
    modifies mach.ram, mach.pmm`free, mach.pmm.bitmap, mach`own
    ensures mach.Valid() && pd !in old(mach.own) && pd < IDENTITY
    ensures Took(old(mach.pmm.State()), mach.pmm.State(), {pd})
    ensures mach.own == old(mach.own)[pd := Directory]
    ensures mach.ram[..] == old(mach.ram[..])[pd := old(mach.ram[KERNEL_PD])]
    ensures Built(mach.ram[..], mach.own, pd, old(mach.ram[KERNEL_PD]), map[], map[], file)
  {
    ghost var m, own, s := mach.ram[..], mach.own, mach.pmm.State();
    pd := mach.TakeFrame();
    mach.own := own[pd := Directory];
    mach.CopyWords(pd, KERNEL_PD);
    EmptyProcess(m, own, pd, file);
    TakeConsistent(m, own, s, mach.pmm.State(), pd, mach.ram[..], Directory);
  }

  /** `file` is what elf_buf holds, or the first part of it. A page may reach back before elf_buf. */
  ghost predicate FileIn(buf: Buffer, file: seq<u8>)
    reads buf.bytes
  {
    && buf.before.Length == PAGE && buf.bytes.Length == MAX_ELF_SIZE
    && |file| <= MAX_ELF_SIZE && file == buf.bytes[..|file|]
  }

  /** Steps a and b of the page loop: zero the frame, then copy what the file has for the page. */
  method FillPage(mach: Machine, buf: Buffer, ghost file: seq<u8>, ph: Phdr, vaddr: u32, frame: nat)
    requires mach.ram.Length == FRAMES && frame < FRAMES && FileIn(buf, file)
    requires ph.Fits(|file|) && vaddr % PAGE == 0 && ph.First() <= PageOf(vaddr)
    modifies mach.ram
    ensures mach.ram[..] == old(mach.ram[..])[frame := mach.ram[frame]]
    ensures Holds(mach.ram[frame], file, Segment(ph), PageOf(vaddr))
  {
    hide GetByte;
    mach.ZeroBytes(frame);
    Memory.ZeroBytes();
    ghost var copied, at := 0, 0;
    FilePart(ph, |file|, vaddr);
    if vaddr < Wrap(ph.vaddr + ph.filesz) {
      SourceOffset(ph, |file|, vaddr);
      var srcOff := Wrap(ph.offset + Wrap(vaddr - ph.vaddr));
      var bytes := 4096;
      var avail := Wrap(ph.offset + ph.filesz - srcOff);
      if bytes > avail {
        bytes := avail;
      }
      mach.CopyBytes(frame, buf, Signed(srcOff), bytes);
      copied := bytes;
      forall o | 0 <= o < copied && ph.vaddr <= ph.offset + vaddr + o
        ensures GetByte(mach.ram[frame], o) == file[ph.offset + vaddr - ph.vaddr + o]
      {
        assert buf.At(Signed(srcOff) + o) == buf.bytes[..|file|][ph.offset + vaddr - ph.vaddr + o];
      }
    }
    PageHolds(mach.ram[frame], file, ph, vaddr, copied);
  }

  /** A page with the right bytes of the file, and zeros after them. */
  lemma PageHolds(p: Page, file: seq<u8>, ph: Phdr, vaddr: u32, copied: nat)
    requires ph.Fits(|file|) && vaddr % PAGE == 0 && ph.First() <= PageOf(vaddr)
    requires
      if vaddr < ph.FileEnd() then
        copied <= PAGE && (copied == PAGE || copied == ph.FileEnd() - vaddr) && vaddr + copied <= ph.FileEnd()
      else copied == 0
    requires forall o :: 0 <= o < copied && ph.vaddr <= ph.offset + vaddr + o ==>
               GetByte(p, o) == file[ph.offset + vaddr - ph.vaddr + o]
    requires forall o :: copied <= o < PAGE ==> GetByte(p, o) == 0
    ensures Holds(p, file, Segment(ph), PageOf(vaddr))
  {
    hide GetByte;
    assert PageOf(vaddr) * PAGE == vaddr;
    forall o | 0 <= o < PAGE && ph.vaddr <= ph.offset + vaddr + o
      ensures GetByte(p, o) == ph.ByteAt(file, vaddr + o)
    {
    }
  }

  /** The 32-bit end of the part that the file has decides as its true end does; when it wraps, it lies
      below every page of the segment. */
  lemma FilePart(ph: Phdr, size: nat, vaddr: u32)
    requires ph.Fits(size) && size <= MAX_ELF_SIZE && vaddr % PAGE == 0 && ph.First() <= PageOf(vaddr)
    ensures vaddr < Wrap(ph.vaddr + ph.filesz) <==> vaddr < ph.FileEnd()
  {
    assert vaddr >= ph.vaddr - ph.vaddr % PAGE;
  }

  /** The 32-bit source offset stands for a difference that may be negative. */
  lemma SourceOffset(ph: Phdr, size: nat, vaddr: u32)
    requires ph.Fits(size) && size <= MAX_ELF_SIZE && vaddr % PAGE == 0 && ph.First() <= PageOf(vaddr)
    requires vaddr < ph.FileEnd()
    ensures var srcOff := Wrap(ph.offset + Wrap(vaddr - ph.vaddr));
      && Signed(srcOff) == ph.offset + vaddr - ph.vaddr
      && -PAGE < Signed(srcOff) < ph.offset + ph.filesz
      && Wrap(ph.offset + ph.filesz - srcOff) == ph.vaddr + ph.filesz - vaddr
  {
    assert vaddr >= ph.vaddr - ph.vaddr % PAGE;
  }

  lemma MapReady(m: Ram, own: Owners, s: Frames, file: seq<u8>, g: Progress, v: nat)
    requires LoadingIn(m, own, s, file, g) && v < PAGES && UserSlot(g.at.m0[KERNEL_PD], v)
    requires v / 1024 in Slots(g.img.Keys) || |LowFree(g.at.s0)| > |g.taken|
    ensures Consistent(m, own, s) && |m| == FRAMES && IsDirectory(own, g.at.pd) && g.at.pd < |m|
    ensures Private(m, own, g.at.pd, v / 1024)
    ensures Present(m[g.at.pd][v / 1024]) || LowFree(s) != {}
  {
    assert SlotBuilt(m, own, g.at.pd, g.at.m0[KERNEL_PD], g.img.Keys, v / 1024);
  }

  /** proc_map_page for a filled frame of the new process. */
  method MapPage(mach: Machine, ghost file: seq<u8>, ghost g: Progress, pd: nat, virt: u32, frame: nat,
      ghost src: Source)
    returns (ghost g': Progress)
    requires Loading(mach, file, g) && g.at.pd == pd && virt % PAGE == 0
    requires UserSlot(g.at.m0[KERNEL_PD], PageOf(virt))
    requires frame in mach.own && mach.own[frame] == UserPage(pd) && Holds(mach.ram[frame], file, src, PageOf(virt))
    requires frame !in g.fm.Values
    requires PageOf(virt) / 1024 in Slots(g.img.Keys) || |LowFree(g.at.s0)| > |g.taken|
    modifies mach.ram, mach.pmm`free, mach.pmm.bitmap, mach`own
    ensures Loading(mach, file, g')
    ensures g'.at == g.at && g'.img == g.img[PageOf(virt) := src]
    ensures |g'.taken| + |Slots(g.img.Keys)| == |g.taken| + |Slots(g.img.Keys + {PageOf(virt)})|
  {
    ghost var m, own, s, v := mach.ram[..], mach.own, mach.pmm.State(), PageOf(virt);
    MapReady(m, own, s, file, g, v);
    hide LoadingIn, Consistent;
    ghost var f := mach.MapEntry(pd, virt, Entry(frame, ALL), ALL);
    MapProgress(m, own, s, mach.pmm.State(), file, g, v, frame, src, f);
    g' := AfterMap(m, g, v, frame, src, f);
  }

  /** The body of the page loop: a fresh frame, filled and mapped. */
  method LoadPage(mach: Machine, buf: Buffer, ghost file: seq<u8>, ghost g: Progress, ph: Phdr, pd: nat, vaddr: u32)
    returns (ghost g': Progress)
    requires FileIn(buf, file) && Loading(mach, file, g) && g.at.pd == pd
    requires ph.Fits(|file|) && vaddr % PAGE == 0 && ph.First() <= PageOf(vaddr)
        && UserSlot(g.at.m0[KERNEL_PD], PageOf(vaddr))
    requires |LowFree(g.at.s0)| >= |g.taken| + 2
    modifies mach.ram, mach.pmm`free, mach.pmm.bitmap, mach`own
    ensures Loading(mach, file, g')
    ensures g'.at == g.at && g'.img == g.img[PageOf(vaddr) := Segment(ph)]
    ensures |g'.taken| + |Slots(g.img.Keys)| == |g.taken| + 1 + |Slots(g.img.Keys + {PageOf(vaddr)})|
  {
    ghost var s := mach.pmm.State();
    var frame := TakeLow(mach, file, g);
    FillFor(mach, buf, file, g, s, ph, pd, vaddr, frame);
    g' := g.(taken := g.taken + {frame});
    g' := MapPage(mach, file, g', pd, vaddr, frame, Segment(ph));
  }

  /** pmm_alloc_page during a load with frames to spare. */
  method TakeLow(mach: Machine, ghost file: seq<u8>, ghost g: Progress) returns (frame: nat)
    requires Loading(mach, file, g) && |LowFree(g.at.s0)| > |g.taken|
    modifies mach.pmm`free, mach.pmm.bitmap
    ensures mach.ram.Length == FRAMES && mach.pmm.Valid()
    ensures frame !in mach.own && frame !in g.at.own0 && frame < IDENTITY
    ensures Took(old(mach.pmm.State()), mach.pmm.State(), {frame})
  {
    frame := mach.TakeFrame();
  }

  /** Fill a frame just taken (s is the allocator before that) and make it the process's. */
  method FillFor(mach: Machine, buf: Buffer, ghost file: seq<u8>, ghost g: Progress, ghost s: Frames, ph: Phdr,
      pd: nat, vaddr: u32, frame: nat)
    requires FileIn(buf, file) && g.at.pd == pd
    requires mach.ram.Length == FRAMES && mach.pmm.Valid() && LoadingIn(mach.ram[..], mach.own, s, file, g)
    requires Took(s, mach.pmm.State(), {frame}) && frame !in mach.own && frame < FRAMES
    requires ph.Fits(|file|) && vaddr % PAGE == 0 && ph.First() <= PageOf(vaddr)
    modifies mach.ram, mach`own
    ensures Loading(mach, file, g.(taken := g.taken + {frame}))
    ensures |g.taken + {frame}| == |g.taken| + 1
    ensures frame in mach.own && mach.own[frame] == UserPage(pd)
        && Holds(mach.ram[frame], file, Segment(ph), PageOf(vaddr))
    ensures frame !in g.fm.Values
  {
    hide LoadingIn;
    ghost var m, own := mach.ram[..], mach.own;
    mach.own := own[frame := UserPage(pd)];
    FillPage(mach, buf, file, ph, vaddr, frame);
    FillProgress(m, own, s, mach.pmm.State(), file, g, frame, mach.ram[frame], UserPage(pd));
  }

  // ----- the page loop -----

  /** Frames taken beyond one for each page table. */
  ghost function Net(g: Progress): int {
    |g.taken| - |Slots(g.img.Keys)|
  }

  /** g is g0 with the pages of the segment below v loaded. */
  ghost predicate InSegment(g0: Progress, g: Progress, ph: Phdr, v: nat) {
    && g.at == g0.at && g.img == g0.img + Pages(ph, ph.First(), v)
    && Net(g) == Net(g0) + v - ph.First()
  }

  /** Room for the whole segment: a frame for each page and for each slot of `all`. */
  ghost predicate Room(g0: Progress, ph: Phdr, all: set<nat>) {
    && Slots((g0.img + Pages(ph, ph.First(), ph.End())).Keys) <= all
    && Net(g0) + ph.PageCount() + |all| < |LowFree(g0.at.s0)|
  }

  lemma InSegmentStart(g: Progress, ph: Phdr)
    ensures InSegment(g, g, ph, ph.First())
  {
    assert g.img + Pages(ph, ph.First(), ph.First()) == g.img;
  }

  lemma InSegmentStep(g0: Progress, g: Progress, g': Progress, ph: Phdr, v: nat)
    requires InSegment(g0, g, ph, v) && ph.ptype == PT_LOAD && ph.First() <= v
    requires g'.at == g.at && g'.img == g.img[v := Segment(ph)]
    requires |g'.taken| + |Slots(g.img.Keys)| == |g.taken| + 1 + |Slots(g.img.Keys + {v})|
    ensures InSegment(g0, g', ph, v + 1)
  {
    PagesGrow(ph, v);
    hide Pages, Slots;
    assert g'.img == g0.img + Pages(ph, ph.First(), v + 1);
    assert g'.img.Keys == g.img.Keys + {v};
  }

  lemma PagesGrow(ph: Phdr, v: nat)
    requires ph.ptype == PT_LOAD && ph.First() <= v
    ensures Pages(ph, ph.First(), v + 1) == Pages(ph, ph.First(), v)[v := Segment(ph)]
  {
  }

  lemma InSegmentRoom(g0: Progress, g: Progress, ph: Phdr, v: nat, all: set<nat>)
    requires InSegment(g0, g, ph, v) && Room(g0, ph, all) && ph.ptype == PT_LOAD && ph.First() <= v < ph.End()
    ensures |LowFree(g.at.s0)| >= |g.taken| + 2
  {
    var final := (g0.img + Pages(ph, ph.First(), ph.End())).Keys;
    assert g.img.Keys <= final;
    assert Slots(g.img.Keys) <= Slots(final) <= all;
    assert all == Slots(g.img.Keys) + (all - Slots(g.img.Keys));
  }

  /** `a & ~0xFFF` */
  function Floor(a: u32): u32 {
    a / PAGE * PAGE
  }

  lemma AtPage(a: u32, v: nat)
    requires a == v * PAGE
    ensures PageOf(a) == v && a % PAGE == 0 && (v < PAGES - 1 ==> a + 4096 == (v + 1) * PAGE)
  {
  }

  lemma AddressOrder(a: u32, v: nat, b: u32, w: nat)
    requires a == v * PAGE && b == w * PAGE
    ensures a < b <==> v < w
  {
  }

  lemma InSegmentEnd(g0: Progress, g: Progress, ph: Phdr, v: nat)
    requires InSegment(g0, g, ph, v) && ph.ptype == PT_LOAD && ph.First() <= v
    requires v == ph.End() || (ph.End() <= v && v == ph.First())
    ensures g.at == g0.at && g.img == g0.img + Pages(ph, ph.First(), ph.End())
    ensures Net(g) == Net(g0) + ph.PageCount()
  {
    assert Pages(ph, ph.First(), v) == Pages(ph, ph.First(), ph.End());
  }

  method SegmentBounds(ph: Phdr) returns (vbase: u32, vend: u32)
    ensures vbase == ph.First() * PAGE && vend == ph.End() * PAGE
  {
    vbase := Floor(ph.vaddr);
    vend := Floor(Wrap(ph.vaddr + ph.memsz + 0xFFF));
  }

  /** One round of the page loop. */
  method SegmentRound(mach: Machine, buf: Buffer, ghost file: seq<u8>, ghost g0: Progress, ghost g: Progress,
      ph: Phdr, pd: nat, ghost all: set<nat>, vaddr: u32, ghost v: nat)
    returns (ghost g': Progress)
    requires FileIn(buf, file) && Loading(mach, file, g) && g.at.pd == pd
    requires ph.ptype == PT_LOAD && ph.Fits(|file|)
    requires vaddr == v * PAGE && ph.First() <= v < ph.End() && InUserSlots(g.at.m0[KERNEL_PD], ph)
    requires InSegment(g0, g, ph, v) && Room(g0, ph, all)
    modifies mach.ram, mach.pmm`free, mach.pmm.bitmap, mach`own
    ensures Loading(mach, file, g') && InSegment(g0, g', ph, v + 1)
  {
    AtPage(vaddr, v);
    InSegmentRoom(g0, g, ph, v, all);
    g' := LoadPage(mach, buf, file, g, ph, pd, vaddr);
    InSegmentStep(g0, g, g', ph, v);
  }

  /** The page loop of one segment. */
  method LoadSegment(mach: Machine, buf: Buffer, ghost file: seq<u8>, ghost g: Progress, ph: Phdr, pd: nat,
      ghost all: set<nat>)
    returns (ghost g': Progress)
    requires FileIn(buf, file) && Loading(mach, file, g) && g.at.pd == pd
    requires ph.ptype == PT_LOAD && (ph.First() < ph.End() ==> ph.Fits(|file|))
    requires InUserSlots(g.at.m0[KERNEL_PD], ph)
    requires Room(g, ph, all)
    modifies mach.ram, mach.pmm`free, mach.pmm.bitmap, mach`own
    ensures Loading(mach, file, g')
    ensures g'.at == g.at && g'.img == g.img + Pages(ph, ph.First(), ph.End())
    ensures Net(g') == Net(g) + ph.PageCount()
  {
    hide LoadingIn;
    ghost var lo, hi := ph.First(), ph.End();
    var vbase, vend := SegmentBounds(ph);
    var vaddr := vbase;
    ghost var v := lo;
    g' := g;
    InSegmentStart(g, ph);
    while vaddr < vend
      decreases hi - v
      invariant vaddr == v * PAGE && vend == hi * PAGE && lo <= v && (v <= hi || v == lo)
      invariant Loading(mach, file, g') && InSegment(g, g', ph, v)
    {
      assert v < hi by { AddressOrder(vaddr, v, vend, hi); }
      g' := SegmentRound(mach, buf, file, g, g', ph, pd, all, vaddr, v);
      vaddr := vaddr + 4096;
      v := v + 1;
    }
    assert hi <= v by { AddressOrder(vaddr, v, vend, hi); }
    InSegmentEnd(g, g', ph, v);
  }

  // ----- the file -----

  predicate Magic(b: seq<u8>)
    requires |b| >= 52
  {
    b[0] == 0x7F && b[1] == 'E' as int && b[2] == 'L' as int && b[3] == 'F' as int
  }

  /** Fields of the ELF header. */
  datatype Header = Header(entry: u32, phoff: u32, phentsize: nat, phnum: nat)

  function ParseHeader(b: seq<u8>): Header
    requires |b| >= 52
  {
    Header(U32(b, 24), U32(b, 28), U16(b, 42), U16(b, 44))
  }

  /** Program header at offset o of the file. */
  function ParsePhdr(b: seq<u8>, o: nat): Phdr
    requires o + 32 <= |b|
  {
    Phdr(U32(b, o), U32(b, o + 4), U32(b, o + 8), U32(b, o + 16), U32(b, o + 20))
  }

  /** The program header table lies inside the file. */
  ghost predicate TableInFile(b: seq<u8>) {
    |b| >= 52 && var h := ParseHeader(b); forall i :: 0 <= i < h.phnum ==> HeaderOffset(h, i) + 32 <= |b|
  }

  function HeaderOffset(h: Header, i: nat): nat {
    h.phoff + i * h.phentsize
  }

  /** The program headers, in order. */
  ghost function Headers(b: seq<u8>): (phs: seq<Phdr>)
    requires TableInFile(b)
  {
    var h := ParseHeader(b);
    seq(h.phnum, i requires 0 <= i < h.phnum => ParsePhdr(b, HeaderOffset(h, i)))
  }

  // ----- what a load needs and what it gives -----

  ghost function TotalPages(phs: seq<Phdr>, n: nat): nat
    requires n <= |phs|
  {
    if n == 0 then 0 else TotalPages(phs, n - 1) + phs[n - 1].PageCount()
  }

  /** The pages of the loaded process: its segments, and the stack over them. */
  ghost function Image(phs: seq<Phdr>): map<nat, Source> {
    Layout(phs, |phs|)[STACK_PAGE := Stack]
  }

  /** Directory, kernel stack, stack page, a frame for each page of each segment, and a frame for
      each page table. */
  ghost function Cost(phs: seq<Phdr>): nat {
    3 + TotalPages(phs, |phs|) + |Slots(Image(phs).Keys)|
  }

  /** The segment lies inside the file and in slots left to processes, if it has pages at all. */
  ghost predicate Placed(ph: Phdr, file: seq<u8>, kd: Page) {
    (ph.First() < ph.End() ==> ph.Fits(|file|)) && InUserSlots(kd, ph)
  }

  /** Loadable with kernel directory kd. */
  ghost predicate Loadable(file: seq<u8>, kd: Page) {
    && TableInFile(file)
    && UserSlot(kd, STACK_PAGE)
    && forall i :: 0 <= i < |Headers(file)| && Headers(file)[i].ptype == PT_LOAD ==>
         Placed(Headers(file)[i], file, kd)
  }

  /** The address space of directory pd: the kernel's own pages, and exactly the image. */
  ghost predicate Sees(m: Ram, pd: nat, kd: Page, img: map<nat, Source>, file: seq<u8>) {
    && pd < |m| && KERNEL_PD < |m|
    && forall v :: 0 <= v < PAGES ==> SeesPage(m, pd, kd, img, file, v)
  }

  ghost predicate SeesPage(m: Ram, pd: nat, kd: Page, img: map<nat, Source>, file: seq<u8>, v: nat)
    requires pd < |m| && KERNEL_PD < |m| && v < PAGES
  {
    if !UserSlot(kd, v) then Walk(m, pd, v) == Walk(m, KERNEL_PD, v)
    else if v in img then
      match Walk(m, pd, v)
      case None => false
      case Some(leaf) => leaf.write && leaf.user && leaf.frame < |m| && Holds(m[leaf.frame], file, img[v], v)
    else Walk(m, pd, v) == None
  }

  /** Every page that a process has of its own sits in a frame of its own. */
  ghost predicate OwnPages(m: Ram, own: Owners, pd: nat, kd: Page) {
    && pd < |m|
    && (forall v :: 0 <= v < PAGES && UserSlot(kd, v) && Walk(m, pd, v).Some? ==>
        FrameOwner(own, Walk(m, pd, v).value.frame, UserPage(pd)))
    && forall v, w :: 0 <= v < w < PAGES && UserSlot(kd, v) && UserSlot(kd, w)
                      && Walk(m, pd, v).Some? && Walk(m, pd, w).Some? ==>
         Walk(m, pd, v).value.frame != Walk(m, pd, w).value.frame
  }

  predicate FrameOwner(own: Owners, f: nat, o: Owner) {
    f in own && own[f] == o
  }

  lemma BuiltSees(m: Ram, own: Owners, pd: nat, kd: Page, img: map<nat, Source>, fm: map<nat, nat>, file: seq<u8>)
    requires Built(m, own, pd, kd, img, fm, file) && KERNEL_PD < |m|
    ensures Sees(m, pd, kd, img, file) && OwnPages(m, own, pd, kd)
  {
    forall v | 0 <= v < PAGES
      ensures SeesPage(m, pd, kd, img, file, v)
    {
      assert SlotBuilt(m, own, pd, kd, img.Keys, v / 1024);
    }
  }

  lemma {:induction false} LayoutGrows(phs: seq<Phdr>, i: nat, n: nat)
    requires i <= n <= |phs|
    ensures Layout(phs, i).Keys <= Layout(phs, n).Keys && TotalPages(phs, i) <= TotalPages(phs, n)
  {
    if i < n {
      LayoutGrows(phs, i, n - 1);
    }
  }

  // ----- the segment loop -----

  /** g is a load that has gone through the first i program headers. */
  ghost predicate Through(st: Start, g: Progress, phs: seq<Phdr>, i: nat) {
    i <= |phs| && g.at == st && g.img == Layout(phs, i) && Net(g) == 1 + TotalPages(phs, i)
  }

  lemma ThroughStart(g: Progress, phs: seq<Phdr>)
    requires g.img == map[] && |g.taken| == 1
    ensures Through(g.at, g, phs, 0)
  {
    assert Slots(g.img.Keys) == {};
  }

  lemma RoomFor(g: Progress, phs: seq<Phdr>, i: nat)
    requires i < |phs| && Through(g.at, g, phs, i) && Cost(phs) <= |LowFree(g.at.s0)|
    ensures Room(g, phs[i], Slots(Image(phs).Keys))
  {
    LayoutGrows(phs, i + 1, |phs|);
    assert Layout(phs, i + 1).Keys <= Image(phs).Keys;
  }

  lemma SkipHeader(st: Start, g: Progress, phs: seq<Phdr>, i: nat)
    requires i < |phs| && Through(st, g, phs, i) && phs[i].ptype != PT_LOAD
    ensures Through(st, g, phs, i + 1)
  {
    assert Layout(phs, i + 1) == Layout(phs, i);
  }

  lemma HeaderOk(file: seq<u8>, kd: Page, i: nat)
    requires Loadable(file, kd) && i < |Headers(file)| && Headers(file)[i].ptype == PT_LOAD
    ensures Placed(Headers(file)[i], file, kd)
  {
  }

  lemma Advance(st: Start, g: Progress, g': Progress, phs: seq<Phdr>, i: nat)
    requires i < |phs| && Through(st, g, phs, i) && phs[i].ptype == PT_LOAD
    requires g'.at == g.at && g'.img == g.img + Pages(phs[i], phs[i].First(), phs[i].End())
        && Net(g') == Net(g) + phs[i].PageCount()
    ensures Through(st, g', phs, i + 1)
  {
  }

  /** One round of the segment loop, for program header i. */
  method LoadHeader(mach: Machine, buf: Buffer, ghost file: seq<u8>, ghost g: Progress, pd: nat, ph: Phdr,
      ghost phs: seq<Phdr>, ghost i: nat)
    returns (ghost g': Progress)
    requires FileIn(buf, file) && Loading(mach, file, g) && g.at.pd == pd && KERNEL_PD < |g.at.m0|
    requires i < |phs| && ph == phs[i] && (ph.ptype == PT_LOAD ==> Placed(ph, file, g.at.m0[KERNEL_PD]))
    requires Through(g.at, g, phs, i) && Cost(phs) <= |LowFree(g.at.s0)|
    modifies mach.ram, mach.pmm`free, mach.pmm.bitmap, mach`own
    ensures Loading(mach, file, g') && Through(g.at, g', phs, i + 1) && g'.at == g.at
  {
    hide LoadingIn, InUserSlots, Cost;
    if ph.ptype != PT_LOAD {
      g' := g;
      SkipHeader(g.at, g', phs, i);
    } else {
      RoomFor(g, phs, i);
      g' := LoadSegment(mach, buf, file, g, ph, pd, Slots(Image(phs).Keys));
      Advance(g.at, g, g', phs, i);
    }
  }

  method ParseAndLoad(mach: Machine, buf: Buffer, ghost file: seq<u8>, ghost g: Progress, pd: nat, h: Header, i: nat)
    returns (ghost g': Progress)
    requires Loading(mach, file, g) && g.at.pd == pd && KERNEL_PD < |g.at.m0|
    requires FileIn(buf, file) && TableInFile(file) && h == ParseHeader(file) && Loadable(file, g.at.m0[KERNEL_PD])
    requires i < h.phnum && Through(g.at, g, Headers(file), i) && Cost(Headers(file)) <= |LowFree(g.at.s0)|
    modifies mach.ram, mach.pmm`free, mach.pmm.bitmap, mach`own
    ensures Loading(mach, file, g') && Through(g.at, g', Headers(file), i + 1) && g'.at == g.at
  {
    hide LoadingIn, Cost, Through, Loadable, Placed;
    assert i < |Headers(file)|;
    var ph := ParseAt(buf, file, h, i);
    if ph.ptype == PT_LOAD {
      HeaderOk(file, g.at.m0[KERNEL_PD], i);
    }
    g' := LoadHeader(mach, buf, file, g, pd, ph, Headers(file), i);
  }

  /** The loop over program headers. */
  method LoadSegments(mach: Machine, buf: Buffer, ghost file: seq<u8>, ghost g: Progress, pd: nat, h: Header)
    returns (ghost g': Progress)
    requires Loading(mach, file, g) && g.at.pd == pd && KERNEL_PD < |g.at.m0|
    requires FileIn(buf, file) && TableInFile(file) && h == ParseHeader(file) && Loadable(file, g.at.m0[KERNEL_PD])
    requires Through(g.at, g, Headers(file), 0) && Cost(Headers(file)) <= |LowFree(g.at.s0)|
    modifies mach.ram, mach.pmm`free, mach.pmm.bitmap, mach`own
    ensures Loading(mach, file, g') && g'.at == g.at
    ensures Through(g.at, g', Headers(file), |Headers(file)|)
  {
    hide LoadingIn, Loadable, FileIn, Through;
    g' := g;
    var i := 0;
    while i < h.phnum
      invariant 0 <= i <= h.phnum
      invariant Loading(mach, file, g') && Through(g.at, g', Headers(file), i) && g'.at == g.at
    {
      g' := ParseAndLoad(mach, buf, file, g', pd, h, i);
      i := i + 1;
    }
  }

  method ParseAt(buf: Buffer, ghost file: seq<u8>, h: Header, i: nat) returns (ph: Phdr)
    requires FileIn(buf, file) && TableInFile(file) && h == ParseHeader(file) && i < h.phnum
    ensures ph == Headers(file)[i]
  {
    var o := h.phoff + i * h.phentsize;
    assert o == HeaderOffset(h, i);
    ph := ParsePhdr(buf.bytes[..], o);
  }

  /** Step 5: the user stack, one zeroed page. */
  method LoadStack(mach: Machine, ghost file: seq<u8>, ghost g: Progress, pd: nat) returns (ghost g': Progress)
    requires Loading(mach, file, g) && g.at.pd == pd && UserSlot(g.at.m0[KERNEL_PD], STACK_PAGE)
    requires |LowFree(g.at.s0)| >= |g.taken| + 2
    modifies mach.ram, mach.pmm`free, mach.pmm.bitmap, mach`own
    ensures Loading(mach, file, g')
    ensures g'.at == g.at && g'.img == g.img[STACK_PAGE := Stack]
    ensures |g'.taken| + |Slots(g.img.Keys)| == |g.taken| + 1 + |Slots(g'.img.Keys)|
  {
    hide LoadingIn;
    ghost var m, own, s := mach.ram[..], mach.own, mach.pmm.State();
    var frame := TakeLow(mach, file, g);
    mach.own := own[frame := UserPage(pd)];
    mach.ZeroBytes(frame);
    assert mach.ram[..] == m[frame := mach.ram[frame]];
    FillProgress(m, own, s, mach.pmm.State(), file, g, frame, mach.ram[frame], UserPage(pd));
    g' := g.(taken := g.taken + {frame});
    g' := MapPage(mach, file, g', pd, USER_STACK_VIRT, frame, Stack);
    assert g'.img.Keys == g.img.Keys + {PageOf(USER_STACK_VIRT)};
  }

  /** Step 6: the kernel stack. */
  method TakeKernelStack(mach: Machine, ghost file: seq<u8>, ghost g: Progress)
      returns (kstack: nat, ghost g': Progress)
    requires Loading(mach, file, g) && |LowFree(g.at.s0)| > |g.taken|
    modifies mach.pmm`free, mach.pmm.bitmap, mach`own
    ensures Loading(mach, file, g') && g' == g.(taken := g.taken + {kstack}) && |g'.taken| == |g.taken| + 1
    ensures kstack !in g.at.own0 && kstack in mach.own && mach.own[kstack] == KernelStack && kstack < IDENTITY
  {
    hide LoadingIn;
    ghost var m, own, s := mach.ram[..], mach.own, mach.pmm.State();
    kstack := TakeLow(mach, file, g);
    mach.own := own[kstack := KernelStack];
    assert m == m[kstack := m[kstack]];
    FillProgress(m, own, s, mach.pmm.State(), file, g, kstack, m[kstack], KernelStack);
    g' := g.(taken := g.taken + {kstack});
  }

  /** What a load does: the new directory sees the image, whatever was in use is untouched, and
      exactly `Cost` frames are gone. */
  ghost predicate LoadedFrom(m0: Ram, own0: Owners, s0: Frames, m: Ram, own: Owners, s: Frames, pd: nat, kstack: nat,
      file: seq<u8>)
    requires TableInFile(file)
  {
    && |m0| == FRAMES == |m|
    && pd !in own0 && IsDirectory(own, pd)
    && kstack !in own0 && kstack in own && own[kstack] == KernelStack
    && Sees(m, pd, m0[KERNEL_PD], Image(Headers(file)), file)
    && OwnPages(m, own, pd, m0[KERNEL_PD]) && Straight(m, own, KERNEL_PD, pd)
    && AgreeOn(m0, m, own0.Keys)
    && (forall f :: f in own0 ==> f in own && own[f] == own0[f])
    && Took(s0, s, own.Keys - own0.Keys) && |own.Keys - own0.Keys| == Cost(Headers(file))
  }

  lemma LoadEnds(m: Ram, own: Owners, s: Frames, file: seq<u8>, g: Progress, kstack: nat)
    requires LoadingIn(m, own, s, file, g) && TableInFile(file)
    requires g.img == Image(Headers(file)) && |g.taken| == Cost(Headers(file))
    requires |g.at.m0| == FRAMES && kstack !in g.at.own0 && kstack in own && own[kstack] == KernelStack
    ensures LoadedFrom(g.at.m0, g.at.own0, g.at.s0, m, own, s, g.at.pd, kstack, file)
    ensures Consistent(m, own, s)
  {
    BuiltSees(m, own, g.at.pd, g.at.m0[KERNEL_PD], g.img, g.fm, file);
    BuiltStraight(m, own, g.at.pd, g.at.m0[KERNEL_PD], g.img, g.fm, file);
    assert own.Keys - g.at.own0.Keys == g.taken;
  }

  lemma LoadStarts(m: Ram, own: Owners, s: Frames, m': Ram, own': Owners, s': Frames, file: seq<u8>, pd: nat)
    requires Consistent(m, own, s) && Consistent(m', own', s') && pd !in own && pd < FRAMES
    requires m' == m[pd := m[KERNEL_PD]] && own' == own[pd := Directory] && Took(s, s', {pd})
    requires Built(m', own', pd, m[KERNEL_PD], map[], map[], file)
    ensures LoadingIn(m', own', s', file, Progress(Start(pd, m, own, s), map[], map[], {pd}))
  {
  }

  /** Steps 3 to 6 of elf_exec: build the address space and take the kernel stack. */
  method LoadProgram(mach: Machine, buf: Buffer, ghost file: seq<u8>, h: Header) returns (pd: nat, kstack: nat)
    requires mach.Valid()
    requires FileIn(buf, file) && TableInFile(file) && h == ParseHeader(file) && Loadable(file, mach.ram[KERNEL_PD])
    requires Cost(Headers(file)) <= |LowFree(mach.pmm.State())|
    modifies mach.ram, mach.pmm`free, mach.pmm.bitmap, mach`own
    ensures mach.Valid() && pd < IDENTITY && kstack < IDENTITY
    ensures LoadedFrom(old(mach.ram[..]), old(mach.own), old(mach.pmm.State()), mach.ram[..], mach.own,
        mach.pmm.State(), pd, kstack, file)
  {
    ghost var m, own, s, phs := mach.ram[..], mach.own, mach.pmm.State(), Headers(file);
    assert m[KERNEL_PD] == mach.ram[KERNEL_PD];
    pd := AllocPd(mach, file);
    ghost var g := Progress(Start(pd, m, own, s), map[], map[], {pd});
    LoadStarts(m, own, s, mach.ram[..], mach.own, mach.pmm.State(), file, pd);
    pd, kstack := LoadBody(mach, buf, file, g, pd, h);
  }

  method LoadBody(mach: Machine, buf: Buffer, ghost file: seq<u8>, ghost g: Progress, pd: nat, h: Header)
      returns (pd': nat, kstack: nat)
    requires Loading(mach, file, g) && g.at.pd == pd && g.img == map[] && |g.taken| == 1 && |g.at.m0| == FRAMES
    requires FileIn(buf, file) && TableInFile(file) && h == ParseHeader(file) && Loadable(file, g.at.m0[KERNEL_PD])
    requires Cost(Headers(file)) <= |LowFree(g.at.s0)|
    modifies mach.ram, mach.pmm`free, mach.pmm.bitmap, mach`own
    ensures mach.Valid() && pd' == pd && kstack < IDENTITY
    ensures LoadedFrom(g.at.m0, g.at.own0, g.at.s0, mach.ram[..], mach.own, mach.pmm.State(), pd, kstack, file)
  {
    hide LoadingIn;
    pd' := pd;
    ghost var phs := Headers(file);
    ThroughStart(g, phs);
    ghost var g1 := LoadSegments(mach, buf, file, g, pd, h);
    StackRoom(g.at, g1, phs);
    ghost var g2 := LoadStack(mach, file, g1, pd);
    CostPaid(g.at, g1, g2, phs);
    ghost var g3;
    kstack, g3 := TakeKernelStack(mach, file, g2);
    LoadEnds(mach.ram[..], mach.own, mach.pmm.State(), file, g3, kstack);
  }

  lemma StackRoom(st: Start, g: Progress, phs: seq<Phdr>)
    requires Through(st, g, phs, |phs|) && Cost(phs) <= |LowFree(st.s0)|
    ensures |LowFree(g.at.s0)| >= |g.taken| + 2
  {
    SlotsOfImage(phs);
  }

  lemma CostPaid(st: Start, g: Progress, g': Progress, phs: seq<Phdr>)
    requires Through(st, g, phs, |phs|) && g'.img == g.img[STACK_PAGE := Stack]
    requires |g'.taken| + |Slots(g.img.Keys)| == |g.taken| + 1 + |Slots(g'.img.Keys)|
    ensures g'.img == Image(phs) && |g'.taken| + 1 == Cost(phs)
  {
  }

  lemma SlotsOfImage(phs: seq<Phdr>)
    ensures Slots(Layout(phs, |phs|).Keys) <= Slots(Image(phs).Keys)
    ensures |Slots(Layout(phs, |phs|).Keys)| <= |Slots(Image(phs).Keys)|
  {
    var a, b := Slots(Layout(phs, |phs|).Keys), Slots(Image(phs).Keys);
    assert Layout(phs, |phs|).Keys <= Image(phs).Keys;
    assert a <= b;
    assert b == a + (b - a);
  }

  // ----- what a process sees, and what it cannot disturb -----

  /** The byte that address a of directory pd's address space refers to. */
  function ReadByte(m: Ram, pd: nat, a: u32): Option<u8>
    requires pd < |m|
  {
    match Walk(m, pd, PageOf(a))
    case None => None
    case Some(leaf) => if leaf.frame < |m| then Some(GetByte(m[leaf.frame], a % PAGE)) else None
  }

  /** Address a lies in segment i and on a page that it covers, and neither the pages of later
      segments nor the stack's cover it. */
  ghost predicate LastAt(phs: seq<Phdr>, i: nat, a: u32) {
    && i < |phs| && phs[i].vaddr <= a < phs[i].vaddr + phs[i].memsz && phs[i].Covers(PageOf(a))
    && PageOf(a) != STACK_PAGE
    && forall j :: i < j < |phs| ==> !phs[j].Covers(PageOf(a))
  }

  /** System V gABI, chapter 5, PT_LOAD: at every address of a segment that it covers and that no
      later segment's page and not the stack's page covers, the process reads the file's byte, and
      zero past the part that the file holds. */
  lemma ReadsSegment(m: Ram, pd: nat, kd: Page, file: seq<u8>, i: nat, a: u32)
    requires TableInFile(file) && Sees(m, pd, kd, Image(Headers(file)), file) && Loadable(file, kd)
    requires LastAt(Headers(file), i, a)
    ensures i < |Headers(file)| && Headers(file)[i].Fits(|file|) && Headers(file)[i].vaddr <= a
    ensures var ph := Headers(file)[i];
      ReadByte(m, pd, a) == Some(if a < ph.FileEnd() then file[ph.offset + (a - ph.vaddr)] else 0)
    ensures var ph := Headers(file)[i];
      ph.vaddr + ph.filesz < WORD ==>
        ReadByte(m, pd, a) == Some(if a < ph.vaddr + ph.filesz then file[ph.offset + (a - ph.vaddr)] else 0)
  {
    var phs := Headers(file);
    var ph, v := phs[i], PageOf(a);
    LastSegmentWins(phs, |phs|, i, v);
    assert SeesPage(m, pd, kd, Image(phs), file, v);
    assert UserSlot(kd, v);
    assert v * PAGE + a % PAGE == a;
  }

  /** An address of the slots left to processes that no segment covers, nor the stack, is unmapped. */
  lemma ReadsNothing(m: Ram, pd: nat, kd: Page, file: seq<u8>, a: u32)
    requires TableInFile(file) && Sees(m, pd, kd, Image(Headers(file)), file)
    requires UserSlot(kd, PageOf(a)) && PageOf(a) != STACK_PAGE
    requires forall i :: 0 <= i < |Headers(file)| ==> !Headers(file)[i].Covers(PageOf(a))
    ensures ReadByte(m, pd, a) == None
  {
    var phs := Headers(file);
    LaidOutIffCovered(phs, |phs|, PageOf(a));
    assert SeesPage(m, pd, kd, Image(phs), file, PageOf(a));
  }

  /** A segment covers all its addresses exactly when the sum that rounds its end up to a page does
      not pass 2^32. Otherwise it covers none of them, or for a size within a page of 2^32 those of
      its first page at most. */
  lemma CoversAllIff(ph: Phdr)
    requires ph.ptype == PT_LOAD && ph.memsz > 0
    ensures (forall a: u32 :: ph.vaddr <= a < ph.vaddr + ph.memsz ==> ph.Covers(PageOf(a)))
            <==> ph.vaddr + ph.memsz + 0xFFF < WORD
    ensures ph.vaddr + ph.memsz + 0xFFF >= WORD ==>
              ph.End() <= ph.First() + 1 && (ph.memsz <= WORD - PAGE ==> ph.End() <= ph.First())
  {
    if ph.vaddr + ph.memsz + 0xFFF < WORD {
      forall a: u32 | ph.vaddr <= a < ph.vaddr + ph.memsz
        ensures ph.Covers(PageOf(a))
      {
      }
    } else {
      WrappedEnd(ph);
      var a: u32 := if ph.End() <= ph.First() then ph.vaddr else ph.vaddr + PAGE;
      assert ph.vaddr <= a < ph.vaddr + ph.memsz && !ph.Covers(PageOf(a));
    }
  }

  lemma WrappedEnd(ph: Phdr)
    requires ph.vaddr + ph.memsz + 0xFFF >= WORD
    ensures ph.End() <= ph.First() + 1 && ph.End() < PAGES
    ensures ph.memsz <= WORD - PAGE ==> ph.End() <= ph.First()
  {
    var sum := ph.vaddr + ph.memsz + 0xFFF;
    assert Wrap(sum) == if sum < 2 * WORD then sum - WORD else sum - 2 * WORD;
    assert Wrap(sum) <= ph.vaddr + 0xFFE;
  }

  /** The stack page reads as zeros. */
  lemma ReadsStack(m: Ram, pd: nat, kd: Page, file: seq<u8>, a: u32)
    requires TableInFile(file) && Sees(m, pd, kd, Image(Headers(file)), file) && UserSlot(kd, STACK_PAGE)
    requires USER_STACK_VIRT <= a < USER_STACK_VIRT + PAGE
    ensures ReadByte(m, pd, a) == Some(0)
  {
    assert SeesPage(m, pd, kd, Image(Headers(file)), file, STACK_PAGE);
    Memory.ZeroBytes();
  }
}
