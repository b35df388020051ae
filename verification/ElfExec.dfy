/** fs/elf.c, elf_exec as a whole: from the directory lookup to the registration of the task, and
    the first time the task runs. */
module ElfExec {
  import opened Bits
  import opened Memory
  import opened Machines
  import opened Elf
  import opened ElfFile
  import opened Kernel
  import Scheduler
  import Runs
  import Paging
  import Isolation
  import Ext2
  import Pmm
  import Vfs

  datatype Verdict = NotFound | TooSmall | BadMagic | Accepted

  /** What the loader reads of a file: as far as its twelve direct blocks reach. */
  ghost function FileOf(v: Ext2.Volume, ino: u32): seq<u8>
    requires v.Valid()
  {
    v.Pread(v.InodeAt(ino), 0, MAX_ELF_SIZE)
  }

  /** What elf_buf holds then: that much of the file, and after it what was there before. */
  ghost function InBuffer(v: Ext2.Volume, ino: u32, before: seq<u8>): seq<u8>
    requires v.Valid() && |before| == MAX_ELF_SIZE
  {
    FileOf(v, ino) + before[|FileOf(v, ino)|..]
  }

  /** The buffer is larger than what direct blocks reach. */
  lemma FileIsContents(v: Ext2.Volume, ino: u32)
    requires v.Valid()
    ensures FileOf(v, ino) == v.Contents(v.InodeAt(ino))
    ensures |FileOf(v, ino)| <= Ext2.DIRECT * v.blockSize < MAX_ELF_SIZE
  {
    Ext2.PreadIsSlice(v, v.InodeAt(ino), 0, MAX_ELF_SIZE);
    hide Ext2.Volume.InodeAt;
  }

  /** The task a loaded program becomes. */
  function TaskFor(entry: u32, pd: nat, kstack: nat): NewTask
    requires pd < IDENTITY && kstack < IDENTITY
  {
    NewTask(entry, 0x23, 0x202, USER_STACK_VIRT + 0xFF0, 0x33, pd * PAGE, kstack * PAGE + PAGE)
  }

  /** What the checks of steps 1 and 2 make of a file. */
  function Judge(ino: u32, file: seq<u8>): (verdict: Verdict)
    ensures verdict.NotFound? <==> ino == 0
    ensures verdict.TooSmall? <==> ino != 0 && |file| < 52
    ensures verdict.Accepted? <==> ino != 0 && |file| >= 52 && file[..4] == [0x7F, 0x45, 0x4C, 0x46]
  {
    if ino == 0 then NotFound
    else if |file| < 52 then TooSmall
    else if !Magic(file) then BadMagic
    else Accepted
  }

  predicate FitsAbove(ph: Phdr, file: seq<u8>) {
    ph.ptype == PT_LOAD && ph.First() < ph.End() ==> ph.Fits(|file|) && ph.First() >= IDENTITY
  }

  /** With the kernel directory that init_paging builds, programs may use exactly the addresses from
      16 MB on: a file is loadable when its table and the segments that have pages lie inside it and
      no page of such a segment is below that. */
  lemma LoadableAfterBoot(m: Ram, file: seq<u8>)
    requires |m| == FRAMES && Paging.KernelTables(m)
    ensures Loadable(file, m[KERNEL_PD]) <==>
              TableInFile(file)
              && forall i :: 0 <= i < |Headers(file)| ==> FitsAbove(Headers(file)[i], file)
  {
    var kd := m[KERNEL_PD];
    forall v | 0 <= v < PAGES
      ensures UserSlot(kd, v) <==> v >= IDENTITY
    {
      if v < IDENTITY {
        EntryFields(Paging.KERNEL_PT + v / 1024, ALL);
      }
    }
    if TableInFile(file) {
      forall i | 0 <= i < |Headers(file)| && Headers(file)[i].ptype == PT_LOAD
        ensures Placed(Headers(file)[i], file, kd) <==> FitsAbove(Headers(file)[i], file)
      {
        var ph := Headers(file)[i];
        if ph.First() < ph.End() && ph.First() < IDENTITY {
          assert !UserSlot(kd, ph.First());
        }
      }
    }
  }

  // ----- the task -----

  /** The task of a program, in numbers. */
  lemma TaskWords(entry: u32, pd: nat, kstack: nat)
    requires pd < IDENTITY && kstack < IDENTITY
    ensures var t := Registered(TaskFor(entry, pd, kstack));
      && t.regs == [0, 0, 0, 0, 0, 0, 0, 0, entry, 0x23, 0x202, 0x4010_0FF0, 0x33]
      && t.cr3 == pd * 4096 && t.kstack == kstack * 4096 + 4096 && !t.inHandler
      && (forall k :: 0 <= k < 32 ==> !t.pending[k] && t.handlers[k] == 0)
      && forall f :: 0 <= f < 8 ==> !t.files[f].used
  {
  }

  /** If the file starts with the bytes of an ELF header, the task starts at its entry point, in user mode
      with interrupts enabled, on the stack page, with its own page directory and kernel stack. */
  ghost predicate StartsIn(t: Tcb, file: seq<u8>, pd: nat, kstack: nat) {
    forall h: HeaderFields :: Starts(h, file) ==>
      && t.regs == [0, 0, 0, 0, 0, 0, 0, 0, h.entry, 0x23, 0x202, 0x4010_0FF0, 0x33]
      && t.cr3 == pd * 4096 && t.kstack == kstack * 4096 + 4096
  }

  /** A file that starts with the bytes of a header: the task's entry point is the header's. */
  lemma EntryOf(v: Ext2.Volume, ino: u32, before: seq<u8>, h: HeaderFields)
    requires v.Valid() && |before| == MAX_ELF_SIZE && Starts(h, FileOf(v, ino))
    ensures |InBuffer(v, ino, before)| == MAX_ELF_SIZE && ParseHeader(InBuffer(v, ino, before)).entry == h.entry
  {
    BufferSize(v, ino, before);
    var file := InBuffer(v, ino, before);
    assert file[..52] == FileOf(v, ino)[..52];
    hide InBuffer, FileOf, HeaderFields.Bytes;
    HeaderRoundTrip(h, file);
  }

  // ----- what a process reads of the file on the volume -----

  /** What the loader puts at address a of a segment: the file's byte where it has read that far, the
      byte that was in the buffer before where it has not, and zero past the segment's part of the file. */
  ghost function Given(v: Ext2.Volume, ino: u32, before: seq<u8>, ph: Phdr, a: nat): u8
    requires v.Valid() && |before| == MAX_ELF_SIZE && ph.Fits(MAX_ELF_SIZE) && ph.vaddr <= a
  {
    var contents, k := v.Contents(v.InodeAt(ino)), ph.offset + (a - ph.vaddr);
    if a >= ph.FileEnd() then 0 else if k < |contents| then contents[k] else before[k]
  }

  lemma GivenFromBuffer(v: Ext2.Volume, ino: u32, before: seq<u8>, ph: Phdr, a: nat)
    requires v.Valid() && |before| == MAX_ELF_SIZE && ph.Fits(MAX_ELF_SIZE) && ph.vaddr <= a
    ensures |InBuffer(v, ino, before)| == MAX_ELF_SIZE
    ensures Given(v, ino, before, ph, a)
            == if a < ph.FileEnd() then InBuffer(v, ino, before)[ph.offset + (a - ph.vaddr)] else 0
  {
    FileIsContents(v, ino);
    BufferBytes(v, ino, before);
    hide InBuffer, FileOf, Ext2.Volume.InodeAt, Ext2.Volume.Contents;
  }

  lemma BufferSize(v: Ext2.Volume, ino: u32, before: seq<u8>)
    requires v.Valid() && |before| == MAX_ELF_SIZE
    ensures |InBuffer(v, ino, before)| == MAX_ELF_SIZE
  {
    FileIsContents(v, ino);
  }

  /** That is what the process reads there, wherever the segment is what its address shows. */
  lemma ReadsFile(v: Ext2.Volume, ino: u32, before: seq<u8>, m: Ram, pd: nat, kd: Page, i: nat, a: u32)
    requires v.Valid() && |before| == MAX_ELF_SIZE
    requires var file := InBuffer(v, ino, before);
      TableInFile(file) && Sees(m, pd, kd, Image(Headers(file)), file) && Loadable(file, kd)
      && LastAt(Headers(file), i, a)
    ensures var phs := Headers(InBuffer(v, ino, before));
      && i < |phs| && phs[i].Fits(MAX_ELF_SIZE) && phs[i].vaddr <= a
      && ReadByte(m, pd, a) == Some(Given(v, ino, before, phs[i], a))
  {
    var file := InBuffer(v, ino, before);
    BufferSize(v, ino, before);
    hide InBuffer, Given, Sees, Loadable, Headers, TableInFile, Image, LastAt, ReadByte;
    ReadsSegment(m, pd, kd, file, i, a);
    GivenFromBuffer(v, ino, before, Headers(file)[i], a);
  }

  /** And it goes on doing so, after any later loads. */
  lemma StillReadsFile(v: Ext2.Volume, ino: u32, before: seq<u8>, ms: seq<Isolation.Moment>, ls: seq<Isolation.Load>,
                       i: nat, j: nat, k: nat, a: u32)
    requires v.Valid() && |before| == MAX_ELF_SIZE
    requires Isolation.Loads(ms, ls) && i < j <= |ls| < |ms| && ls[i].file == InBuffer(v, ino, before)
    requires |ms[0].ram| == FRAMES && Loadable(ls[i].file, ms[0].ram[KERNEL_PD])
    requires TableInFile(ls[i].file) && LastAt(Headers(ls[i].file), k, a)
    ensures var ph := Headers(ls[i].file)[k];
      && ls[i].pd < |ms[j].ram| && ph.Fits(MAX_ELF_SIZE) && ph.vaddr <= a
      && ReadByte(ms[j].ram, ls[i].pd, a) == Some(Given(v, ino, before, ph, a))
  {
    BufferSize(v, ino, before);
    assert Headers(ls[i].file)[k].vaddr <= a;
    hide InBuffer, Given, Loadable, Headers, TableInFile, LastAt, ReadByte, Isolation.Loads;
    Isolation.StillReads(ms, ls, i, j, k, a);
    GivenFromBuffer(v, ino, before, Headers(ls[i].file)[k], a);
  }

  lemma BufferBytes(v: Ext2.Volume, ino: u32, before: seq<u8>)
    requires v.Valid() && |before| == MAX_ELF_SIZE
    ensures |InBuffer(v, ino, before)| == MAX_ELF_SIZE
    ensures forall k :: 0 <= k < MAX_ELF_SIZE ==>
        InBuffer(v, ino, before)[k] == if k < |FileOf(v, ino)| then FileOf(v, ino)[k] else before[k]
  {
    FileIsContents(v, ino);
  }

  /** The segment's part of the buffer is what the file has there. */
  ghost predicate FromFile(v: Ext2.Volume, ino: u32, before: seq<u8>, ph: Phdr)
    requires v.Valid() && |before| == MAX_ELF_SIZE && ph.Fits(MAX_ELF_SIZE)
  {
    BufferBytes(v, ino, before);
    forall k :: ph.offset <= k < ph.offset + ph.filesz ==> FromFileAt(v, ino, before, k)
  }

  ghost predicate FromFileAt(v: Ext2.Volume, ino: u32, before: seq<u8>, k: nat)
    requires v.Valid() && |before| == MAX_ELF_SIZE && k < MAX_ELF_SIZE
  {
    BufferBytes(v, ino, before);
    k < |v.Contents(v.InodeAt(ino))| && InBuffer(v, ino, before)[k] == v.Contents(v.InodeAt(ino))[k]
  }

  /** Two loads of one file, with different things in the buffer before, get the same segment. */
  ghost predicate SameSegment(v: Ext2.Volume, ino: u32, b: seq<u8>, c: seq<u8>, ph: Phdr)
    requires v.Valid() && |b| == |c| == MAX_ELF_SIZE && ph.Fits(MAX_ELF_SIZE)
  {
    BufferBytes(v, ino, b);
    BufferBytes(v, ino, c);
    forall k :: ph.offset <= k < ph.offset + ph.filesz ==> InBuffer(v, ino, b)[k] == InBuffer(v, ino, c)[k]
  }

  /** Whatever the buffer held before, a segment comes from the file exactly when its part of the file
      ends within the twelve direct blocks; otherwise what a process gets depends on earlier loads. */
  lemma FromFileIff(v: Ext2.Volume, ino: u32, ph: Phdr)
    requires v.Valid() && ph.Fits(MAX_ELF_SIZE) && ph.filesz > 0
    ensures (forall before :: |before| == MAX_ELF_SIZE ==> FromFile(v, ino, before, ph)) <==>
        ph.offset + ph.filesz <= |v.Contents(v.InodeAt(ino))|
    ensures (forall b, c :: |b| == |c| == MAX_ELF_SIZE ==> SameSegment(v, ino, b, c, ph)) <==>
        ph.offset + ph.filesz <= |v.Contents(v.InodeAt(ino))|
  {
    FileIsContents(v, ino);
    var n, last := |FileOf(v, ino)|, ph.offset + ph.filesz - 1;
    hide Ext2.Volume.InodeAt, Ext2.Volume.Contents, InBuffer, FileOf;
    if ph.offset + ph.filesz <= n {
      forall before | |before| == MAX_ELF_SIZE
        ensures FromFile(v, ino, before, ph)
      {
        BufferBytes(v, ino, before);
      }
      forall b, c | |b| == |c| == MAX_ELF_SIZE
        ensures SameSegment(v, ino, b, c, ph)
      {
        BufferBytes(v, ino, b);
        BufferBytes(v, ino, c);
      }
    } else {
      var b, c := seq<u8>(MAX_ELF_SIZE, _ => 0), seq<u8>(MAX_ELF_SIZE, _ => 1);
      BufferBytes(v, ino, b);
      BufferBytes(v, ino, c);
      assert !FromFileAt(v, ino, b, last) && !FromFile(v, ino, b, ph);
      assert InBuffer(v, ino, b)[last] == 0 && InBuffer(v, ino, c)[last] == 1;
      assert !SameSegment(v, ino, b, c, ph);
    }
  }

  class Loader {
    const mach: Machine
    const fs: Vfs.FileSystem
    const sched: Scheduler.TaskTable
    const elfBuf: Buffer  // elf_buf, and the page before it

    constructor (mach: Machine, fs: Vfs.FileSystem, sched: Scheduler.TaskTable)
      ensures this.mach == mach && this.fs == fs && this.sched == sched && fresh(elfBuf.bytes)
      ensures elfBuf.before.Length == PAGE && elfBuf.bytes.Length == MAX_ELF_SIZE
    {
      this.mach, this.fs, this.sched := mach, fs, sched;
      var before := new u8[PAGE](_ => 0);
      var bytes := new u8[MAX_ELF_SIZE](_ => 0);
      elfBuf := Buffer(before, bytes);
    }

    /** The ELF buffer is apart from the driver's. */
    ghost predicate Apart() {
      && elfBuf.before.Length == PAGE && elfBuf.bytes.Length == MAX_ELF_SIZE
      && elfBuf.bytes != fs.ext2.blkA && elfBuf.bytes != fs.ext2.blkB
    }

    ghost predicate Valid()
      reads mach`own, mach.ram, mach.pmm`total, mach.pmm`free, mach.pmm.bitmap
      reads sched`ntasks, sched`cur, sched.taskList, sched.links
    {
      mach.Valid() && sched.Valid() && fs.Valid() && Apart()
    }

    /** The inode ext2_find gives for a name in the root directory. */
    ghost function Found(name: Ext2.CString): u32
      requires fs.Valid()
      reads fs.ext2.blkB
    {
      var v := fs.ext2.vol;
      Ext2.Lookup(Ext2.Scan(v.DirView(Ext2.ROOT_INODE, fs.ext2.blkB[v.blockSize..]), 0, v.DirEnd(Ext2.ROOT_INODE)),
          name)
    }

    /** Steps 1 and 2: read the file and check it. */
    method Fetch(name: Ext2.CString) returns (verdict: Verdict)
      requires Valid()
      modifies elfBuf.bytes, fs.ext2.blkA, fs.ext2.blkB
      ensures var ino := old(Found(name));
        var file := InBuffer(fs.ext2.vol, ino, old(elfBuf.bytes[..]));
        && verdict == Judge(ino, FileOf(fs.ext2.vol, ino))
        && (verdict.Accepted? ==> FileIn(elfBuf, file) && |file| == MAX_ELF_SIZE)
    {
      hide Ext2.Volume.Pread, Ext2.Volume.InodeAt, Ext2.Scan, Ext2.Lookup, Ext2.Volume.DirView, Ext2.Volume.DirEnd;
      ghost var ino0 := Found(name);
      var ino := fs.ext2.Find(Ext2.ROOT_INODE, name);
      if ino == 0 {
        return NotFound;
      }
      var size := fs.ext2.ReadFile(ino, elfBuf.bytes, MAX_ELF_SIZE);
      if size < 52 {
        return TooSmall;
      }
      ghost var file := FileOf(fs.ext2.vol, ino);
      assert forall k :: 0 <= k < 4 ==> elfBuf.bytes[k] == file[k];
      if elfBuf.bytes[0] != 0x7F || elfBuf.bytes[1] != 'E' as int
         || elfBuf.bytes[2] != 'L' as int || elfBuf.bytes[3] != 'F' as int {
        return BadMagic;
      }
      assert elfBuf.bytes[..] == elfBuf.bytes[..size] + elfBuf.bytes[size..];
      return Accepted;
    }

    /** Steps 3 to 6: build the address space of the program. */
    method Build(ghost file: seq<u8>) returns (entry: u32, pd: nat, kstack: nat)
      requires mach.Valid() && FileIn(elfBuf, file) && |file| == MAX_ELF_SIZE && Loadable(file, mach.ram[KERNEL_PD])
      requires TableInFile(file) && Cost(Headers(file)) <= |LowFree(mach.pmm.State())|
      modifies mach.ram, mach.pmm`free, mach.pmm.bitmap, mach`own
      ensures mach.Valid() && pd < IDENTITY && kstack < IDENTITY && entry == ParseHeader(file).entry
      ensures LoadedFrom(old(mach.ram[..]), old(mach.own), old(mach.pmm.State()), mach.ram[..], mach.own,
          mach.pmm.State(), pd, kstack, file)
    {
      hide Consistent, Loadable, LoadedFrom, Cost, LowFree;
      var h := ParseHeader(elfBuf.bytes[..]);
      pd, kstack := LoadProgram(mach, elfBuf, file, h);
      entry := h.entry;
    }

    /** Steps 3 to 7: load the program and register its task. */
    method Start(ghost file: seq<u8>, ghost nodes: Vfs.Pool) returns (pd: nat, kstack: nat)
      requires Valid() && sched.ntasks < MAX_TASKS
      requires FileIn(elfBuf, file) && |file| == MAX_ELF_SIZE && Loadable(file, mach.ram[KERNEL_PD])
      requires TableInFile(file) && Cost(Headers(file)) <= |LowFree(mach.pmm.State())|
      modifies mach.ram, mach.pmm`free, mach.pmm.bitmap, mach`own
      modifies sched`ntasks, sched`cur, sched.pool, sched.taskList, sched.links
      ensures Valid() && pd < IDENTITY && kstack < IDENTITY
      ensures LoadedFrom(old(mach.ram[..]), old(mach.own), old(mach.pmm.State()), mach.ram[..], mach.own,
          mach.pmm.State(), pd, kstack, file)
      ensures sched.View(nodes) == AddTask(old(sched.View(nodes)), TaskFor(ParseHeader(file).entry, pd, kstack))
    {
      hide Consistent, Loadable, LoadedFrom, Cost, LowFree, Headers, ParsePhdr, AddTask, Pmm.Allocator.Valid,
          Vfs.FileSystem.Valid;
      var entry;
      entry, pd, kstack := Build(file);
      sched.AddTask(TaskFor(entry, pd, kstack), nodes);
    }

    /** elf_exec. A refused file leaves memory and tasks alone; any other is loaded in a fresh
        address space and registered at its entry point. */
    method Exec(name: Ext2.CString, ghost nodes: Vfs.Pool) returns (verdict: Verdict, pd: nat, kstack: nat)
      requires Valid() && sched.ntasks < MAX_TASKS
      requires var file := InBuffer(fs.ext2.vol, Found(name), elfBuf.bytes[..]);
        Judge(Found(name), FileOf(fs.ext2.vol, Found(name))) == Accepted ==>
          Loadable(file, mach.ram[KERNEL_PD]) && Cost(Headers(file)) <= |LowFree(mach.pmm.State())|
      modifies elfBuf.bytes, fs.ext2.blkA, fs.ext2.blkB
      modifies mach.ram, mach.pmm`free, mach.pmm.bitmap, mach`own
      modifies sched`ntasks, sched`cur, sched.pool, sched.taskList, sched.links
      ensures Valid()
      ensures verdict == Judge(old(Found(name)), FileOf(fs.ext2.vol, old(Found(name))))
      ensures var file := InBuffer(fs.ext2.vol, old(Found(name)), old(elfBuf.bytes[..]));
        if verdict.Accepted? then
          && TableInFile(file) && pd < IDENTITY && kstack < IDENTITY
          && LoadedFrom(old(mach.ram[..]), old(mach.own), old(mach.pmm.State()), mach.ram[..], mach.own,
              mach.pmm.State(), pd, kstack, file)
          && sched.View(nodes) == AddTask(old(sched.View(nodes)), TaskFor(ParseHeader(file).entry, pd, kstack))
          && sched.ntasks == old(sched.ntasks) + 1
          && StartsIn(sched.pool[old(sched.ntasks)], FileOf(fs.ext2.vol, old(Found(name))), pd, kstack)
        else
          && mach.ram[..] == old(mach.ram[..]) && mach.own == old(mach.own) && mach.pmm.State() == old(mach.pmm.State())
          && sched.View(nodes) == old(sched.View(nodes)) && sched.ntasks == old(sched.ntasks)
    {
      ghost var file := InBuffer(fs.ext2.vol, Found(name), elfBuf.bytes[..]);
      assert Judge(Found(name), FileOf(fs.ext2.vol, Found(name))) == Accepted ==> TableInFile(file);
      hide Consistent, Loadable, LoadedFrom, Cost, LowFree, Found, FileOf, InBuffer, Judge, TableInFile;
      verdict := Fetch(name);
      pd, kstack := 0, 0;
      if verdict.Accepted? {
        ghost var before, n := old(elfBuf.bytes[..]), sched.ntasks;
        pd, kstack := Start(file, nodes);
        TaskWords(ParseHeader(file).entry, pd, kstack);
        LastTask(sched, nodes, n, old(sched.View(nodes)), TaskFor(ParseHeader(file).entry, pd, kstack));
        forall h: HeaderFields | Starts(h, FileOf(fs.ext2.vol, old(Found(name))))
          ensures ParseHeader(file).entry == h.entry
        {
          EntryOf(fs.ext2.vol, old(Found(name)), before, h);
        }
      }
    }
  }

  lemma LastTask(sched: Scheduler.TaskTable, nodes: Vfs.Pool, n: nat, s: Kernel.State, t: NewTask)
    requires sched.Valid() && sched.View(nodes) == AddTask(s, t) && |s.tasks| == n
    ensures sched.ntasks == n + 1 && sched.pool[n] == Registered(t)
  {
    assert sched.View(nodes).tasks[n] == sched.pool[n];
  }

  // ----- the first run -----

  /** Task t is as registered, and has not run. */
  ghost predicate Untouched(s: Kernel.State, t: nat, n: NewTask) {
    t < |s.tasks| && s.cur != t && s.tasks[t] == Registered(n)
  }

  lemma UntouchedStep(v: Ext2.Volume, s: Kernel.State, e: Event, t: nat, n: NewTask)
    requires Enabled(v, s, e) && Untouched(s, t, n)
    requires !(Runs.Switches(s, e) && s.After() == t)
    ensures Untouched(Next(v, s, e), t, n)
  {
    Runs.TableStep(v, s, e);
    hide Ext2.Volume.Pread, Ext2.Volume.InodeAt;
  }

  lemma FirstSwitch(s: Kernel.State, ctx: Context, t: nat, n: NewTask)
    requires s.Valid() && s.tasks != [] && Ring3(ctx) && Untouched(s, t, n) && s.After() == t
    ensures var r := Tick(s, ctx);
      r.ctx == n.InitialContext() && r.stores == [] && r.state.cr3 == n.cr3 && r.state.esp0 == n.kstack
          && r.state.cur == t
  {
    assert Deliverable(Registered(n)) == None;
  }

  /** The first switch to a registered task, whatever happened in between, enters it at its entry
      point with a clean context, in its own address space and with its own kernel stack. */
  lemma {:induction false} StartsAtEntry(v: Ext2.Volume, ss: seq<Kernel.State>, es: seq<Event>, i: nat, j: nat,
      t: nat, n: NewTask)
    requires Run(v, ss, es) && i <= j < |es| && Untouched(ss[i], t, n)
    requires forall m :: i <= m < j ==> !Runs.SwitchTo(ss, es, m, t)
    requires Runs.SwitchTo(ss, es, j, t)
    ensures Untouched(ss[j], t, n) && ss[j].Valid()
    ensures var r := Tick(ss[j], es[j].ctx);
      && r.ctx == n.InitialContext() && r.ctx[EIP] == n.eip && r.ctx[CS] == n.cs && r.ctx[ESP] == n.esp
      && r.ctx[10] == n.eflags && r.ctx[12] == n.ss
      && (forall k :: 0 <= k < 8 ==> r.ctx[k] == 0)
      && r.stores == [] && ss[j + 1] == r.state && r.state.cr3 == n.cr3 && r.state.esp0 == n.kstack
  {
    StaysUntouched(v, ss, es, i, j, t, n);
    Runs.RunStep(v, ss, es, j);
    Runs.TableStep(v, ss[j], es[j]);
    FirstSwitch(ss[j], es[j].ctx, t, n);
  }

  lemma {:induction false} StaysUntouched(v: Ext2.Volume, ss: seq<Kernel.State>, es: seq<Event>, i: nat, j: nat,
      t: nat, n: NewTask)
    requires Run(v, ss, es) && i <= j <= |es| && Untouched(ss[i], t, n)
    requires forall m :: i <= m < j ==> !Runs.SwitchTo(ss, es, m, t)
    ensures Untouched(ss[j], t, n)
    decreases j
  {
    if i < j {
      StaysUntouched(v, ss, es, i, j - 1, t, n);
      Runs.RunStep(v, ss, es, j - 1);
      Runs.TableStep(v, ss[j - 1], es[j - 1]);
      hide Run, Next, Enabled, Untouched;
      assert !Runs.SwitchTo(ss, es, j - 1, t);
      UntouchedStep(v, ss[j - 1], es[j - 1], t, n);
    }
  }
}
