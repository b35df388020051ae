/** Memory and the step system together: every task keeps an address space of its own, and the kernel
    stays mapped under whatever page directory the processor uses (process/scheduler.c, fs/elf.c,
    kernel/kernel.c). */
module Whole {
  import opened Bits
  import opened Memory
  import opened Machines
  import opened Isolation
  import Paging
  import ElfExec
  import opened Kernel
  import Runs
  import Vmm
  import Boot
  import Pmm
  import Elf
  import Ext2
  import Vfs

  datatype System = System(mem: Moment, k: Kernel.State)

  /** Directory d maps the first 16 MB, and so the kernel, to themselves. */
  ghost predicate LowIdentity(m: Ram, d: nat) {
    d < |m| && forall v :: 0 <= v < IDENTITY ==> Walk(m, d, v) == Some(Leaf(v, true, true))
  }

  /** The frame of a task's kernel stack. */
  function StackFrame(t: Tcb): int {
    t.kstack / PAGE - 1
  }

  /** A task's CR3 is a process directory that maps the kernel, its esp0 the end of a kernel stack. */
  ghost predicate Housed(mem: Moment, t: Tcb) {
    && t.cr3 % PAGE == 0 && t.cr3 / PAGE != KERNEL_PD
    && IsDirectory(mem.own, t.cr3 / PAGE) && LowIdentity(mem.ram, t.cr3 / PAGE)
    && t.kstack % PAGE == 0 && StackFrame(t) >= 0 && Elf.FrameOwner(mem.own, StackFrame(t), KernelStack)
  }

  predicate Apart(t: Tcb, u: Tcb) {
    t.cr3 != u.cr3 && t.kstack != u.kstack
  }

  ghost predicate Sound(y: System) {
    && Consistent(y.mem.ram, y.mem.own, y.mem.frames) && LowIdentity(y.mem.ram, KERNEL_PD)
    && y.k.Valid() && (y.k.cr3 == KERNEL_PD * PAGE || Runs.Loaded(y.k))
    && (forall t :: 0 <= t < |y.k.tasks| ==> Housed(y.mem, y.k.tasks[t]))
    && forall t, u :: 0 <= t < u < |y.k.tasks| ==> Apart(y.k.tasks[t], y.k.tasks[u])
  }

  // ----- steps -----

  /** A completed elf_exec, sched_enter, or a step of the kernel with whatever user code and the kernel
      stored since the last one. */
  datatype Act = Exec(l: Load, entry: u32) | Enter | Step(e: Event)

  /** Stores that leave page directories and page tables alone; no frame changes hands. */
  ghost predicate TablesKept(a: Moment, b: Moment) {
    && b.own == a.own && b.frames == a.frames && |b.ram| == |a.ram|
    && forall f :: f in a.own && f < |a.ram| && (a.own[f].Directory? || a.own[f].Table?) ==> b.ram[f] == a.ram[f]
  }

  /** Before sched_enter only ring 0 code runs. */
  ghost predicate MayHappen(k: Kernel.State, e: Event) {
    !e.Add? && (Runs.Loaded(k) || e.CtrlC? || (e.Timer? && !Ring3(e.ctx)))
  }

  ghost predicate Acts(v: Ext2.Volume, a: System, act: Act, b: System) {
    match act
    case Exec(l, entry) =>
      && Loaded(a.mem, b.mem, l) && Consistent(b.mem.ram, b.mem.own, b.mem.frames)
      && |a.k.tasks| < MAX_TASKS && l.pd < IDENTITY && l.kstack < IDENTITY
      && b.k == AddTask(a.k, ElfExec.TaskFor(entry, l.pd, l.kstack))
    case Enter =>
      && b.mem == a.mem && a.k.tasks != [] && a.k.cur == 0 && a.k.esp0 == a.k.tasks[0].kstack
      && b.k == a.k.(cr3 := a.k.tasks[0].cr3)
    case Step(e) =>
      && Enabled(v, a.k, e) && MayHappen(a.k, e)
      && b.k == Next(v, a.k, e) && TablesKept(a.mem, b.mem)
  }

  ghost predicate ActAt(v: Ext2.Volume, ys: seq<System>, acts: seq<Act>, i: nat)
    requires i < |acts| && |ys| == |acts| + 1
  {
    Acts(v, ys[i], acts[i], ys[i + 1])
  }

  ghost predicate History(v: Ext2.Volume, ys: seq<System>, acts: seq<Act>) {
    |ys| == |acts| + 1 && forall i :: 0 <= i < |acts| ==> ActAt(v, ys, acts, i)
  }

  // ----- what a step keeps -----

  /** Translations depend only on directories and tables. */
  lemma TablesKeptWalk(a: Moment, b: Moment, d: nat, v: nat)
    requires Owned(a.ram, a.own, KERNEL_PD) && TablesKept(a, b) && IsDirectory(a.own, d) && v < PAGES
    ensures d < |a.ram| && d < |b.ram| && Walk(b.ram, d, v) == Walk(a.ram, d, v)
  {
    assert SlotOk(a.ram, a.own, KERNEL_PD, d, v / 1024);
  }

  lemma TablesKeptOwned(a: Moment, b: Moment)
    requires Owned(a.ram, a.own, KERNEL_PD) && TablesKept(a, b)
    ensures Owned(b.ram, b.own, KERNEL_PD)
  {
    forall d, i | IsDirectory(b.own, d) && 0 <= i < 1024
      ensures SlotOk(b.ram, b.own, KERNEL_PD, d, i)
    {
      assert SlotOk(a.ram, a.own, KERNEL_PD, d, i);
    }
  }

  lemma TablesKeptIdentity(a: Moment, b: Moment, d: nat)
    requires Owned(a.ram, a.own, KERNEL_PD) && TablesKept(a, b) && IsDirectory(a.own, d) && LowIdentity(a.ram, d)
    ensures LowIdentity(b.ram, d)
  {
    hide Owned, TablesKept;
    TablesKeptWalk(a, b, d, 0);
    forall v | 0 <= v < IDENTITY
      ensures Walk(b.ram, d, v) == Some(Leaf(v, true, true))
    {
      TablesKeptWalk(a, b, d, v);
    }
  }

  lemma HousedStays(a: Moment, b: Moment, t: Tcb, u: Tcb)
    requires Owned(a.ram, a.own, KERNEL_PD) && TablesKept(a, b) && Housed(a, t) && u.cr3 == t.cr3
        && u.kstack == t.kstack
    ensures Housed(b, u)
  {
    TablesKeptIdentity(a, b, t.cr3 / PAGE);
  }

  /** A step keeps every task's CR3 and esp0, and whether the processor uses the kernel directory or
      the running task's. */
  lemma SpacesStep(v: Ext2.Volume, k: Kernel.State, e: Event)
    requires Enabled(v, k, e) && MayHappen(k, e) && (k.cr3 == KERNEL_PD * PAGE || Runs.Loaded(k))
    ensures var k' := Next(v, k, e);
      && k'.Valid() && |k'.tasks| == |k.tasks| && (k'.cr3 == KERNEL_PD * PAGE || Runs.Loaded(k'))
      && forall t :: 0 <= t < |k.tasks| ==> Runs.SameSpace(k, k', t)
  {
    Runs.TableStep(v, k, e);
    if Runs.Loaded(k) {
      Runs.LoadedStep(v, k, e);
    } else {
      hide Next, Enabled;
      forall t | 0 <= t < |k.tasks|
        ensures Runs.SameSpace(k, Next(v, k, e), t)
      {
        Runs.TaskStep(v, k, e, t);
      }
    }
  }

  lemma StepSound(v: Ext2.Volume, a: System, e: Event, b: System)
    requires Sound(a) && Acts(v, a, Step(e), b)
    ensures Sound(b)
  {
    SpacesStep(v, a.k, e);
    TablesKeptOwned(a.mem, b.mem);
    TablesKeptIdentity(a.mem, b.mem, KERNEL_PD);
    assert Consistent(b.mem.ram, b.mem.own, b.mem.frames);
    hide Next, Enabled, Owned, TablesKept, LowIdentity, Housed, MayHappen, Runs.Loaded, Consistent;
    forall t | 0 <= t < |b.k.tasks|
      ensures Housed(b.mem, b.k.tasks[t])
    {
      assert Runs.SameSpace(a.k, b.k, t) && Housed(a.mem, a.k.tasks[t]);
      HousedStays(a.mem, b.mem, a.k.tasks[t], b.k.tasks[t]);
    }
    forall t, u | 0 <= t < u < |b.k.tasks|
      ensures Apart(b.k.tasks[t], b.k.tasks[u])
    {
      assert Runs.SameSpace(a.k, b.k, t) && Runs.SameSpace(a.k, b.k, u) && Apart(a.k.tasks[t], a.k.tasks[u]);
    }
  }

  /** Frames in use keep their contents in a load, so existing tasks stay where they are. */
  lemma HousedThroughLoad(a: Moment, b: Moment, d: nat)
    requires Consistent(a.ram, a.own, a.frames) && Preserved(a, b) && IsDirectory(a.own, d) && LowIdentity(a.ram, d)
    ensures IsDirectory(b.own, d) && LowIdentity(b.ram, d)
  {
    forall v | 0 <= v < IDENTITY
      ensures d < |b.ram| && Walk(b.ram, d, v) == Some(Leaf(v, true, true))
    {
      WalkFrame(a.ram, b.ram, a.own, KERNEL_PD, d, v);
    }
  }

  /** The new directory maps the first 16 MB as the kernel's does. */
  lemma NewDirectory(a: Moment, b: Moment, l: Load)
    requires Consistent(a.ram, a.own, a.frames) && Loaded(a, b, l) && LowIdentity(b.ram, KERNEL_PD)
    requires LowIdentity(a.ram, KERNEL_PD)
    ensures IsDirectory(b.own, l.pd) && LowIdentity(b.ram, l.pd)
    ensures Elf.FrameOwner(b.own, l.kstack, KernelStack) && l.pd !in a.own && l.kstack !in a.own
  {
    LoadKeeps(a, b, l);
    var kd, img := a.ram[KERNEL_PD], Elf.Image(Elf.Headers(l.file));
    assert Elf.Sees(b.ram, l.pd, kd, img, l.file);
    hide Loaded, Elf.Image, Elf.Headers;
    forall v | 0 <= v < IDENTITY
      ensures Walk(b.ram, l.pd, v) == Some(Leaf(v, true, true))
    {
      assert Elf.SeesPage(b.ram, l.pd, kd, img, l.file, v);
      assert Walk(a.ram, KERNEL_PD, v).Some?;
    }
  }

  lemma NewTaskHome(entry: u32, pd: nat, kstack: nat)
    requires pd < IDENTITY && kstack < IDENTITY
    ensures var n := Registered(ElfExec.TaskFor(entry, pd, kstack));
      n.cr3 / PAGE == pd && StackFrame(n) == kstack && n.cr3 % PAGE == 0 && n.kstack % PAGE == 0
  {
  }

  /** One more task, in a directory and with a stack that nothing was using. */
  lemma AddHoused(a: System, b: System, n: Tcb)
    requires Sound(a) && |a.k.tasks| < MAX_TASKS && b.k == a.k.(tasks := a.k.tasks + [n])
    requires Preserved(a.mem, b.mem) && Consistent(b.mem.ram, b.mem.own, b.mem.frames)
    requires Housed(b.mem, n) && n.cr3 / PAGE !in a.mem.own && StackFrame(n) !in a.mem.own
    ensures Sound(b)
  {
    assert IsDirectory(a.mem.own, KERNEL_PD);
    HousedThroughLoad(a.mem, b.mem, KERNEL_PD);
    hide Consistent, LowIdentity, Preserved;
    forall t | 0 <= t < |a.k.tasks|
      ensures Housed(b.mem, a.k.tasks[t]) && Apart(a.k.tasks[t], n)
    {
      assert Housed(a.mem, a.k.tasks[t]);
      StackStays(a.mem, b.mem, a.k.tasks[t]);
      HousedThroughLoad(a.mem, b.mem, a.k.tasks[t].cr3 / PAGE);
    }
  }

  lemma StackStays(a: Moment, b: Moment, t: Tcb)
    requires Preserved(a, b) && Housed(a, t)
    ensures Elf.FrameOwner(b.own, StackFrame(t), KernelStack)
  {
  }

  lemma ExecSound(v: Ext2.Volume, a: System, l: Load, entry: u32, b: System)
    requires Sound(a) && Acts(v, a, Act.Exec(l, entry), b)
    ensures Sound(b)
  {
    hide Consistent, LowIdentity, Loaded, Preserved, Next, Elf.Cost, Elf.Headers, Elf.Image, Elf.Sees, Elf.OwnPages;
    LoadKeeps(a.mem, b.mem, l);
    KernelDirectory(a.mem);
    HousedThroughLoad(a.mem, b.mem, KERNEL_PD);
    NewDirectory(a.mem, b.mem, l);
    NewTaskHome(entry, l.pd, l.kstack);
    hide Registered, ElfExec.TaskFor, Sound;
    AddHoused(a, b, Registered(ElfExec.TaskFor(entry, l.pd, l.kstack)));
  }

  lemma KernelDirectory(a: Moment)
    requires Consistent(a.ram, a.own, a.frames)
    ensures IsDirectory(a.own, KERNEL_PD)
  {
  }

  lemma ActSound(v: Ext2.Volume, a: System, act: Act, b: System)
    requires Sound(a) && Acts(v, a, act, b)
    ensures Sound(b)
  {
    match act
    case Exec(l, entry) => ExecSound(v, a, l, entry, b);
    case Enter => assert forall t :: 0 <= t < |b.k.tasks| ==> b.k.tasks[t] == a.k.tasks[t];
    case Step(e) => StepSound(v, a, e, b);
  }

  /** In every history of loads, switches and system calls, each task has a page directory and a
      kernel stack of its own, the directory maps the kernel, and so does the one that the processor
      uses: the kernel survives the load of CR3 in do_switch. */
  lemma {:induction false} AlwaysSound(v: Ext2.Volume, ys: seq<System>, acts: seq<Act>, j: nat)
    requires History(v, ys, acts) && j <= |acts| && Sound(ys[0])
    ensures Sound(ys[j])
    ensures ys[j].k.cr3 % PAGE == 0 && IsDirectory(ys[j].mem.own, ys[j].k.cr3 / PAGE)
    ensures LowIdentity(ys[j].mem.ram, ys[j].k.cr3 / PAGE)
  {
    if j > 0 {
      AlwaysSound(v, ys, acts, j - 1);
      assert ActAt(v, ys, acts, j - 1);
      hide Sound, Acts;
      ActSound(v, ys[j - 1], acts[j - 1], ys[j]);
    }
    UsedDirectory(ys[j]);
  }

  lemma UsedDirectory(y: System)
    requires Sound(y)
    ensures y.k.cr3 % PAGE == 0 && IsDirectory(y.mem.own, y.k.cr3 / PAGE) && LowIdentity(y.mem.ram, y.k.cr3 / PAGE)
  {
    if y.k.cr3 != KERNEL_PD * PAGE {
      assert Housed(y.mem, y.k.tasks[y.k.cur]);
    }
  }

  // ----- what no step of a history disturbs -----

  ghost predicate SameWalk(a: Moment, b: Moment, d: nat, v: nat)
    requires v < PAGES
  {
    d < |a.ram| && d < |b.ram| && Walk(b.ram, d, v) == Walk(a.ram, d, v)
  }

  /** Frames in use keep their purpose, directories their contents and all their translations. */
  ghost predicate Kept(a: Moment, b: Moment) {
    && |b.ram| == |a.ram|
    && (forall f :: f in a.own ==> f in b.own && b.own[f] == a.own[f])
    && (forall d: nat :: IsDirectory(a.own, d) ==> d < |a.ram| && b.ram[d] == a.ram[d])
    && forall d, v :: IsDirectory(a.own, d) && 0 <= v < PAGES ==> SameWalk(a, b, d, v)
  }

  lemma KeptOn(a: Moment, b: Moment, c: Moment)
    requires Kept(a, b) && Kept(b, c)
    ensures Kept(a, c)
  {
    forall d, v | IsDirectory(a.own, d) && 0 <= v < PAGES
      ensures SameWalk(a, c, d, v)
    {
      assert SameWalk(a, b, d, v) && SameWalk(b, c, d, v);
    }
  }

  lemma LoadKept(a: Moment, b: Moment, l: Load)
    requires Consistent(a.ram, a.own, a.frames) && Loaded(a, b, l)
    ensures Kept(a, b)
  {
    LoadKeeps(a, b, l);
    hide Loaded;
    forall d, v | IsDirectory(a.own, d) && 0 <= v < PAGES
      ensures SameWalk(a, b, d, v)
    {
      WalkFrame(a.ram, b.ram, a.own, KERNEL_PD, d, v);
    }
  }

  lemma StoresKept(a: Moment, b: Moment)
    requires Owned(a.ram, a.own, KERNEL_PD) && TablesKept(a, b)
    ensures Kept(a, b)
  {
    forall d, v | IsDirectory(a.own, d) && 0 <= v < PAGES
      ensures SameWalk(a, b, d, v)
    {
      TablesKeptWalk(a, b, d, v);
    }
  }

  lemma ActKept(v: Ext2.Volume, a: System, act: Act, b: System)
    requires Sound(a) && Acts(v, a, act, b)
    ensures Kept(a.mem, b.mem)
  {
    match act
    case Exec(l, entry) => LoadKept(a.mem, b.mem, l);
    case Enter => StoresKept(a.mem, b.mem);
    case Step(e) => StoresKept(a.mem, b.mem);
  }

  lemma SelfKept(y: System)
    requires Sound(y)
    ensures Kept(y.mem, y.mem)
  {
  }

  /** In every history, with loads, ticks, switches, system calls and user stores in any order: every
      directory that exists at one point translates every page at every later point as it did. */
  lemma {:induction false} TranslationsKept(v: Ext2.Volume, ys: seq<System>, acts: seq<Act>, i: nat, j: nat)
    requires History(v, ys, acts) && i <= j <= |acts| && Sound(ys[0])
    ensures Kept(ys[i].mem, ys[j].mem)
    decreases j
  {
    hide Sound, Acts, Kept;
    if i == j {
      AlwaysSound(v, ys, acts, i);
      SelfKept(ys[i]);
    } else {
      AlwaysSound(v, ys, acts, j - 1);
      assert ActAt(v, ys, acts, j - 1);
      TranslationsKept(v, ys, acts, i, j - 1);
      ActKept(v, ys[j - 1], acts[j - 1], ys[j]);
      KeptOn(ys[i].mem, ys[j - 1].mem, ys[j].mem);
    }
  }

  /** Load i of a history: what it leaves, and the kernel directory it started from. */
  lemma LoadOf(v: Ext2.Volume, ys: seq<System>, acts: seq<Act>, i: nat)
    requires History(v, ys, acts) && i < |acts| && acts[i].Exec? && Sound(ys[0])
    ensures var l, a, b, kd := acts[i].l, ys[i].mem, ys[i + 1].mem, KernelPage(ys[0].mem);
      && l.pd !in a.own && IsDirectory(b.own, l.pd)
      && Elf.OwnPages(b.ram, b.own, l.pd, kd) && Straight(b.ram, b.own, KERNEL_PD, l.pd)
      && Owned(b.ram, b.own, KERNEL_PD)
  {
    assert ActAt(v, ys, acts, i);
    LoadKeeps(ys[i].mem, ys[i + 1].mem, acts[i].l);
    LoadedStraight(ys[i].mem, ys[i + 1].mem, acts[i].l);
    TranslationsKept(v, ys, acts, 0, i);
    hide Loaded, Elf.OwnPages, Straight;
    assert IsDirectory(ys[0].mem.own, KERNEL_PD);
  }

  lemma LoadedStraight(a: Moment, b: Moment, l: Load)
    requires Loaded(a, b, l)
    ensures Straight(b.ram, b.own, KERNEL_PD, l.pd)
  {
    hide Elf.Sees, Elf.OwnPages, AgreeOn, Elf.Cost, Elf.Headers, Elf.Image, LowFree, Straight;
  }

  function KernelPage(a: Moment): Page {
    if KERNEL_PD < |a.ram| then a.ram[KERNEL_PD] else ZeroPage()
  }

  /** A page of a process loaded earlier: it is in the frame that the load gave it, still the process's. */
  lemma PageOwned(a: Moment, b: Moment, kd: Page, pd: nat, p: nat)
    requires Kept(a, b) && IsDirectory(a.own, pd) && Elf.OwnPages(a.ram, a.own, pd, kd)
    requires p < PAGES && Elf.UserSlot(kd, p)
    ensures pd < |a.ram| && pd < |b.ram| && Walk(b.ram, pd, p) == Walk(a.ram, pd, p)
    ensures Walk(b.ram, pd, p).Some? ==> Elf.FrameOwner(b.own, Walk(b.ram, pd, p).value.frame, UserPage(pd))
  {
    assert SameWalk(a, b, pd, p);
  }

  /** Two programs loaded in a history have different directories and, at every later point, share no
      frame of their own pages. */
  lemma ProgramsDisjoint(v: Ext2.Volume, ys: seq<System>, acts: seq<Act>, i: nat, k: nat, j: nat, p: nat, q: nat)
    requires History(v, ys, acts) && i < k < j <= |acts| && acts[i].Exec? && acts[k].Exec? && Sound(ys[0])
    requires p < PAGES && q < PAGES && Elf.UserSlot(KernelPage(ys[0].mem), p) && Elf.UserSlot(KernelPage(ys[0].mem), q)
    ensures var d, c := acts[i].l.pd, acts[k].l.pd;
      && d != c && d < |ys[j].mem.ram| && c < |ys[j].mem.ram|
      && var x, y := Walk(ys[j].mem.ram, d, p), Walk(ys[j].mem.ram, c, q);
      x.Some? && y.Some? ==> x.value.frame != y.value.frame
  {
    hide Sound, Acts, Kept, Elf.OwnPages, Straight, Owned;
    LoadOf(v, ys, acts, i);
    LoadOf(v, ys, acts, k);
    TranslationsKept(v, ys, acts, i + 1, k);
    TranslationsKept(v, ys, acts, i + 1, j);
    TranslationsKept(v, ys, acts, k + 1, j);
    StillDirectory(ys[i + 1].mem, ys[k].mem, acts[i].l.pd);
    PageOwned(ys[i + 1].mem, ys[j].mem, KernelPage(ys[0].mem), acts[i].l.pd, p);
    PageOwned(ys[k + 1].mem, ys[j].mem, KernelPage(ys[0].mem), acts[k].l.pd, q);
  }

  lemma StillDirectory(a: Moment, b: Moment, d: nat)
    requires Kept(a, b) && IsDirectory(a.own, d)
    ensures IsDirectory(b.own, d)
  {
  }

  lemma StraightKept(a: Moment, b: Moment, d: nat)
    requires Kept(a, b) && Owned(a.ram, a.own, KERNEL_PD) && IsDirectory(a.own, d)
    requires Straight(a.ram, a.own, KERNEL_PD, d)
    ensures Straight(b.ram, b.own, KERNEL_PD, d)
  {
    forall i | 0 <= i < 1024
      ensures StraightAt(b.ram, b.own, KERNEL_PD, d, i)
    {
      assert StraightAt(a.ram, a.own, KERNEL_PD, d, i) && SlotOk(a.ram, a.own, KERNEL_PD, d, i);
    }
  }

  /** With the directory of a loaded program in CR3, at any later point of a history, vmm_map_page and
      vmm_unmap_page leave the translation cache coherent. */
  lemma ProgramCacheCoherent(v: Ext2.Volume, ys: seq<System>, acts: seq<Act>, i: nat, j: nat,
                             p: nat, e: u32, f: nat, flags: nat)
    requires History(v, ys, acts) && i < j <= |acts| && acts[i].Exec? && Sound(ys[0])
    requires CanMap(ys[j].mem.ram, ys[j].mem.own, KERNEL_PD, KERNEL_PD, p, f, flags)
    ensures var m, d := ys[j].mem.ram, acts[i].l.pd;
      && d < |m| && Vmm.Coherent(m, Mapped(m, KERNEL_PD, p, e, f, flags), d, p)
      && (Present(m[KERNEL_PD][p / 1024]) ==> FrameOf(m[KERNEL_PD][p / 1024]) < |m|)
      && Vmm.Coherent(m, Vmm.Unmapped(m, KERNEL_PD, p), d, p)
  {
    hide Sound, Acts, Kept, Elf.OwnPages, Straight, Vmm.Coherent;
    LoadOf(v, ys, acts, i);
    TranslationsKept(v, ys, acts, i + 1, j);
    StillDirectory(ys[i + 1].mem, ys[j].mem, acts[i].l.pd);
    StraightKept(ys[i + 1].mem, ys[j].mem, acts[i].l.pd);
    Vmm.CacheWhenStraight(ys[j].mem.ram, ys[j].mem.own, KERNEL_PD, acts[i].l.pd, p, e, f, flags);
  }

  // ----- the first state -----

  /** Memory as the set-up leaves it, and the two built-in tasks. */
  lemma BootSound(y: System)
    requires Consistent(y.mem.ram, y.mem.own, y.mem.frames) && y.mem.own == Paging.BootOwners()
    requires Paging.KernelTables(y.mem.ram)
    requires Paging.TaskTables(y.mem.ram, Paging.TASK_A) && Paging.TaskTables(y.mem.ram, Paging.TASK_B)
    requires Boot.Fresh(y.k, [Boot.TaskA(), Boot.TaskB()]) && y.k.cr3 == KERNEL_PD * PAGE
    ensures Sound(y)
  {
    var m, own := y.mem.ram, y.mem.own;
    forall v | 0 <= v < IDENTITY
      ensures Walk(m, KERNEL_PD, v) == Some(Leaf(v, true, true))
      ensures Walk(m, Paging.TASK_A_PD, v) == Some(Leaf(v, true, true))
      ensures Walk(m, Paging.TASK_B_PD, v) == Some(Leaf(v, true, true))
    {
      Paging.KernelWalk(m, v);
      Paging.LowWalk(m, Paging.TASK_A, v);
      Paging.LowWalk(m, Paging.TASK_B, v);
    }
    hide Paging.KernelTables, Paging.TaskTables, Consistent, Walk;
    var a, b := Registered(Boot.TaskA()), Registered(Boot.TaskB());
    assert y.k.tasks == [a, b];
    assert Housed(y.mem, a) && Housed(y.mem, b) && Apart(a, b);
  }

  lemma LowFreeBooted(s: Pmm.Frames)
    requires Pmm.Booted(s) && s.total >= Pmm.RESERVED_PAGES
    ensures |LowFree(s)| == Ext2.Min(s.total, IDENTITY) - Pmm.RESERVED_PAGES
  {
    Pmm.RangeSize(LowFree(s), Pmm.RESERVED_PAGES, Ext2.Min(s.total, IDENTITY));
  }

  /** A program that fits in the memory the allocator gets. */
  ghost predicate FitsMemory(file: seq<u8>, memSize: u32) {
    && Elf.TableInFile(file)
    && (forall i :: 0 <= i < |Elf.Headers(file)| ==> ElfExec.FitsAbove(Elf.Headers(file)[i], file))
    && Elf.Cost(Elf.Headers(file)) + Pmm.RESERVED_PAGES <= Ext2.Min(memSize / PAGE, IDENTITY)
  }

  lemma FitsLoads(file: seq<u8>, memSize: u32, m: Ram, s: Pmm.Frames)
    requires FitsMemory(file, memSize) && |m| == FRAMES && Paging.KernelTables(m)
    requires Pmm.Booted(s) && s.total == if memSize / PAGE > FRAMES then FRAMES else memSize / PAGE
    ensures Elf.Loadable(file, m[KERNEL_PD]) && Elf.Cost(Elf.Headers(file)) <= |LowFree(s)|
  {
    ElfExec.LoadableAfterBoot(m, file);
    LowFreeBooted(s);
  }

  /** The whole system, as the machine, the processor and the scheduler's table hold it. */
  ghost function Now(l: ElfExec.Loader, nodes: Vfs.Pool): System
    requires l.mach.pmm.bitmap.Length == FRAMES / 32 && l.sched.ntasks <= l.sched.pool.Length
    reads l.mach`own, l.mach.ram, l.mach.pmm`total, l.mach.pmm.bitmap
    reads l.sched`ntasks, l.sched`cur, l.sched.cpu`cr3, l.sched.cpu`esp0, l.sched.pool
  {
    System(Moment(l.mach.ram[..], l.mach.own, l.mach.pmm.State()), l.sched.View(nodes))
  }

  /** The part of kmain that sets up memory and tasks: init_paging, pmm_init and launch_tasks. */
  method SetUp(l: ElfExec.Loader, memSize: u32, ghost nodes: Vfs.Pool)
    requires l.mach.ram.Length == FRAMES && l.mach.pmm.bitmap.Length == FRAMES / 32
    requires l.sched.Valid() && l.sched.ntasks == 0
    modifies l.mach.ram, l.mach.pmm, l.mach.pmm.bitmap, l.mach`own, l.sched.cpu
    modifies l.sched`ntasks, l.sched`cur, l.sched.pool, l.sched.taskList, l.sched.links
    ensures l.mach.Valid() && l.sched.Valid() && l.sched.ntasks == 2
    ensures Sound(Now(l, nodes)) && Paging.KernelTables(l.mach.ram[..]) && Pmm.Booted(l.mach.pmm.State())
    ensures l.mach.pmm.State().total == if memSize / PAGE > FRAMES then FRAMES else memSize / PAGE
    ensures Boot.Fresh(l.sched.View(nodes), [Boot.TaskA(), Boot.TaskB()])
    ensures l.sched.cpu.esp0 == Boot.TASK_A_KSTACK_TOP
  {
    hide Paging.KernelTables, Paging.TaskTables, Consistent, Boot.Fresh, Pmm.Booted, Paging.BootOwners;
    Paging.Boot(l.mach, l.sched.cpu, memSize);
    assert Consistent(l.mach.ram[..], l.mach.own, l.mach.pmm.State());
    Boot.LaunchTasks(l.sched, nodes);
    BootSound(Now(l, nodes));
  }

  /** What elf_exec does, as ElfExec.Loader.Exec has it. */
  ghost predicate Executes(a: System, b: System, verdict: ElfExec.Verdict, file: seq<u8>, pd: nat, kstack: nat) {
    if verdict.Accepted? then
      && Elf.TableInFile(file) && pd < IDENTITY && kstack < IDENTITY
      && Elf.LoadedFrom(a.mem.ram, a.mem.own, a.mem.frames, b.mem.ram, b.mem.own, b.mem.frames, pd, kstack, file)
      && b.k == AddTask(a.k, ElfExec.TaskFor(Elf.ParseHeader(file).entry, pd, kstack))
    else b == a
  }

  /** elf_exec after the set-up. */
  lemma Executed(v: Ext2.Volume, a: System, b: System, verdict: ElfExec.Verdict, file: seq<u8>, pd: nat, kstack: nat)
    returns (ns: seq<NewTask>)
    requires Sound(a) && Boot.Fresh(a.k, [Boot.TaskA(), Boot.TaskB()])
    requires Executes(a, b, verdict, file, pd, kstack) && Consistent(b.mem.ram, b.mem.own, b.mem.frames)
    ensures Sound(b) && Boot.Fresh(b.k, ns) && ns != [] && ns[0] == Boot.TaskA() && b.k.esp0 == a.k.esp0
  {
    ns := [Boot.TaskA(), Boot.TaskB()];
    if verdict.Accepted? {
      var n := ElfExec.TaskFor(Elf.ParseHeader(file).entry, pd, kstack);
      Boot.FreshGrows(a.k, ns, n);
      ns := ns + [n];
      hide Elf.LoadedFrom, Consistent, Sound;
      ExecSound(v, a, Load.Load(file, pd, kstack), Elf.ParseHeader(file).entry, b);
    }
  }

  lemma EnteredSound(v: Ext2.Volume, a: System, b: System, ns: seq<NewTask>)
    requires Sound(a) && Boot.Fresh(a.k, ns) && ns != [] && a.k.esp0 == ns[0].kstack
    requires b == a.(k := a.k.(cr3 := ns[0].cr3))
    ensures Sound(b)
  {
    assert a.k.tasks[0] == Registered(ns[0]);
    hide Sound;
    ActSound(v, a, Enter, b);
  }

  /** elf_exec, from where the set-up leaves off. */
  method ExecProgram(l: ElfExec.Loader, name: Ext2.CString, ghost file: seq<u8>, ghost nodes: Vfs.Pool)
    returns (verdict: ElfExec.Verdict, ghost ns: seq<NewTask>)
    requires l.Valid() && l.sched.ntasks == 2 && Sound(Now(l, nodes))
    requires Boot.Fresh(l.sched.View(nodes), [Boot.TaskA(), Boot.TaskB()])
    requires file == ElfExec.InBuffer(l.fs.ext2.vol, l.Found(name), l.elfBuf.bytes[..])
    requires ElfExec.Judge(l.Found(name), ElfExec.FileOf(l.fs.ext2.vol, l.Found(name))) == ElfExec.Accepted ==>
               Elf.Loadable(file, l.mach.ram[KERNEL_PD]) && Elf.Cost(Elf.Headers(file)) <= |LowFree(l.mach.pmm.State())|
    modifies l.elfBuf.bytes, l.fs.ext2.blkA, l.fs.ext2.blkB
    modifies l.mach.ram, l.mach.pmm`free, l.mach.pmm.bitmap, l.mach`own
    modifies l.sched`ntasks, l.sched`cur, l.sched.pool, l.sched.taskList, l.sched.links
    ensures l.Valid() && Sound(Now(l, nodes))
    ensures Boot.Fresh(l.sched.View(nodes), ns) && ns != [] && ns[0] == Boot.TaskA()
    ensures verdict == ElfExec.Judge(old(l.Found(name)), ElfExec.FileOf(l.fs.ext2.vol, old(l.Found(name))))
    ensures l.sched.ntasks == if verdict.Accepted? then 3 else 2
  {
    hide ElfExec.Judge, ElfExec.InBuffer, ElfExec.FileOf, ElfExec.Loader.Found, Sound, Boot.Fresh;
    hide Vfs.FileSystem.Valid, Elf.ParseHeader, ElfExec.TaskFor, ElfExec.StartsIn;
    hide Elf.Loadable, LowFree, Elf.Cost, Elf.LoadedFrom, Consistent, Elf.TableInFile, Elf.Headers, Registered;
    ghost var y, v := Now(l, nodes), l.fs.ext2.vol;
    var pd, kstack;
    verdict, pd, kstack := l.Exec(name, nodes);
    assert Executes(y, Now(l, nodes), verdict, file, pd, kstack);
    hide Executes;
    ns := Executed(v, y, Now(l, nodes), verdict, file, pd, kstack);
  }

  /** elf_exec and then sched_enter, from where the set-up leaves off. */
  method ExecAndEnter(l: ElfExec.Loader, flags: u32, name: Ext2.CString, ghost file: seq<u8>, ghost nodes: Vfs.Pool)
    returns (verdict: ElfExec.Verdict, entry: Boot.UserEntry)
    requires l.Valid() && l.sched.ntasks == 2 && Sound(Now(l, nodes))
    requires Boot.Fresh(l.sched.View(nodes), [Boot.TaskA(), Boot.TaskB()])
    requires l.sched.cpu.esp0 == Boot.TASK_A_KSTACK_TOP && forall n :: 0 <= n < Vfs.POOL ==> !nodes[n].used
    requires file == ElfExec.InBuffer(l.fs.ext2.vol, l.Found(name), l.elfBuf.bytes[..])
    requires ElfExec.Judge(l.Found(name), ElfExec.FileOf(l.fs.ext2.vol, l.Found(name))) == ElfExec.Accepted ==>
               Elf.Loadable(file, l.mach.ram[KERNEL_PD]) && Elf.Cost(Elf.Headers(file)) <= |LowFree(l.mach.pmm.State())|
    modifies l.elfBuf.bytes, l.fs.ext2.blkA, l.fs.ext2.blkB
    modifies l.mach.ram, l.mach.pmm`free, l.mach.pmm.bitmap, l.mach`own
    modifies l.sched`ntasks, l.sched`cur, l.sched.pool, l.sched.taskList, l.sched.links, l.sched.cpu`cr3
    ensures l.Valid() && Sound(Now(l, nodes)) && Boot.Started(l.sched.View(nodes))
    ensures verdict == ElfExec.Judge(old(l.Found(name)), ElfExec.FileOf(l.fs.ext2.vol, old(l.Found(name))))
    ensures l.sched.ntasks == if verdict.Accepted? then 3 else 2
  {
    hide ElfExec.Judge, ElfExec.InBuffer, ElfExec.FileOf, ElfExec.Loader.Found, Sound, Boot.Fresh, Boot.Started;
    hide Elf.Loadable, LowFree, Elf.Cost, Consistent, Elf.Headers, Bit, Or, NewTask.InitialContext;
    ghost var ns;
    verdict, ns := ExecProgram(l, name, file, nodes);
    ghost var y := Now(l, nodes);
    entry := Boot.SchedEnter(l.sched, flags, ns, nodes);
    EnteredSound(l.fs.ext2.vol, y, Now(l, nodes), ns);
  }

  /** kmain from init_paging on, starting the program `name`: multitasking starts in a sound state,
      with the processor on the first task's page directory and kernel stack. */
  method Startup(l: ElfExec.Loader, memSize: u32, flags: u32, name: Ext2.CString, ghost nodes: Vfs.Pool)
    returns (verdict: ElfExec.Verdict, entry: Boot.UserEntry)
    requires l.mach.ram.Length == FRAMES && l.mach.pmm.bitmap.Length == FRAMES / 32
    requires l.sched.Valid() && l.sched.ntasks == 0 && l.fs.Valid() && l.Apart()
    requires forall n :: 0 <= n < Vfs.POOL ==> !nodes[n].used
    requires ElfExec.Judge(l.Found(name), ElfExec.FileOf(l.fs.ext2.vol, l.Found(name))) == ElfExec.Accepted ==>
               FitsMemory(ElfExec.InBuffer(l.fs.ext2.vol, l.Found(name), l.elfBuf.bytes[..]), memSize)
    modifies l.mach.ram, l.mach.pmm, l.mach.pmm.bitmap, l.mach`own, l.sched.cpu
    modifies l.sched`ntasks, l.sched`cur, l.sched.pool, l.sched.taskList, l.sched.links
    modifies l.elfBuf.bytes, l.fs.ext2.blkA, l.fs.ext2.blkB
    ensures l.Valid() && Sound(Now(l, nodes)) && Boot.Started(l.sched.View(nodes))
    ensures verdict == ElfExec.Judge(old(l.Found(name)), ElfExec.FileOf(l.fs.ext2.vol, old(l.Found(name))))
    ensures l.sched.ntasks == if verdict.Accepted? then 3 else 2
  {
    hide ElfExec.Judge, ElfExec.InBuffer, ElfExec.FileOf, FitsMemory, Sound, Consistent;
    hide Paging.KernelTables, Pmm.Booted, Elf.Loadable, LowFree, Elf.Cost, Boot.Fresh, Boot.Started;
    ghost var ino := l.Found(name);
    ghost var file := ElfExec.InBuffer(l.fs.ext2.vol, ino, l.elfBuf.bytes[..]);
    SetUp(l, memSize, nodes);
    if ElfExec.Judge(ino, ElfExec.FileOf(l.fs.ext2.vol, ino)) == ElfExec.Accepted {
      FitsLoads(file, memSize, l.mach.ram[..], l.mach.pmm.State());
    }
    assert l.Found(name) == ino;
    verdict, entry := ExecAndEnter(l, flags, name, file, nodes);
  }
}
