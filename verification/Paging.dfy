/** mm/paging.c: the kernel's identity mapping and the address spaces of the two built-in tasks,
    with the translations they give, exactly. */
module Paging {
  import opened Bits
  import opened Memory
  import opened Machines
  import opened Pmm
  import opened Processor

  const KERNEL_PT := 0x201   // first frame of KERNEL_PT_ADDR, four tables
  const HIGH_SLOT := 768     // KERNEL_VIRTUAL >> 22

  const TASK_A_PD := 0x205
  const TASK_A_PT := 0x206
  const TASK_B_PD := 0x207
  const TASK_B_PT := 0x208
  const TASK_CODE_VIRT: u32 := 0x4000_0000
  const TASK_STACK_VIRT: u32 := 0x4000_1000
  const TASK_A_CODE := 0x300
  const TASK_A_STACK := 0x30F
  const TASK_B_CODE := 0x301
  const TASK_B_STACK := 0x30E
  const TASK_A_KSTACK := 0x320
  const TASK_B_KSTACK := 0x322

  // ----- what the tables hold -----

  ghost predicate KernelTables(m: Ram)
    requires |m| == FRAMES
  {
    && (forall j :: 0 <= j < 4096 ==> m[KERNEL_PT + j / 1024][j % 1024] == Entry(j, ALL))
    && (forall i :: 0 <= i < 1024 ==> m[KERNEL_PD][i] == if i < 4 then Entry(KERNEL_PT + i, ALL) else 0)
  }

  /** The arguments of create_task_space, as frames and addresses. */
  datatype Task = Task(code: nat, stack: nat, codeVirt: u32, stackVirt: u32, pd: nat, pt: nat) {
    /** Frames in range, and tables apart from the kernel's and from each other. */
    predicate Valid() {
      && code < FRAMES && stack < FRAMES && pd < FRAMES && pt < FRAMES
      && pd != pt && !(KERNEL_PD <= pd < KERNEL_PT + 4) && !(KERNEL_PD <= pt < KERNEL_PT + 4)
    }

    function CodeSlot(): (i: nat)
      ensures i < 1024
    {
      codeVirt / 0x40_0000
    }

    function CodeIndex(): nat {
      codeVirt / 0x1000 % 0x400
    }

    function StackIndex(): nat {
      stackVirt / 0x1000 % 0x400
    }

    function TableWord(j: nat): u32
      requires Valid()
    {
      if j == StackIndex() then Entry(stack, ALL)
      else if j == CodeIndex() then Entry(code, ALL)
      else 0
    }

    function DirectoryWord(m: Ram, i: nat): u32
      requires Valid() && |m| == FRAMES && i < 1024
    {
      if i < 4 then m[KERNEL_PD][i]
      else if HIGH_SLOT <= i < HIGH_SLOT + 4 then Entry(KERNEL_PT + (i - HIGH_SLOT), PRESENT + WRITE)
      else if i == CodeSlot() then Entry(pt, ALL)
      else 0
    }
  }

  ghost predicate TaskTables(m: Ram, t: Task)
    requires |m| == FRAMES && t.Valid()
  {
    && (forall j :: 0 <= j < 1024 ==> m[t.pt][j] == t.TableWord(j))
    && (forall i :: 0 <= i < 1024 ==> m[t.pd][i] == t.DirectoryWord(m, i))
  }

  // ----- the translations they give -----

  lemma KernelWalk(m: Ram, v: nat)
    requires |m| == FRAMES && KernelTables(m) && v < PAGES
    ensures Walk(m, KERNEL_PD, v) == if v < IDENTITY then Some(Leaf(v, true, true)) else None
  {
    assert m[KERNEL_PD][v / 1024] == if v / 1024 < 4 then Entry(KERNEL_PT + v / 1024, ALL) else 0;
    if v < IDENTITY {
      assert m[KERNEL_PT + v / 1024][v % 1024] == Entry(v, ALL);
      WalkOf(m, KERNEL_PD, v, KERNEL_PT + v / 1024, ALL, v, ALL);
    }
  }

  /** The exact address space of a task: identity below 16 MB, the kernel's high alias without
      user access, and the two pages entered in the table of the code's directory slot. */
  function TaskSpace(t: Task, v: nat): Option<Leaf> {
    var i, j := v / 1024, v % 1024;
    if i < 4 then Some(Leaf(v, true, true))
    else if HIGH_SLOT <= i < HIGH_SLOT + 4 then Some(Leaf(v - HIGH_SLOT * 1024, true, false))
    else if i == t.CodeSlot() && j == t.StackIndex() then Some(Leaf(t.stack, true, true))
    else if i == t.CodeSlot() && j == t.CodeIndex() then Some(Leaf(t.code, true, true))
    else None
  }

  lemma LowWalk(m: Ram, t: Task, v: nat)
    requires |m| == FRAMES && t.Valid() && KernelTables(m) && TaskTables(m, t) && v < IDENTITY
    ensures Walk(m, t.pd, v) == Some(Leaf(v, true, true))
  {
    KernelWalk(m, v);
    assert m[t.pd][v / 1024] == t.DirectoryWord(m, v / 1024);
  }

  lemma HighWalk(m: Ram, t: Task, v: nat)
    requires |m| == FRAMES && t.Valid() && KernelTables(m) && TaskTables(m, t)
    requires HIGH_SLOT * 1024 <= v < (HIGH_SLOT + 4) * 1024
    ensures Walk(m, t.pd, v) == Some(Leaf(v - HIGH_SLOT * 1024, true, false))
  {
    var i, low := v / 1024, v - HIGH_SLOT * 1024;
    assert low / 1024 == i - HIGH_SLOT && low % 1024 == v % 1024;
    assert m[t.pd][i] == t.DirectoryWord(m, i);
    assert m[KERNEL_PT + low / 1024][low % 1024] == Entry(low, ALL);
    WalkOf(m, t.pd, v, KERNEL_PT + (i - HIGH_SLOT), PRESENT + WRITE, low, ALL);
  }

  lemma UserWalk(m: Ram, t: Task, v: nat)
    requires |m| == FRAMES && t.Valid() && TaskTables(m, t) && v < PAGES
    requires var i := v / 1024; i >= 4 && !(HIGH_SLOT <= i < HIGH_SLOT + 4)
    ensures Walk(m, t.pd, v) == TaskSpace(t, v)
  {
    assert m[t.pd][v / 1024] == t.DirectoryWord(m, v / 1024);
    if v / 1024 == t.CodeSlot() {
      CodeSlotWalk(m, t, v);
    }
  }

  lemma CodeSlotWalk(m: Ram, t: Task, v: nat)
    requires |m| == FRAMES && t.Valid() && v < PAGES
    requires m[t.pd][v / 1024] == Entry(t.pt, ALL) && m[t.pt][v % 1024] == t.TableWord(v % 1024)
    ensures Walk(m, t.pd, v)
            == if v % 1024 == t.StackIndex() then Some(Leaf(t.stack, true, true))
               else if v % 1024 == t.CodeIndex() then Some(Leaf(t.code, true, true))
               else None
  {
    if v % 1024 == t.StackIndex() {
      WalkOf(m, t.pd, v, t.pt, ALL, t.stack, ALL);
    } else if v % 1024 == t.CodeIndex() {
      WalkOf(m, t.pd, v, t.pt, ALL, t.code, ALL);
    } else {
      EntryFields(t.pt, ALL);
    }
  }

  lemma TaskWalk(m: Ram, t: Task, v: nat)
    requires |m| == FRAMES && t.Valid() && KernelTables(m) && TaskTables(m, t) && v < PAGES
    ensures Walk(m, t.pd, v) == TaskSpace(t, v)
  {
    var i := v / 1024;
    if i < 4 {
      LowWalk(m, t, v);
    } else if HIGH_SLOT <= i < HIGH_SLOT + 4 {
      HighWalk(m, t, v);
    } else {
      UserWalk(m, t, v);
    }
  }

  /** A directory slot that create_task_space fills with a kernel table after the slot of the code. */
  predicate KernelSlot(i: nat) {
    i < 4 || HIGH_SLOT <= i < HIGH_SLOT + 4
  }

  /** create_task_space looks at the directory slot of the code only: the stack is reachable at its own
      address, for the user, exactly when it shares that slot and the kernel does not take it over; or
      below 16 MB, if it is its own frame there. */
  lemma StackMappedIff(m: Ram, t: Task)
    requires |m| == FRAMES && t.Valid() && KernelTables(m) && TaskTables(m, t)
    ensures var v, i := t.stackVirt / PAGE, t.stackVirt / 0x40_0000;
      Walk(m, t.pd, v) == Some(Leaf(t.stack, true, true)) <==>
        if i < 4 then t.stack == v else !KernelSlot(i) && i == t.CodeSlot()
  {
    PageIndex(t.stackVirt);
    TaskWalk(m, t, t.stackVirt / PAGE);
  }

  /** The code is reachable at its own address, for the user, exactly when the stack does not have the
      same index in the table, or is the same frame; in the kernel's slots as for the stack. */
  lemma CodeMappedIff(m: Ram, t: Task)
    requires |m| == FRAMES && t.Valid() && KernelTables(m) && TaskTables(m, t)
    ensures var v := t.codeVirt / PAGE;
      Walk(m, t.pd, v) == Some(Leaf(t.code, true, true)) <==>
        if t.CodeSlot() < 4 then t.code == v
        else !KernelSlot(t.CodeSlot()) && (t.CodeIndex() != t.StackIndex() || t.code == t.stack)
  {
    PageIndex(t.codeVirt);
    TaskWalk(m, t, t.codeVirt / PAGE);
  }

  /** Code at 0x40000000 and stack at 0x50000000, in frames 0x300 and 0x30F, with frames 0x205 and
      0x206 for the tables: the stack is not mapped where it was asked for, but over the code, which is
      mapped nowhere outside the kernel's slots. */
  lemma StackLost(m: Ram)
    requires |m| == FRAMES && KernelTables(m)
    requires TaskTables(m, Task(TASK_A_CODE, TASK_A_STACK, 0x4000_0000, 0x5000_0000, TASK_A_PD, TASK_A_PT))
    ensures Walk(m, TASK_A_PD, 0x5_0000) == None
    ensures Walk(m, TASK_A_PD, 0x4_0000) == Some(Leaf(TASK_A_STACK, true, true))
    ensures forall v :: 0 <= v < PAGES && !KernelSlot(v / 1024) ==>
        Walk(m, TASK_A_PD, v) != Some(Leaf(TASK_A_CODE, true, true))
  {
    var t := Task(TASK_A_CODE, TASK_A_STACK, 0x4000_0000, 0x5000_0000, TASK_A_PD, TASK_A_PT);
    assert t.CodeSlot() == 256 && t.CodeIndex() == 0 && t.StackIndex() == 0;
    forall v | 0 <= v < PAGES
      ensures Walk(m, TASK_A_PD, v) == TaskSpace(t, v)
    {
      TaskWalk(m, t, v);
    }
    assert 0x5_0000 / 1024 == 320 && 0x4_0000 / 1024 == 256 && 0x4_0000 % 1024 == 0;
  }

  lemma KernelKept(m: Ram, m': Ram)
    requires |m| == FRAMES == |m'| && KernelTables(m)
    requires AgreeOn(m, m', {KERNEL_PD, KERNEL_PT, KERNEL_PT + 1, KERNEL_PT + 2, KERNEL_PT + 3})
    ensures KernelTables(m')
  {
    forall j | 0 <= j < 4096
      ensures m'[KERNEL_PT + j / 1024][j % 1024] == Entry(j, ALL)
    {
      assert m[KERNEL_PT + j / 1024][j % 1024] == Entry(j, ALL);
    }
  }

  /** Building another task's tables leaves this task's translations alone. */
  lemma TaskKept(m: Ram, m': Ram, t: Task, u: Task, v: nat)
    requires |m| == FRAMES == |m'| && t.Valid() && u.Valid() && v < PAGES
    requires KernelTables(m) && TaskTables(m, t) && TaskTables(m', u)
    requires {t.pd, t.pt} !! {u.pd, u.pt}
    requires forall f :: 0 <= f < FRAMES && f != u.pd && f != u.pt ==> m'[f] == m[f]
    ensures KernelTables(m') && TaskTables(m', t)
    ensures Walk(m', t.pd, v) == Walk(m, t.pd, v)
  {
    KernelKept(m, m');
    TaskWalk(m, t, v);
    TaskWalk(m', t, v);
  }

  // ----- the code -----

  /** init_paging. */
  method InitPaging(mach: Machine, cpu: Cpu)
    requires mach.ram.Length == FRAMES
    modifies mach.ram, cpu`cr3, cpu`cr0
    ensures cpu.cr3 == KERNEL_PD * PAGE == 0x20_0000 && cpu.cr0 == Or(old(cpu.cr0), PG)
    ensures KernelTables(mach.ram[..])
    ensures forall f :: 0 <= f < FRAMES && !(KERNEL_PD <= f < KERNEL_PT + 4) ==> mach.ram[f] == old(mach.ram[f])
  {
    mach.ZeroBytes(KERNEL_PD);
    var addr := 0;
    var i := 0;
    while i < 4 * 1024
      modifies mach.ram
      invariant 0 <= i <= 4 * 1024 && addr == i * PAGE
      invariant mach.ram[KERNEL_PD] == ZeroPage()
      invariant forall j :: 0 <= j < i ==> mach.ram[KERNEL_PT + j / 1024][j % 1024] == Entry(j, ALL)
      invariant forall f :: 0 <= f < FRAMES && !(KERNEL_PD <= f < KERNEL_PT + 4) ==> mach.ram[f] == old(mach.ram[f])
    {
      ghost var p := mach.ram[KERNEL_PT + i / 1024];
      mach.ram[KERNEL_PT + i / 1024] := mach.ram[KERNEL_PT + i / 1024][i % 1024 := addr + ALL];
      forall j | 0 <= j <= i
        ensures mach.ram[KERNEL_PT + j / 1024][j % 1024] == Entry(j, ALL)
      {
        if j / 1024 == i / 1024 {
        }
      }
      addr := addr + 0x1000;
      i := i + 1;
    }
    i := 0;
    while i < 4
      modifies mach.ram
      invariant 0 <= i <= 4
      invariant forall k :: 0 <= k < 1024 ==> mach.ram[KERNEL_PD][k] == if k < i then Entry(KERNEL_PT + k, ALL) else 0
      invariant forall j :: 0 <= j < 4096 ==> mach.ram[KERNEL_PT + j / 1024][j % 1024] == Entry(j, ALL)
      invariant forall f :: 0 <= f < FRAMES && !(KERNEL_PD <= f < KERNEL_PT + 4) ==> mach.ram[f] == old(mach.ram[f])
    {
      ghost var p := mach.ram[KERNEL_PD];
      mach.ram[KERNEL_PD] := mach.ram[KERNEL_PD][i := Entry(KERNEL_PT + i, ALL)];
      forall k | 0 <= k < 1024
        ensures mach.ram[KERNEL_PD][k] == if k < i + 1 then Entry(KERNEL_PT + k, ALL) else 0
      {
      }
      i := i + 1;
    }
    cpu.cr3 := KERNEL_PD * PAGE;
    cpu.cr0 := Or(cpu.cr0, PG);
  }

  /** Store word i of frame f. */
  method SetEntry(mach: Machine, f: nat, i: nat, e: u32)
    requires mach.ram.Length == FRAMES && f < FRAMES && i < 1024
    modifies mach.ram
    ensures forall k :: 0 <= k < 1024 ==> mach.ram[f][k] == if k == i then e else old(mach.ram[f])[k]
    ensures forall g :: 0 <= g < FRAMES && g != f ==> mach.ram[g] == old(mach.ram[g])
  {
    ghost var p := mach.ram[f];
    mach.ram[f] := mach.ram[f][i := e];
    forall k | 0 <= k < 1024
      ensures mach.ram[f][k] == if k == i then e else p[k]
    {
    }
  }

  /** The first four entries are the kernel directory's. */
  method InheritLow(mach: Machine, pd: nat)
    requires mach.ram.Length == FRAMES && pd < FRAMES && pd != KERNEL_PD
    modifies mach.ram
    ensures forall k :: 0 <= k < 1024 ==>
        mach.ram[pd][k] == if k < 4 then mach.ram[KERNEL_PD][k] else old(mach.ram[pd])[k]
    ensures forall g :: 0 <= g < FRAMES && g != pd ==> mach.ram[g] == old(mach.ram[g])
  {
    var i := 0;
    while i < 4
      invariant 0 <= i <= 4
      invariant forall k :: 0 <= k < 1024 ==>
          mach.ram[pd][k] == if k < i then mach.ram[KERNEL_PD][k] else old(mach.ram[pd])[k]
      invariant forall g :: 0 <= g < FRAMES && g != pd ==> mach.ram[g] == old(mach.ram[g])
    {
      SetEntry(mach, pd, i, mach.ram[KERNEL_PD][i]);
      i := i + 1;
    }
  }

  /** Four entries from KERNEL_VIRTUAL on refer to the kernel's tables, without user access. */
  method AliasHigh(mach: Machine, pd: nat)
    requires mach.ram.Length == FRAMES && pd < FRAMES
    modifies mach.ram
    ensures forall k :: 0 <= k < 1024 ==>
        mach.ram[pd][k] ==
        if HIGH_SLOT <= k < HIGH_SLOT + 4 then Entry(KERNEL_PT + (k - HIGH_SLOT), PRESENT + WRITE)
        else old(mach.ram[pd])[k]
    ensures forall g :: 0 <= g < FRAMES && g != pd ==> mach.ram[g] == old(mach.ram[g])
  {
    var i := 0;
    while i < 4
      invariant 0 <= i <= 4
      invariant forall k :: 0 <= k < 1024 ==>
          mach.ram[pd][k] ==
          if HIGH_SLOT <= k < HIGH_SLOT + i then Entry(KERNEL_PT + (k - HIGH_SLOT), PRESENT + WRITE)
          else old(mach.ram[pd])[k]
      invariant forall g :: 0 <= g < FRAMES && g != pd ==> mach.ram[g] == old(mach.ram[g])
    {
      SetEntry(mach, pd, HIGH_SLOT + i, Entry(KERNEL_PT + i, PRESENT + WRITE));
      i := i + 1;
    }
  }

  /** create_task_space. */
  method CreateTaskSpace(mach: Machine, t: Task)
    requires mach.ram.Length == FRAMES && t.Valid()
    modifies mach.ram
    ensures TaskTables(mach.ram[..], t)
    ensures forall f :: 0 <= f < FRAMES && f != t.pd && f != t.pt ==> mach.ram[f] == old(mach.ram[f])
  {
    mach.ZeroBytes(t.pd);
    mach.ZeroBytes(t.pt);
    SetEntry(mach, t.pt, t.CodeIndex(), Entry(t.code, ALL));
    SetEntry(mach, t.pt, t.StackIndex(), Entry(t.stack, ALL));
    SetEntry(mach, t.pd, t.CodeSlot(), Entry(t.pt, ALL));
    InheritLow(mach, t.pd);
    AliasHigh(mach, t.pd);
    ghost var m := mach.ram[..];
    assert m[t.pt] == mach.ram[t.pt] && m[t.pd] == mach.ram[t.pd] && m[KERNEL_PD] == mach.ram[KERNEL_PD];
  }

  // ----- the state the kernel starts from -----

  const TASK_A := Task(TASK_A_CODE, TASK_A_STACK, TASK_CODE_VIRT, TASK_STACK_VIRT, TASK_A_PD, TASK_A_PT)
  const TASK_B := Task(TASK_B_CODE, TASK_B_STACK, TASK_CODE_VIRT, TASK_STACK_VIRT, TASK_B_PD, TASK_B_PT)

  function BootOwner(f: nat): Owner {
    if f == KERNEL_PD || f == TASK_A_PD || f == TASK_B_PD then Directory
    else if KERNEL_PT <= f < KERNEL_PT + 4 then Table(KERNEL_PD, f - KERNEL_PT)
    else if f == TASK_A_PT then Table(TASK_A_PD, TASK_CODE_VIRT / 0x40_0000)
    else if f == TASK_B_PT then Table(TASK_B_PD, TASK_CODE_VIRT / 0x40_0000)
    else if f == TASK_A_CODE || f == TASK_A_STACK then UserPage(TASK_A_PD)
    else if f == TASK_B_CODE || f == TASK_B_STACK then UserPage(TASK_B_PD)
    else if f == TASK_A_KSTACK || f == TASK_B_KSTACK then KernelStack
    else Reserved
  }

  /** The first 4 MB, by purpose. */
  function BootOwners(): Owners {
    map f | 0 <= f < RESERVED_PAGES :: BootOwner(f)
  }

  /** The tables built at boot satisfy the ownership invariant. */
  lemma BootOwned(m: Ram)
    requires |m| == FRAMES && KernelTables(m) && TaskTables(m, TASK_A) && TaskTables(m, TASK_B)
    ensures Owned(m, BootOwners(), KERNEL_PD)
  {
    var own := BootOwners();
    forall d, i | IsDirectory(own, d) && 0 <= i < 1024
      ensures SlotOk(m, own, KERNEL_PD, d, i)
    {
      if d == KERNEL_PD {
        BootKernelSlot(m, i);
      } else {
        BootTaskSlot(m, if d == TASK_A_PD then TASK_A else TASK_B, i);
      }
    }
  }

  lemma BootKernelSlot(m: Ram, i: nat)
    requires |m| == FRAMES && KernelTables(m) && i < 1024
    ensures SlotOk(m, BootOwners(), KERNEL_PD, KERNEL_PD, i)
    ensures i < 4 ==> KernelTable(m, BootOwners(), KERNEL_PD, KERNEL_PT + i)
  {
    if i < 4 {
      EntryFields(KERNEL_PT + i, ALL);
    }
  }

  lemma BootTaskSlot(m: Ram, t: Task, i: nat)
    requires |m| == FRAMES && KernelTables(m) && (t == TASK_A || t == TASK_B) && TaskTables(m, t) && i < 1024
    ensures SlotOk(m, BootOwners(), KERNEL_PD, t.pd, i)
  {
    assert m[t.pd][i] == t.DirectoryWord(m, i);
    if i < 4 {
      BootKernelSlot(m, i);
      EntryFields(KERNEL_PT + i, ALL);
    } else if HIGH_SLOT <= i < HIGH_SLOT + 4 {
      BootKernelSlot(m, i - HIGH_SLOT);
      EntryFields(KERNEL_PT + (i - HIGH_SLOT), PRESENT + WRITE);
    } else {
      EntryFields(t.pt, ALL);
    }
  }

  /** The memory set-up of kmain and launch_tasks: paging, allocator, the two tasks. */
  method Boot(mach: Machine, cpu: Cpu, memSize: u32)
    requires mach.ram.Length == FRAMES && mach.pmm.bitmap.Length == FRAMES / 32
    modifies mach.ram, mach.pmm, mach.pmm.bitmap, mach`own, cpu`cr3, cpu`cr0
    ensures mach.Valid() && Booted(mach.pmm.State()) && mach.own == BootOwners() && cpu.cr3 == KERNEL_PD * PAGE
    ensures mach.pmm.State().total == if memSize / PAGE > FRAMES then FRAMES else memSize / PAGE
    ensures KernelTables(mach.ram[..]) && TaskTables(mach.ram[..], TASK_A) && TaskTables(mach.ram[..], TASK_B)
  {
    InitPaging(mach, cpu);
    mach.pmm.Init(memSize);
    ghost var m := mach.ram[..];
    CreateTaskSpace(mach, TASK_A);
    ghost var mA := mach.ram[..];
    KernelKept(m, mA);
    CreateTaskSpace(mach, TASK_B);
    ghost var mB := mach.ram[..];
    TaskKept(mA, mB, TASK_A, TASK_B, 0);
    mach.own := BootOwners();
    BootOwned(mB);
  }
}
