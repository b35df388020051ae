/** process/task.c: registering the built-in tasks and entering user mode. The state in which
    multitasking starts has every property that the theorems about runs ask of a first state. */
module Boot {
  import opened Bits
  import Paging
  import opened Kernel
  import opened Scheduler
  import Runs
  import Signals
  import Descriptors
  import Vfs

  const TASK_A_KSTACK_TOP: u32 := Paging.TASK_A_KSTACK * PAGE + PAGE
  const TASK_B_KSTACK_TOP: u32 := Paging.TASK_B_KSTACK * PAGE + PAGE

  function TaskA(): NewTask {
    NewTask(Paging.TASK_CODE_VIRT, 0x23, 0x202, Paging.TASK_STACK_VIRT + 0xFF0, 0x33, Paging.TASK_A_PD * PAGE,
        TASK_A_KSTACK_TOP)
  }

  function TaskB(): NewTask {
    NewTask(Paging.TASK_CODE_VIRT, 0x23, 0x202, Paging.TASK_STACK_VIRT + 0xFF0, 0x33, Paging.TASK_B_PD * PAGE,
        TASK_B_KSTACK_TOP)
  }

  /** The built-in tasks, in numbers. */
  lemma BuiltInTasks()
    ensures TaskA() == NewTask(0x4000_0000, 0x23, 0x202, 0x4000_1FF0, 0x33, 0x20_5000, 0x32_1000)
    ensures TaskB() == NewTask(0x4000_0000, 0x23, 0x202, 0x4000_1FF0, 0x33, 0x20_7000, 0x32_3000)
  {
  }

  /** The tasks are those registered with `ns`, none of which has run. */
  ghost predicate Fresh(s: State, ns: seq<NewTask>) {
    && |s.tasks| == |ns| <= MAX_TASKS && s.cur == 0
    && forall t :: 0 <= t < |ns| ==> s.tasks[t] == Registered(ns[t])
  }

  lemma FreshGrows(s: State, ns: seq<NewTask>, n: NewTask)
    requires Fresh(s, ns) && |ns| < MAX_TASKS
    ensures Fresh(AddTask(s, n), ns + [n])
  {
  }

  /** launch_tasks, from init_tss on. */
  method LaunchTasks(sched: TaskTable, ghost nodes: Vfs.Pool)
    requires sched.Valid() && sched.ntasks == 0
    modifies sched`ntasks, sched`cur, sched.cpu`esp0, sched.pool, sched.taskList, sched.links
    ensures sched.Valid() && sched.ntasks == 2
    ensures Fresh(sched.View(nodes), [TaskA(), TaskB()]) && sched.cpu.esp0 == TASK_A_KSTACK_TOP
  {
    hide Registered;
    sched.cpu.esp0 := TASK_A_KSTACK_TOP;
    FreshGrows(sched.View(nodes), [], TaskA());
    sched.AddTask(TaskA(), nodes);
    FreshGrows(sched.View(nodes), [TaskA()], TaskB());
    sched.AddTask(TaskB(), nodes);
  }

  /** Setting bit 9 sets that bit and no other. */
  lemma InterruptsEnabled(flags: u32)
    ensures Bit(Or(flags, 0x200), 9) && forall i :: 0 <= i < 32 && i != 9 ==> Bit(Or(flags, 0x200), i) == Bit(flags, i)
  {
    forall i | 0 <= i < 32
      ensures Bit(Or(flags, 0x200), i) <==> Bit(flags, i) || i == 9
    {
      OrBit(flags, 0x200, 32, i);
      BitOf512(i);
      WordBits();
    }
  }

  lemma BitOf512(i: nat)
    requires i < 32
    ensures Bit(0x200, i) <==> i == 9
  {
    if i < 9 {
      PowersApart(i);
    } else if i > 9 {
      PowersApart(i);
    } else {
      assert Pow2(9) == 0x200;
    }
  }

  lemma PowersApart(i: nat)
    requires i < 32
    ensures i < 9 ==> 0x200 / Pow2(i) % 2 == 0
    ensures i > 9 ==> Pow2(i) > 0x200
  {
    assert Pow2(0) == 1 && Pow2(1) == 2 && Pow2(2) == 4 && Pow2(3) == 8 && Pow2(4) == 0x10;
    assert Pow2(5) == 0x20 && Pow2(6) == 0x40 && Pow2(7) == 0x80 && Pow2(8) == 0x100 && Pow2(9) == 0x200;
    PowerGrows(10, i);
  }

  lemma {:induction false} PowerGrows(k: nat, i: nat)
    ensures k <= i ==> Pow2(k) <= Pow2(i)
  {
    if k < i {
      PowerGrows(k, i - 1);
    }
  }

  /** The words that sched_enter leaves for iret, selectors by their low 16 bits. */
  datatype UserEntry = UserEntry(eip: u32, cs: nat, eflags: u32, esp: u32, ss: nat)

  /** sched_enter: load the first task's page directory and enter it at its initial context, with the
      kernel's own flags (`flags`) and interrupts enabled. */
  method SchedEnter(sched: TaskTable, flags: u32, ghost ns: seq<NewTask>, ghost nodes: Vfs.Pool)
    returns (entry: UserEntry)
    requires sched.Valid() && sched.ntasks > 0
    requires Fresh(sched.View(nodes), ns) && ns[0] == TaskA() && sched.cpu.esp0 == TASK_A_KSTACK_TOP
    requires forall n :: 0 <= n < Vfs.POOL ==> !nodes[n].used
    modifies sched.cpu`cr3
    ensures sched.Valid() && Started(sched.View(nodes))
    ensures sched.View(nodes) == old(sched.View(nodes)).(cr3 := ns[0].cr3)
    ensures var c := ns[0].InitialContext();
      entry == UserEntry(c[EIP], c[CS], Or(flags, 0x200), c[ESP], c[12])
    ensures entry.eip == 0x4000_0000 && entry.cs == 0x23 && entry.esp == 0x4000_1FF0 && entry.ss == 0x33
    ensures Bit(entry.eflags, 9) && forall i :: 0 <= i < 32 && i != 9 ==> Bit(entry.eflags, i) == Bit(flags, i)
  {
    InterruptsEnabled(flags);
    hide Bit, Or;
    sched.cpu.cr3 := Paging.TASK_A_PD * PAGE;
    FreshStarted(sched.View(nodes), ns);
    entry := UserEntry(0x4000_0000, 0x23, Or(flags, 0x200), 0x4000_1FF0, 0x33);
  }

  /** What the theorems about runs ask of their first state. */
  ghost predicate Started(s: State) {
    && s.Valid() && Runs.Loaded(s) && Descriptors.Paired(s) && Signals.BitZeroClear(s)
    && forall t :: 0 <= t < |s.tasks| ==> !s.tasks[t].inHandler
  }

  lemma FreshStarted(s: State, ns: seq<NewTask>)
    requires Fresh(s, ns) && ns != [] && s.cr3 == ns[0].cr3 && s.esp0 == ns[0].kstack
    requires forall n :: 0 <= n < Vfs.POOL ==> !s.nodes[n].used
    ensures Started(s)
  {
    forall t, f | 0 <= t < |s.tasks| && 0 <= f < MAX_FD
      ensures Descriptors.FdOk(s, t, f)
    {
      assert s.tasks[t] == Registered(ns[t]);
    }
    forall t | 0 <= t < |s.tasks|
      ensures !s.tasks[t].pending[0] && !s.tasks[t].inHandler
    {
      assert s.tasks[t] == Registered(ns[t]);
    }
  }
}
