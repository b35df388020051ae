/** process/scheduler.c: the task pool, the circular task list and the switch, in place. */
module Scheduler {
  import opened Bits
  import opened Memory
  import opened Kernel
  import opened List
  import opened Processor
  import Vfs

  /** Where task i's link sits in the ring: after the sentinel and the links of tasks 0..i. */
  ghost function RingOf(head: ListHead, links: seq<ListHead>, n: nat): (r: seq<ListHead>)
    requires n <= |links|
    ensures |r| == n + 1 && r[0] == head && forall i :: 0 <= i < n ==> r[i + 1] == links[i]
  {
    [head] + links[..n]
  }

  class TaskTable {
    const pool: array<Tcb>          // task_pool
    const links: seq<ListHead>      // the `list` member of each entry of the pool
    const taskList: ListHead        // the sentinel
    var ntasks: nat
    var cur: int                    // cur_task, as an index; -1 for a null pointer
    const cpu: Cpu

    ghost predicate Layout() {
      && pool.Length == MAX_TASKS && |links| == MAX_TASKS
      && taskList !in links && Distinct(links)
      && forall i :: 0 <= i < MAX_TASKS ==> links[i].owner == i
    }

    /** The list holds the registered tasks, in order of registration. */
    ghost predicate Valid()
      reads `ntasks, `cur, taskList, links
    {
      && Layout() && ntasks <= MAX_TASKS
      && Ring(RingOf(taskList, links, ntasks))
      && (if ntasks == 0 then cur == -1 else 0 <= cur < ntasks)
    }

    /** The kernel state this stands for, with the given pool of nodes. */
    ghost function View(nodes: Vfs.Pool): (s: State)
      requires ntasks <= pool.Length
      reads `ntasks, `cur, cpu`cr3, cpu`esp0, pool
    {
      State(pool[..ntasks], if cur < 0 then 0 else cur, cpu.cr3, cpu.esp0, nodes)
    }

    /** LIST_HEAD(task_list) and the zeroed pool. */
    constructor (cpu: Cpu)
      ensures Valid() && ntasks == 0 && this.cpu == cpu
      ensures fresh(pool) && fresh(taskList) && forall i :: 0 <= i < |links| ==> fresh(links[i])
    {
      this.cpu := cpu;
      ntasks, cur := 0, -1;
      pool := new Tcb[MAX_TASKS](_ =>
        Tcb(ZeroContext(), 0, 0, NoFiles(), NoBits(), NoHandlers(), ZeroContext(), false));
      var head := new ListHead(-1);
      taskList := head;
      var ls: seq<ListHead> := [];
      var i := 0;
      while i < MAX_TASKS
        invariant 0 <= i <= MAX_TASKS && |ls| == i
        invariant fresh(head) && head.next == head && head.prev == head
        invariant forall k :: 0 <= k < i ==> ls[k].owner == k && ls[k] != head && fresh(ls[k])
        invariant Distinct(ls)
      {
        var l := new ListHead(i);
        ls := ls + [l];
        i := i + 1;
      }
      links := ls;
    }

    // ----- sched_add_task -----

    /** Clear both contexts word by word. */
    method ZeroContexts(t: nat)
      requires t < pool.Length
      modifies pool
      ensures pool[..] == old(pool[..])[t := old(pool[t]).(regs := ZeroContext(), saved := ZeroContext())]
    {
      var i := 0;
      while i < 13
        invariant 0 <= i <= 13
        invariant forall u :: 0 <= u < pool.Length && u != t ==> pool[u] == old(pool[u])
        invariant pool[t] == old(pool[t]).(regs := pool[t].regs, saved := pool[t].saved)
        invariant forall k :: 0 <= k < i ==> pool[t].regs[k] == 0 && pool[t].saved[k] == 0
      {
        pool[t] := pool[t].(regs := pool[t].regs[i := 0], saved := pool[t].saved[i := 0]);
        i := i + 1;
      }
      assert pool[t].regs == ZeroContext() && pool[t].saved == ZeroContext();
    }

    method ZeroFiles(t: nat)
      requires t < pool.Length
      modifies pool
      ensures pool[..] == old(pool[..])[t := old(pool[t]).(files := NoFiles())]
    {
      var i := 0;
      while i < MAX_FD
        invariant 0 <= i <= MAX_FD
        invariant forall u :: 0 <= u < pool.Length && u != t ==> pool[u] == old(pool[u])
        invariant pool[t] == old(pool[t]).(files := pool[t].files)
        invariant forall k :: 0 <= k < i ==> pool[t].files[k] == Fd(None, 0, false)
      {
        pool[t] := pool[t].(files := pool[t].files[i := Fd(None, 0, false)]);
        i := i + 1;
      }
      assert pool[t].files == NoFiles();
    }

    method ZeroHandlers(t: nat)
      requires t < pool.Length
      modifies pool
      ensures pool[..] == old(pool[..])[t := old(pool[t]).(handlers := NoHandlers())]
    {
      var i := 0;
      while i < NSIG
        invariant 0 <= i <= NSIG
        invariant forall u :: 0 <= u < pool.Length && u != t ==> pool[u] == old(pool[u])
        invariant pool[t] == old(pool[t]).(handlers := pool[t].handlers)
        invariant forall k :: 0 <= k < i ==> pool[t].handlers[k] == 0
      {
        pool[t] := pool[t].(handlers := pool[t].handlers[i := 0]);
        i := i + 1;
      }
      assert pool[t].handlers == NoHandlers();
    }

    method Fill(t: nat, n: NewTask)
      requires t < pool.Length
      modifies pool
      ensures pool[..] == old(pool[..])[t := Registered(n)]
    {
      ZeroContexts(t);
      pool[t] := pool[t].(regs := pool[t].regs[8 := n.eip][9 := n.cs][10 := n.eflags][11 := n.esp][12 := n.ss],
                          cr3 := n.cr3, kstack := n.kstack);
      assert pool[t].regs == n.InitialContext();
      ZeroFiles(t);
      pool[t] := pool[t].(pending := NoBits(), inHandler := false);
      ZeroHandlers(t);
    }

    /** The ring with one more task. */
    lemma RingGrows(n: nat)
      requires Layout() && n < MAX_TASKS
      ensures RingOf(taskList, links, n + 1) == RingOf(taskList, links, n) + [links[n]]
      ensures links[n] !in RingOf(taskList, links, n)
    {
      assert links[..n + 1] == links[..n] + [links[n]];
    }

    /** sched_add_task. */
    method AddTask(n: NewTask, ghost nodes: Vfs.Pool)
      requires Valid() && ntasks < MAX_TASKS
      modifies this`ntasks, this`cur, pool, taskList, links
      ensures Valid() && View(nodes) == Kernel.AddTask(old(View(nodes)), n)
    {
      hide Registered, Ring, Distinct;
      var t := ntasks;
      Fill(t, n);
      RingGrows(t);
      LinkLast(t);
      if ntasks == 0 {
        cur := t;
      }
      ntasks := ntasks + 1;
      assert pool[..ntasks] == old(pool[..ntasks]) + [Registered(n)];
    }

    method LinkLast(t: nat)
      requires Layout() && t < MAX_TASKS && Ring(RingOf(taskList, links, t)) && links[t] !in RingOf(taskList, links, t)
      modifies taskList, links
      ensures Ring(RingOf(taskList, links, t) + [links[t]])
    {
      ghost var r := RingOf(taskList, links, t);
      assert taskList.prev == r[t] by {
        assert Succ(t + 1, t) == 0;
      }
      ListAddTail(taskList, links[t], r);
    }

    // ----- sched_signal -----

    /** sched_signal. */
    method Signal(sig: int, ghost nodes: Vfs.Pool)
      requires Valid()
      modifies pool
      ensures Valid() && View(nodes) == Kernel.Signal(old(View(nodes)), sig)
    {
      if cur == -1 || sig <= 0 || sig >= NSIG {
        return;
      }
      pool[cur] := pool[cur].(pending := pool[cur].pending[sig := true]);
    }

    // ----- do_switch -----

    /** Copy the interrupted context into the current task. */
    method SaveContext(ctx: array<u32>)
      requires ctx.Length == 13 && 0 <= cur < pool.Length
      modifies pool
      ensures pool[..] == old(pool[..])[cur := old(pool[cur]).(regs := ctx[..])]
    {
      var i := 0;
      while i < 13
        invariant 0 <= i <= 13
        invariant forall u :: 0 <= u < pool.Length && u != cur ==> pool[u] == old(pool[u])
        invariant pool[cur] == old(pool[cur]).(regs := pool[cur].regs)
        invariant forall k :: 0 <= k < i ==> pool[cur].regs[k] == ctx[k]
      {
        pool[cur] := pool[cur].(regs := pool[cur].regs[i := ctx[i]]);
        i := i + 1;
      }
      assert pool[cur].regs == ctx[..];
    }

    /** Copy a task's saved registers into the interrupt frame. */
    method LoadContext(ctx: array<u32>, t: nat)
      requires ctx.Length == 13 && t < pool.Length
      modifies ctx
      ensures ctx[..] == pool[t].regs
    {
      var i := 0;
      while i < 13
        invariant 0 <= i <= 13
        invariant forall k :: 0 <= k < i ==> ctx[k] == pool[t].regs[k]
      {
        ctx[i] := pool[t].regs[i];
        i := i + 1;
      }
    }

    /** Keep the context for SIGRETURN. */
    method SaveForSigreturn(ctx: array<u32>, t: nat)
      requires ctx.Length == 13 && t < pool.Length
      modifies pool
      ensures pool[..] == old(pool[..])[t := old(pool[t]).(saved := ctx[..])]
    {
      var i := 0;
      while i < 13
        invariant 0 <= i <= 13
        invariant forall u :: 0 <= u < pool.Length && u != t ==> pool[u] == old(pool[u])
        invariant pool[t] == old(pool[t]).(saved := pool[t].saved)
        invariant forall k :: 0 <= k < i ==> pool[t].saved[k] == ctx[k]
      {
        pool[t] := pool[t].(saved := pool[t].saved[i := ctx[i]]);
        i := i + 1;
      }
      assert pool[t].saved == ctx[..];
    }

    /** The node after the current task's, skipping the sentinel, and the task it belongs to. */
    method NextTask(ghost nodes: Vfs.Pool) returns (next: nat)
      requires Valid() && cur >= 0
      ensures next == View(nodes).After()
    {
      ghost var r := RingOf(taskList, links, ntasks);
      assert links[cur] == r[cur + 1];
      var node := links[cur].next;
      assert node == r[Succ(ntasks + 1, cur + 1)];
      if node == taskList {
        assert cur + 1 == ntasks;
        node := node.next;
        assert node == r[Succ(ntasks + 1, 0)] == links[0];
      } else {
        assert node == links[cur + 1];
      }
      next := node.owner;
    }

    /** The loop that looks for the lowest pending signal. */
    method FindSignal(t: nat) returns (sig: nat)
      requires t < pool.Length
      ensures sig == Lowest(pool[t].pending, 1)
    {
      sig := 1;
      while sig < NSIG && !pool[t].pending[sig]
        invariant 1 <= sig <= NSIG && Lowest(pool[t].pending, 1) == Lowest(pool[t].pending, sig)
      {
        sig := sig + 1;
      }
    }

    /** The signal part of do_switch. */
    method Deliver(ctx: array<u32>, t: nat) returns (stores: seq<Store>)
      requires ctx.Length == 13 && t < pool.Length
      modifies pool, ctx
      ensures match Deliverable(old(pool[t]))
        case None => pool[..] == old(pool[..]) && ctx[..] == old(ctx[..]) && stores == []
        case Some(sig) =>
          && pool[..] == old(pool[..])[t := Delivered(old(pool[t]), old(ctx[..]), sig)]
          && ctx[..] == Injected(old(ctx[..]), old(pool[t]).handlers[sig])
          && stores == Pushed(old(ctx[..]), sig)
    {
      stores := [];
      if pool[t].pending != NoBits() && !pool[t].inHandler {
        var sig := FindSignal(t);
        if sig < NSIG && pool[t].handlers[sig] != 0 {
          SaveForSigreturn(ctx, t);
          ghost var c := ctx[..];
          TwoPushes(c[ESP]);
          ctx[ESP] := Wrap(ctx[ESP] as int - 4);
          stores := stores + [Store(ctx[ESP], sig)];
          ctx[ESP] := Wrap(ctx[ESP] as int - 4);
          stores := stores + [Store(ctx[ESP], 0)];
          ctx[EIP] := pool[t].handlers[sig];
          pool[t] := pool[t].(inHandler := true, pending := pool[t].pending[sig := false]);
        }
      }
    }

    /** do_switch; `stores` are the words it writes through the user's stack pointer. */
    method DoSwitch(ctx: array<u32>, ghost nodes: Vfs.Pool) returns (stores: seq<Store>)
      requires Valid() && ctx.Length == 13
      modifies this`cur, cpu`cr3, cpu`esp0, pool, ctx
      ensures Valid() && ntasks == old(ntasks)
      ensures Resumed(View(nodes), ctx[..], stores) == Tick(old(View(nodes)), old(ctx[..]))
    {
      hide Ring, Deliverable, Delivered, Injected, Pushed, Tick;
      ghost var s, c := View(nodes), ctx[..];
      if s.tasks == [] || !Ring3(c) {
        QuietTick(s, c);
      }
      if cur == -1 {
        return [];
      }
      if ctx[CS] % 4 == 0 {
        return [];
      }
      var next := Switch(ctx, nodes);
      ghost var s1 := View(nodes);
      stores := Deliver(ctx, next);
      TickEnds(s, c, s1, View(nodes), ctx[..], stores);
    }

    /** Save the context, take the next task and load its context, CR3 and esp0. */
    method Switch(ctx: array<u32>, ghost nodes: Vfs.Pool) returns (next: nat)
      requires Valid() && ctx.Length == 13 && cur >= 0
      modifies this`cur, cpu`cr3, cpu`esp0, pool, ctx
      ensures Valid() && ntasks == old(ntasks) && next == cur
      ensures View(nodes) == Switched(old(View(nodes)), old(ctx[..]))
      ensures ctx[..] == pool[next].regs
    {
      hide Ring;
      SaveContext(ctx);
      pool[cur] := pool[cur].(cr3 := cpu.cr3);
      next := NextTask(nodes);
      cur := next;
      LoadContext(ctx, next);
      cpu.cr3 := pool[next].cr3;
      cpu.esp0 := pool[next].kstack;
    }
  }

  lemma QuietTick(s: State, c: Context)
    requires s.Valid() && (s.tasks == [] || !Ring3(c))
    ensures Tick(s, c) == Resumed(s, c, [])
  {
  }

  lemma TickEnds(s: State, c: Context, s1: State, s2: State, ctx: Context, stores: seq<Store>)
    requires s.Valid() && s.tasks != [] && Ring3(c) && s1 == Switched(s, c)
    requires var t := s1.Current();
      match Deliverable(t)
      case None => s2 == s1 && ctx == t.regs && stores == []
      case Some(sig) =>
        && s2 == s1.With(Delivered(t, t.regs, sig))
        && ctx == Injected(t.regs, t.handlers[sig]) && stores == Pushed(t.regs, sig)
    ensures Resumed(s2, ctx, stores) == Tick(s, c)
  {
  }

  lemma TwoPushes(esp: u32)
    ensures Wrap(Wrap(esp as int - 4) as int - 4) == Wrap(esp as int - 8)
  {
  }
}
