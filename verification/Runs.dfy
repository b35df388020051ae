/** Properties of whole runs: address spaces, saved contexts, round robin. */
module Runs {
  import opened Bits
  import opened Memory
  import opened Kernel
  import Ext2

  // ----- what one step does to one task -----

  /** A tick that switches. */
  predicate Switches(s: State, e: Event) {
    e.Timer? && s.tasks != [] && Ring3(e.ctx)
  }

  /** The tick resumes task t by entering its handler for sig. */
  predicate DeliversTo(s: State, e: Event, t: nat, sig: nat) {
    s.cur < |s.tasks| && Switches(s, e) && s.After() == t && Deliverable(Switched(s, e.ctx).Current()) == Some(sig)
  }

  /** Task t leaves its handler. */
  predicate ReturnsFrom(s: State, e: Event, t: nat) {
    e.Sys? && e.call.Sigreturn? && t < |s.tasks| && s.cur == t && s.Current().inHandler
  }

  /** Signal sig is sent to task t. */
  predicate Sends(s: State, e: Event, t: nat, sig: nat) {
    t < |s.tasks| && s.cur == t && RealSignal(sig)
    && ((e.CtrlC? && sig == SIGINT) || (e.Sys? && e.call == Kill(sig)))
  }

  ghost predicate Enters(s: State, e: Event, t: nat) {
    exists sig :: DeliversTo(s, e, t, sig)
  }

  lemma TableStep(v: Ext2.Volume, s: State, e: Event)
    requires Enabled(v, s, e)
    ensures var s' := Next(v, s, e);
      && s'.Valid()
      && |s'.tasks| == |s.tasks| + (if e.Add? then 1 else 0)
      && (e.Add? ==> s'.tasks[|s.tasks|] == Registered(e.task))
      && (if Switches(s, e) then s'.cur == s.After() && s'.esp0 == s.tasks[s.After()].kstack
                                 && s'.cr3 == if s.After() == s.cur then s.cr3 else s.tasks[s.After()].cr3
          else s'.cur == s.cur && s'.cr3 == s.cr3 && s'.esp0 == s.esp0)
  {
  }

  lemma TaskStep(v: Ext2.Volume, s: State, e: Event, t: nat)
    requires Enabled(v, s, e) && t < |s.tasks|
    ensures t < |Next(v, s, e).tasks|
    ensures var a, b := s.tasks[t], Next(v, s, e).tasks[t];
      && b.regs == (if Switches(s, e) && s.cur == t then e.ctx else a.regs)
      && b.cr3 == (if Switches(s, e) && s.cur == t then s.cr3 else a.cr3)
      && b.kstack == a.kstack
  {
    TableStep(v, s, e);
  }

  lemma HandlerStep(v: Ext2.Volume, s: State, e: Event, t: nat)
    requires Enabled(v, s, e) && t < |s.tasks|
    ensures t < |Next(v, s, e).tasks|
    ensures var a, b := s.tasks[t], Next(v, s, e).tasks[t];
      && b.inHandler == (Enters(s, e, t) || (a.inHandler && !ReturnsFrom(s, e, t)))
      && b.saved == (if Enters(s, e, t) then b.regs else a.saved)
      && (Enters(s, e, t) ==> !a.inHandler)
  {
    TableStep(v, s, e);
    if Switches(s, e) && s.After() == t {
      var d := Deliverable(Switched(s, e.ctx).Current());
      assert d.Some? ==> DeliversTo(s, e, t, d.value);
    }
  }

  /** Task t sets its handler for signal k to h. */
  predicate Installs(s: State, e: Event, t: nat, k: nat, h: u32) {
    t < |s.tasks| && s.cur == t && 0 < k < NSIG && e.Sys? && e.call == Sigaction(k, h)
  }

  /** Only SIGACTION changes handlers, one of the calling task. */
  lemma InstallStep(v: Ext2.Volume, s: State, e: Event, t: nat, k: nat)
    requires Enabled(v, s, e) && t < |s.tasks| && k < NSIG
    ensures t < |Next(v, s, e).tasks|
    ensures Next(v, s, e).tasks[t].handlers[k]
            == if e.Sys? && e.call.Sigaction? && Installs(s, e, t, k, e.call.handler) then e.call.handler
               else s.tasks[t].handlers[k]
  {
    TableStep(v, s, e);
  }

  /** Only OPEN, CLOSE and READ change descriptors, those of the calling task. */
  lemma FilesStep(v: Ext2.Volume, s: State, e: Event, t: nat)
    requires Enabled(v, s, e) && t < |s.tasks|
    requires !(e.Sys? && NeedsTask(e.call) && s.cur == t)
    ensures t < |Next(v, s, e).tasks|
    ensures Next(v, s, e).tasks[t].files == s.tasks[t].files
  {
    TableStep(v, s, e);
  }

  /** A system call leaves the frame to return through as it was, but for SIGRETURN in a handler;
      what else it returns, apart from the descriptor calls. */
  lemma Replies(v: Ext2.Volume, s: State, frame: Frame, call: Call)
    requires v.Valid() && s.Valid() && NodesInPool(s) && (s.tasks == [] ==> !NeedsTask(call))
    ensures var r := Syscall(v, s, frame, call);
      && (!(call.Sigreturn? && s.tasks != [] && s.Current().inHandler) ==> r.frame == frame)
      && (call.Getchar? ==> r.ret == call.c && r.state == s)
      && (call.Display? ==> r.ret == 0 && r.state == s)
      && (call.Unknown? ==> r.ret == -1 && r.state == s)
      && (call.Sigaction? ==> r.ret == if s.tasks != [] && 0 < call.sig < 32 then 0 else -1)
      && (call.Kill? ==> r.ret == if s.tasks != [] && 0 < call.sig < 32 then 0 else -1)
      && (call.Sigreturn? ==> r.ret == if s.tasks != [] && s.Current().inHandler then 0 else -1)
      && (!call.Read? ==> r.data == [])
  {
  }

  lemma PendingStep(v: Ext2.Volume, s: State, e: Event, t: nat, sig: nat)
    requires Enabled(v, s, e) && t < |s.tasks| && sig < NSIG
    ensures t < |Next(v, s, e).tasks|
    ensures Next(v, s, e).tasks[t].pending[sig]
            == ((s.tasks[t].pending[sig] && !DeliversTo(s, e, t, sig)) || Sends(s, e, t, sig))
  {
    TableStep(v, s, e);
    if e.Timer? {
      PendingTick(s, e.ctx, t, sig);
      hide Tick, Deliverable, Switched;
    }
  }

  lemma PendingTick(s: State, ctx: Context, t: nat, sig: nat)
    requires s.Valid() && t < |s.tasks| && sig < NSIG
    ensures t < |Tick(s, ctx).state.tasks|
    ensures Tick(s, ctx).state.tasks[t].pending[sig] == (s.tasks[t].pending[sig] && !DeliversTo(s, Timer(ctx), t, sig))
  {
  }

  lemma RunStep(v: Ext2.Volume, ss: seq<State>, es: seq<Event>, i: nat)
    requires Run(v, ss, es) && i < |es|
    ensures Enabled(v, ss[i], es[i]) && ss[i + 1] == Next(v, ss[i], es[i])
    ensures ss[i].Valid() && ss[i + 1].Valid()
    ensures |ss[i].tasks| <= |ss[i + 1].tasks|
  {
    assert StepAt(v, ss, es, i);
    hide Next;
    TableStep(v, ss[i], es[i]);
  }

  lemma RunValid(v: Ext2.Volume, ss: seq<State>, es: seq<Event>, i: nat)
    requires Run(v, ss, es) && i <= |es|
    ensures ss[i].Valid()
  {
    if i > 0 {
      RunStep(v, ss, es, i - 1);
    }
  }

  lemma {:induction false} TasksStay(v: Ext2.Volume, ss: seq<State>, es: seq<Event>, i: nat, j: nat)
    requires Run(v, ss, es) && i <= j <= |es|
    ensures |ss[i].tasks| <= |ss[j].tasks|
    decreases j
  {
    if i < j {
      TasksStay(v, ss, es, i, j - 1);
      RunStep(v, ss, es, j - 1);
    }
  }

  // ----- address spaces -----

  /** CR3 and esp0 are those of the running task. */
  ghost predicate Loaded(s: State) {
    s.cur < |s.tasks| && s.cr3 == s.Current().cr3 && s.esp0 == s.Current().kstack
  }

  lemma LoadedStep(v: Ext2.Volume, s: State, e: Event)
    requires Enabled(v, s, e) && Loaded(s)
    ensures Loaded(Next(v, s, e))
    ensures |s.tasks| <= |Next(v, s, e).tasks|
    ensures forall t :: 0 <= t < |s.tasks| ==> SameSpace(s, Next(v, s, e), t)
  {
    TableStep(v, s, e);
    TaskStep(v, s, e, s.cur);
    TaskStep(v, s, e, s.After());
    hide Next, Enabled;
    forall t | 0 <= t < |s.tasks|
      ensures SameSpace(s, Next(v, s, e), t)
    {
      TaskStep(v, s, e, t);
    }
  }

  ghost predicate SameSpace(a: State, b: State, t: nat)
    requires t < |a.tasks| && t < |b.tasks|
  {
    b.tasks[t].cr3 == a.tasks[t].cr3 && b.tasks[t].kstack == a.tasks[t].kstack
  }

  /** Once CR3 and esp0 are those of the running task they stay so, and no task's page directory or
      kernel stack ever changes. */
  lemma {:induction false} SpacesKept(v: Ext2.Volume, ss: seq<State>, es: seq<Event>, i: nat, j: nat)
    requires Run(v, ss, es) && i <= j <= |es| && Loaded(ss[i])
    ensures Loaded(ss[j]) && |ss[i].tasks| <= |ss[j].tasks|
    ensures forall t :: 0 <= t < |ss[i].tasks| ==> SameSpace(ss[i], ss[j], t)
    decreases j
  {
    if i < j {
      SpacesKept(v, ss, es, i, j - 1);
      RunStep(v, ss, es, j - 1);
      LoadedStep(v, ss[j - 1], es[j - 1]);
      hide Run, Next, Loaded, Enabled;
      forall t | 0 <= t < |ss[i].tasks|
        ensures SameSpace(ss[i], ss[j], t)
      {
        assert SameSpace(ss[i], ss[j - 1], t);
        assert SameSpace(ss[j - 1], ss[j], t);
      }
    }
  }

  /** A switch stores CR3 into the task it leaves; it keeps every task's directory exactly when CR3
      was that task's own. */
  lemma SwitchKeepsSpaces(s: State, ctx: Context)
    requires s.Valid() && s.tasks != [] && Ring3(ctx)
    ensures |Tick(s, ctx).state.tasks| == |s.tasks|
    ensures (forall t :: 0 <= t < |s.tasks| ==> SameSpace(s, Tick(s, ctx).state, t)) <==> s.cr3 == s.Current().cr3
  {
    assert SameSpace(s, Tick(s, ctx).state, s.cur) <==> s.cr3 == s.Current().cr3;
  }

  // ----- saved contexts -----

  /** The context in which task t last ran: that of its last preemption, or the one it was
      registered with. */
  ghost function LastContext(ss: seq<State>, es: seq<Event>, j: nat, t: nat): Context
    requires |ss| == |es| + 1 && j <= |es| && t < |ss[j].tasks|
  {
    if j == 0 then ss[0].tasks[t].regs
    else if t >= |ss[j - 1].tasks| then if es[j - 1].Add? then es[j - 1].task.InitialContext() else ZeroContext()
    else if Switches(ss[j - 1], es[j - 1]) && ss[j - 1].cur == t then es[j - 1].ctx
    else LastContext(ss, es, j - 1, t)
  }

  /** The saved registers of every task are the context in which it last ran. */
  lemma {:induction false} ContextKept(v: Ext2.Volume, ss: seq<State>, es: seq<Event>, j: nat, t: nat)
    requires Run(v, ss, es) && j <= |es| && t < |ss[j].tasks|
    ensures ss[j].tasks[t].regs == LastContext(ss, es, j, t)
  {
    if j > 0 {
      RunStep(v, ss, es, j - 1);
      TableStep(v, ss[j - 1], es[j - 1]);
      hide Run, Next, Enabled;
      if t < |ss[j - 1].tasks| {
        TaskStep(v, ss[j - 1], es[j - 1], t);
        ContextKept(v, ss, es, j - 1, t);
      }
    }
  }

  /** A switch resumes the next task exactly where it last ran, or in a handler pushed on top of
      that context. */
  lemma ResumesWhereItRan(v: Ext2.Volume, ss: seq<State>, es: seq<Event>, i: nat)
    requires Run(v, ss, es) && i < |es| && ss[i].Valid() && Switches(ss[i], es[i])
    ensures ss[i + 1].cur == ss[i].After() < |ss[i + 1].tasks|
    ensures var t, r := ss[i].After(), Tick(ss[i], es[i].ctx);
      var c := LastContext(ss, es, i + 1, t);
      if Enters(ss[i], es[i], t) then
        exists sig: nat :: sig < NSIG && DeliversTo(ss[i], es[i], t, sig)
            && r.ctx == Injected(c, ss[i].tasks[t].handlers[sig]) && r.stores == Pushed(c, sig)
      else r.ctx == c && r.stores == []
  {
    var t := ss[i].After();
    RunStep(v, ss, es, i);
    TableStep(v, ss[i], es[i]);
    ContextKept(v, ss, es, i + 1, t);
    ResumeStep(ss[i], es[i].ctx);
  }

  lemma ResumeStep(s: State, ctx: Context)
    requires s.Valid() && s.tasks != [] && Ring3(ctx)
    ensures var t, r := s.After(), Tick(s, ctx);
      && t < |r.state.tasks|
      && var c := r.state.tasks[t].regs;
      if Enters(s, Timer(ctx), t) then
        exists sig: nat :: sig < NSIG && DeliversTo(s, Timer(ctx), t, sig)
            && r.ctx == Injected(c, s.tasks[t].handlers[sig]) && r.stores == Pushed(c, sig)
      else r.ctx == c && r.stores == []
  {
    var d := Deliverable(Switched(s, ctx).Current());
    if d.Some? {
      assert DeliversTo(s, Timer(ctx), s.After(), d.value);
    }
  }

  // ----- round robin -----

  ghost predicate NoAdd(es: seq<Event>, i: nat, j: nat)
    requires i <= j <= |es|
  {
    forall m :: i <= m < j ==> !es[m].Add?
  }

  /** Ticks from ring 3 among es[i..j]. */
  function Ticks(es: seq<Event>, i: nat, j: nat): (n: nat)
    requires i <= j <= |es|
    decreases j
  {
    if i == j then 0 else Ticks(es, i, j - 1) + if es[j - 1].Timer? && Ring3(es[j - 1].ctx) then 1 else 0
  }

  lemma Around(n: nat, a: nat)
    requires n > 0
    ensures (a + 1) % n == if a % n + 1 == n then 0 else a % n + 1
  {
    var q, r := a / n, a % n;
    assert a == q * n + r;
    if r + 1 == n {
      assert a + 1 == (q + 1) * n;
      Quotient(a + 1, n, q + 1, 0);
    } else {
      Quotient(a + 1, n, q, r + 1);
    }
  }

  /** While nothing is registered, the running task advances by one for each tick from ring 3. */
  lemma {:induction false} RunningTask(v: Ext2.Volume, ss: seq<State>, es: seq<Event>, i: nat, j: nat)
    requires Run(v, ss, es) && i <= j <= |es| && NoAdd(es, i, j) && ss[i].tasks != []
    ensures |ss[j].tasks| == |ss[i].tasks|
    ensures ss[j].cur == (ss[i].cur + Ticks(es, i, j)) % |ss[i].tasks|
    decreases j
  {
    hide Next, Enabled, Ring3;
    RunValid(v, ss, es, i);
    var n := |ss[i].tasks|;
    if i == j {
      Quotient(ss[i].cur, n, 0, ss[i].cur);
    } else {
      RunningTask(v, ss, es, i, j - 1);
      RunStep(v, ss, es, j - 1);
      TableStep(v, ss[j - 1], es[j - 1]);
      Around(n, ss[i].cur + Ticks(es, i, j - 1));
    }
  }

  /** However long the kernel runs, ticks from ring 0 leave the whole state as it is. */
  lemma {:induction false} KernelTicks(v: Ext2.Volume, ss: seq<State>, es: seq<Event>, i: nat, j: nat)
    requires Run(v, ss, es) && i <= j <= |es|
    requires forall m :: i <= m < j ==> es[m].Timer? && !Ring3(es[m].ctx)
    ensures ss[j] == ss[i]
    decreases j
  {
    if i < j {
      KernelTicks(v, ss, es, i, j - 1);
      RunStep(v, ss, es, j - 1);
    }
  }

  /** Event m is a switch to task t. */
  ghost predicate SwitchTo(ss: seq<State>, es: seq<Event>, m: nat, t: nat)
    requires |ss| == |es| + 1 && m < |es|
  {
    es[m].Timer? && Ring3(es[m].ctx) && ss[m + 1].cur == t
  }

  lemma {:induction false} FindTick(es: seq<Event>, i: nat, j: nat, r: nat) returns (m: nat)
    requires i <= j <= |es| && r < Ticks(es, i, j)
    ensures i <= m < j && es[m].Timer? && Ring3(es[m].ctx) && Ticks(es, i, m) == r
    decreases j
  {
    if Ticks(es, i, j - 1) == r {
      m := j - 1;
    } else {
      m := FindTick(es, i, j - 1, r);
    }
  }

  lemma {:induction false} TicksGrow(es: seq<Event>, i: nat, m: nat, j: nat)
    requires i <= m <= j <= |es|
    ensures Ticks(es, i, m) <= Ticks(es, i, j)
    decreases j
  {
    if m < j {
      TicksGrow(es, i, m, j - 1);
    }
  }

  lemma NoWrapAround(n: nat, a: nat, b: nat)
    requires n > 0 && a < b < a + n
    ensures a % n != b % n
  {
    if a % n == b % n {
      assert a == a / n * n + a % n && b == b / n * n + a % n;
      assert (b / n - a / n) * n == b - a;
      if b / n > a / n {
        AtLeast(b / n - a / n, n);
      }
    }
  }

  /** Which task a tick switches to. */
  lemma TickTarget(v: Ext2.Volume, ss: seq<State>, es: seq<Event>, i: nat, j: nat, m: nat)
    requires Run(v, ss, es) && i <= m < j <= |es| && NoAdd(es, i, j) && ss[i].tasks != []
    requires es[m].Timer? && Ring3(es[m].ctx)
    ensures ss[m + 1].cur == (ss[i].cur + Ticks(es, i, m) + 1) % |ss[i].tasks|
    ensures Ticks(es, i, m) + 1 == Ticks(es, i, m + 1) <= Ticks(es, i, j)
  {
    RunningTask(v, ss, es, i, m + 1);
    TicksGrow(es, i, m + 1, j);
  }

  /** How many ticks it takes until it is task t's turn. */
  function TurnsUntil(n: nat, c: nat, t: nat): (r: nat)
    requires c < n && t < n
    ensures r < n && (c + r + 1) % n == t
  {
    var r := if t > c then t - c - 1 else t + n - c - 1;
    Quotient(c + r + 1, n, if t > c then 0 else 1, t);
    r
  }

  /** In any stretch of the run with as many ticks from ring 3 as there are tasks, and no
      registration, every task is switched to exactly once, in registration order going around
      from the running one. Other events, ticks from ring 0 included, may come in between. */
  lemma RoundRobin(v: Ext2.Volume, ss: seq<State>, es: seq<Event>, i: nat, j: nat, t: nat)
    requires Run(v, ss, es) && i <= j <= |es| && NoAdd(es, i, j)
    requires t < |ss[i].tasks| == Ticks(es, i, j)
    ensures exists m :: i <= m < j && SwitchTo(ss, es, m, t)
    ensures forall m, m' :: i <= m < m' < j ==> !(SwitchTo(ss, es, m, t) && SwitchTo(ss, es, m', t))
  {
    RunValid(v, ss, es, i);
    hide Run, Ticks;
    var n, c := |ss[i].tasks|, ss[i].cur;
    var m := FindTick(es, i, j, TurnsUntil(n, c, t));
    TickTarget(v, ss, es, i, j, m);
    assert SwitchTo(ss, es, m, t);
    forall m, m' | i <= m < m' < j
      ensures !(SwitchTo(ss, es, m, t) && SwitchTo(ss, es, m', t))
    {
      if SwitchTo(ss, es, m, t) && SwitchTo(ss, es, m', t) {
        TickTarget(v, ss, es, i, j, m);
        TickTarget(v, ss, es, i, j, m');
        TicksGrow(es, i, m + 1, m');
        NoWrapAround(n, c + Ticks(es, i, m) + 1, c + Ticks(es, i, m') + 1);
      }
    }
  }
}
