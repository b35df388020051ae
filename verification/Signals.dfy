/** Signals over whole runs: what a handler returns to, and what is delivered when. */
module Signals {
  import opened Bits
  import opened Memory
  import opened Kernel
  import opened Runs
  import Ext2

  // ----- the round trip -----

  ghost predicate NoReturn(ss: seq<State>, es: seq<Event>, i: nat, j: nat, t: nat)
    requires |ss| == |es| + 1 && i <= j <= |es|
  {
    forall m :: i <= m < j ==> !ReturnsFrom(ss[m], es[m], t)
  }

  /** From the delivery of a signal to task t until t leaves its handler, whatever happens, the
      saved context is the one in which t was preempted. */
  lemma {:induction false} SavedKept(v: Ext2.Volume, ss: seq<State>, es: seq<Event>, i: nat, j: nat, t: nat)
    requires Run(v, ss, es) && i < j <= |es|
    requires t < |ss[i].tasks| && Enters(ss[i], es[i], t) && NoReturn(ss, es, i + 1, j, t)
    ensures t < |ss[i + 1].tasks| && t < |ss[j].tasks| && ss[j].tasks[t].inHandler
    ensures ss[j].tasks[t].saved == LastContext(ss, es, i + 1, t)
    decreases j
  {
    hide Next, Enabled, LastContext, Enters, ReturnsFrom;
    RunStep(v, ss, es, j - 1);
    if j == i + 1 {
      HandlerStep(v, ss[i], es[i], t);
      ContextKept(v, ss, es, j, t);
    } else {
      SavedKept(v, ss, es, i, j - 1, t);
      HandlerStep(v, ss[j - 1], es[j - 1], t);
    }
  }

  /** The next SIGRETURN of the task puts the context in which it was preempted into the frame. */
  lemma SignalRoundTrip(v: Ext2.Volume, ss: seq<State>, es: seq<Event>, i: nat, j: nat, t: nat)
    requires Run(v, ss, es) && i < j < |es|
    requires t < |ss[i].tasks| && Enters(ss[i], es[i], t) && NoReturn(ss, es, i + 1, j, t)
    requires es[j].Sys? && es[j].call.Sigreturn? && ss[j].cur == t
    ensures t < |ss[i + 1].tasks| && t < |ss[j + 1].tasks| && Enabled(v, ss[j], es[j])
    ensures var c, r := LastContext(ss, es, i + 1, t), Syscall(v, ss[j], es[j].frame, Sigreturn);
      && r.frame[0] == c[7] && r.frame[1] == c[4] && r.frame[2] == c[6] && r.frame[3] == c[5]
      && (forall k :: 4 <= k < 9 ==> r.frame[k] == c[k + 4])
      && r.ret == 0 && ss[j + 1] == r.state && !ss[j + 1].tasks[t].inHandler
  {
    SavedKept(v, ss, es, i, j, t);
    RunStep(v, ss, es, j);
    HandlerStep(v, ss[j], es[j], t);
    hide LastContext, Enters, Run;
  }

  /** The handler is entered as by a call: the return address slot at its stack pointer, the signal
      number above it, eight bytes pushed below the preempted stack pointer, nothing else changed. */
  lemma EnteredAsCalled(c: Context, handler: u32, sig: nat)
    requires sig < NSIG
    ensures var h, p := Injected(c, handler), Pushed(c, sig);
      && h[EIP] == handler && Wrap(h[ESP] as int + 8) == c[ESP]
      && (forall k :: 0 <= k < 13 && k != EIP && k != ESP ==> h[k] == c[k])
      && |p| == 2 && p[1] == Store(h[ESP], 0) && p[0] == Store(Wrap(h[ESP] as int + 4), sig) && p[0].addr != p[1].addr
  {
  }

  // ----- what the user sees of it -----

  /** The registers with which the stub _idt_syscall returns: EAX is the value of syscall_handler,
      EDI, ESI, EBP and EBX are those at the call, ECX and EDX whatever the handler left, and
      EIP, CS, EFLAGS, ESP, SS come from the frame. */
  function StubReturn(frame: Frame, ret: u32, atCall: Context, ecx: u32, edx: u32): Context {
    [atCall[0], atCall[1], atCall[2], atCall[3], atCall[4], edx, ecx, ret,
     frame[4], frame[5], frame[6], frame[7], frame[8]]
  }

  /** Equal registers; slot 3 is the ESP that popa ignores. */
  ghost predicate SameRegisters(a: Context, b: Context) {
    forall k :: 0 <= k < 13 && k != 3 ==> a[k] == b[k]
  }

  lemma StubRestores(c: Context, atCall: Context, ecx: u32, edx: u32)
    ensures SameRegisters(StubReturn(Restored(c), 0, atCall, ecx, edx), c) <==>
              && c[7] == 0 && c[4] == atCall[4] && c[5] == edx && c[6] == ecx
              && c[0] == atCall[0] && c[1] == atCall[1] && c[2] == atCall[2]
    ensures forall k :: 8 <= k < 13 ==> StubReturn(Restored(c), 0, atCall, ecx, edx)[k] == c[k]
  {
    var r := StubReturn(Restored(c), 0, atCall, ecx, edx);
    assert SameRegisters(r, c) ==>
        && r[0] == c[0] && r[1] == c[1] && r[2] == c[2] && r[4] == c[4]
        && r[5] == c[5] && r[6] == c[6] && r[7] == c[7];
  }

  /** The registers in which task t goes on after the SIGRETURN of event j. */
  ghost function ReturnedTo(v: Ext2.Volume, s: State, frame: Frame, atCall: Context, ecx: u32, edx: u32): Context
    requires Enabled(v, s, Sys(frame, Sigreturn))
  {
    var r := Syscall(v, s, frame, Sigreturn);
    StubReturn(r.frame, Wrap(r.ret), atCall, ecx, edx)
  }

  /** A task interrupted by a signal resumes at SIGRETURN with the interrupt-return words of the
      preempted context. It resumes that context entirely exactly when EAX was 0 in it and the
      handler happens to hold its other general registers again. */
  lemma RestoredEntirely(v: Ext2.Volume, ss: seq<State>, es: seq<Event>, i: nat, j: nat, t: nat,
                         atCall: Context, ecx: u32, edx: u32)
    requires Run(v, ss, es) && i < j < |es|
    requires t < |ss[i].tasks| && Enters(ss[i], es[i], t) && NoReturn(ss, es, i + 1, j, t)
    requires es[j].Sys? && es[j].call.Sigreturn? && ss[j].cur == t
    ensures t < |ss[i + 1].tasks| && Enabled(v, ss[j], es[j])
    ensures var c, r := LastContext(ss, es, i + 1, t), ReturnedTo(v, ss[j], es[j].frame, atCall, ecx, edx);
      && (forall k :: 8 <= k < 13 ==> r[k] == c[k])
      && (SameRegisters(r, c) <==>
            && c[7] == 0 && c[4] == atCall[4] && c[5] == edx && c[6] == ecx
            && c[0] == atCall[0] && c[1] == atCall[1] && c[2] == atCall[2])
  {
    SignalRoundTrip(v, ss, es, i, j, t);
    var c := LastContext(ss, es, i + 1, t);
    StubRestores(c, atCall, ecx, edx);
    var frame := Syscall(v, ss[j], es[j].frame, Sigreturn).frame;
    hide LastContext, Syscall, Run, Enters, Enabled;
    assert frame == Restored(c);
  }

  /** A context of a user task as a tick may find it: EAX 7, as after a read of seven bytes. */
  function AfterRead(): Context {
    [0, 0, 0, 0, 0, 0, 0, 7, 0x4000_0010, 0x23, 0x202, 0x4000_1FF0, 0x33]
  }

  /** From an empty table: a task is registered, installs a handler for signal 10 and sends it; a tick
      preempts it with EAX 7 and enters the handler; the handler returns. */
  function LossyRun(n: NewTask, frame: Frame): seq<Event> {
    [Add(n), Sys(frame, Sigaction(10, 0x4000_0100)), Sys(frame, Kill(10)), Timer(AfterRead()), Sys(frame, Sigreturn)]
  }

  /** In this run the preempted context does not come back, whatever the handler left. */
  lemma EaxLost(v: Ext2.Volume, s: State, n: NewTask, frame: Frame) returns (ss: seq<State>)
    requires v.Valid() && s.Valid() && s.tasks == []
    ensures var es := LossyRun(n, frame);
      && Run(v, ss, es) && ss[0] == s && 0 < |ss[3].tasks| && 0 < |ss[4].tasks|
      && Enters(ss[3], es[3], 0) && ss[4].cur == 0 && LastContext(ss, es, 4, 0) == AfterRead()
      && Enabled(v, ss[4], es[4])
      && forall atCall: Context, ecx: u32, edx: u32 ::
           !SameRegisters(ReturnedTo(v, ss[4], frame, atCall, ecx, edx), AfterRead())
  {
    var es := LossyRun(n, frame);
    ss := LossyStates(v, s, n, frame);
    assert es[4] == Sys(frame, Sigreturn) && AfterRead()[7] == 7;
    hide Run, Enters, LastContext, Enabled, ReturnedTo, SameRegisters, AfterRead, LossyRun;
    forall atCall: Context, ecx: u32, edx: u32
      ensures !SameRegisters(ReturnedTo(v, ss[4], frame, atCall, ecx, edx), AfterRead())
    {
      RestoredEntirely(v, ss, es, 3, 4, 0, atCall, ecx, edx);
    }
  }

  lemma LossyStates(v: Ext2.Volume, s: State, n: NewTask, frame: Frame) returns (ss: seq<State>)
    requires v.Valid() && s.Valid() && s.tasks == []
    ensures var es := LossyRun(n, frame);
      && Run(v, ss, es) && ss[0] == s && 0 < |ss[3].tasks| && 0 < |ss[4].tasks|
      && Enters(ss[3], es[3], 0) && ss[4].cur == 0 && LastContext(ss, es, 4, 0) == AfterRead()
      && Enabled(v, ss[4], es[4])
  {
    var es := LossyRun(n, frame);
    var t1 := Registered(n);
    var t2 := t1.(handlers := NoHandlers()[10 := 0x4000_0100]);
    var t3 := t2.(pending := NoBits()[10 := true]);
    var t4 := Delivered(t3.(regs := AfterRead(), cr3 := s.cr3), AfterRead(), 10);
    var s3 := LossyTask(s, t3);
    var s4 := LossyTask(s, t4).(esp0 := n.kstack);
    ss := [s, LossyTask(s, t1), LossyTask(s, t2), s3, s4, s4.With(t4.(inHandler := false))];
    assert StepAt(v, ss, es, 0) && StepAt(v, ss, es, 1) && StepAt(v, ss, es, 2) && StepAt(v, ss, es, 4);
    LossyTick(s, n, t3);
    assert StepAt(v, ss, es, 3);
    assert DeliversTo(s3, es[3], 0, 10);
    hide Next, Enabled, Delivered;
    assert LastContext(ss, es, 4, 0) == es[3].ctx;
  }

  /** The state with this one task in the empty table of s. */
  function LossyTask(s: State, t: Tcb): State {
    s.(tasks := [t])
  }

  lemma LossyTick(s: State, n: NewTask, t: Tcb)
    requires s.Valid() && s.tasks == [] && t.kstack == n.kstack && !t.inHandler
    requires t.pending == NoBits()[10 := true] && t.handlers == NoHandlers()[10 := 0x4000_0100]
    ensures var s3, c := LossyTask(s, t), AfterRead();
      && s3.Valid() && Ring3(c) && Deliverable(Switched(s3, c).Current()) == Some(10)
      && Tick(s3, c).state == LossyTask(s, Delivered(t.(regs := c, cr3 := s.cr3), c, 10)).(esp0 := n.kstack)
  {
    var u := t.(regs := AfterRead(), cr3 := s.cr3);
    assert Switched(LossyTask(s, t), AfterRead()).Current() == u;
    assert u.pending[10] && u.pending != NoBits();
    assert forall k :: 1 <= k < 10 ==> !u.pending[k];
    assert Lowest(u.pending, 1) == 10;
  }

  // ----- accounting -----

  ghost predicate BitZeroClear(s: State) {
    forall t :: 0 <= t < |s.tasks| ==> !s.tasks[t].pending[0]
  }

  /** Signal 0 is never pending. */
  lemma {:induction false} NoSignalZero(v: Ext2.Volume, ss: seq<State>, es: seq<Event>, j: nat)
    requires Run(v, ss, es) && j <= |es| && BitZeroClear(ss[0])
    ensures BitZeroClear(ss[j])
  {
    if j > 0 {
      NoSignalZero(v, ss, es, j - 1);
      RunStep(v, ss, es, j - 1);
      TableStep(v, ss[j - 1], es[j - 1]);
      hide Run, Next, Enabled;
      forall t | 0 <= t < |ss[j].tasks|
        ensures !ss[j].tasks[t].pending[0]
      {
        if t < |ss[j - 1].tasks| {
          PendingStep(v, ss[j - 1], es[j - 1], t, 0);
        }
      }
    }
  }

  /** So the search finds a signal whenever one is pending. */
  lemma SearchFinds(t: Tcb)
    requires !t.pending[0]
    ensures t.pending != NoBits() <==> Lowest(t.pending, 1) < NSIG
  {
    if Lowest(t.pending, 1) == NSIG {
      assert t.pending == NoBits();
    }
  }

  /** A resumed task enters a handler exactly when none of its handlers is running and its lowest
      pending signal has one; a pending signal without a handler holds back all the higher ones. */
  lemma DeliveryIff(s: State, e: Event, sig: nat)
    requires s.Valid() && Switches(s, e) && sig < NSIG && !s.tasks[s.After()].pending[0]
    ensures var t := s.tasks[s.After()];
      DeliversTo(s, e, s.After(), sig) <==>
        !t.inHandler && t.pending[sig] && (forall k :: 0 <= k < sig ==> !t.pending[k]) && t.handlers[sig] != 0
  {
    var t := s.tasks[s.After()];
    SearchFinds(t);
    assert NoBits()[sig] == false;
  }

  /** Deliveries to t among events i..j. */
  ghost function Deliveries(ss: seq<State>, es: seq<Event>, i: nat, j: nat, t: nat): nat
    requires |ss| == |es| + 1 && i <= j <= |es|
    decreases j
  {
    if i == j then 0 else Deliveries(ss, es, i, j - 1, t) + if Enters(ss[j - 1], es[j - 1], t) then 1 else 0
  }

  /** SIGRETURNs that take t out of its handler. */
  ghost function Returns(ss: seq<State>, es: seq<Event>, i: nat, j: nat, t: nat): nat
    requires |ss| == |es| + 1 && i <= j <= |es|
    decreases j
  {
    if i == j then 0 else Returns(ss, es, i, j - 1, t) + if ReturnsFrom(ss[j - 1], es[j - 1], t) then 1 else 0
  }

  function Count(b: bool): nat {
    if b then 1 else 0
  }

  /** In every stretch of every run deliveries and returns balance up to the handler that is
      running: they alternate strictly. */
  lemma {:induction false} HandlersAlternate(v: Ext2.Volume, ss: seq<State>, es: seq<Event>, i: nat, j: nat, t: nat)
    requires Run(v, ss, es) && i <= j <= |es|
    requires t < |ss[i].tasks|
    ensures t < |ss[j].tasks|
    ensures Count(ss[i].tasks[t].inHandler) + Deliveries(ss, es, i, j, t)
            == Returns(ss, es, i, j, t) + Count(ss[j].tasks[t].inHandler)
    decreases j
  {
    if i < j {
      hide Next, Enabled, Enters;
      HandlersAlternate(v, ss, es, i, j - 1, t);
      RunStep(v, ss, es, j - 1);
      HandlerStep(v, ss[j - 1], es[j - 1], t);
      assert ReturnsFrom(ss[j - 1], es[j - 1], t) ==> ss[j - 1].tasks[t].inHandler;
      assert !(Enters(ss[j - 1], es[j - 1], t) && ReturnsFrom(ss[j - 1], es[j - 1], t));
    }
  }

  /** The handler of task t for signal k: the argument of its last SIGACTION for k, what it was at the
      start, or none for a task registered since. */
  ghost function LastHandler(ss: seq<State>, es: seq<Event>, j: nat, t: nat, k: nat): u32
    requires |ss| == |es| + 1 && j <= |es| && t < |ss[j].tasks| && k < NSIG
  {
    if j == 0 then ss[0].tasks[t].handlers[k]
    else if t >= |ss[j - 1].tasks| then 0
    else if es[j - 1].Sys? && es[j - 1].call.Sigaction? && es[j - 1].call.sig == k && k > 0 && ss[j - 1].cur == t
      then es[j - 1].call.handler
    else LastHandler(ss, es, j - 1, t, k)
  }

  /** Deliveries, sends, ticks and all other calls leave handlers installed. */
  lemma {:induction false} HandlersKept(v: Ext2.Volume, ss: seq<State>, es: seq<Event>, j: nat, t: nat, k: nat)
    requires Run(v, ss, es) && j <= |es| && t < |ss[j].tasks| && k < NSIG
    ensures ss[j].tasks[t].handlers[k] == LastHandler(ss, es, j, t, k)
  {
    if j > 0 {
      RunStep(v, ss, es, j - 1);
      TableStep(v, ss[j - 1], es[j - 1]);
      hide Run, Next, Enabled;
      if t < |ss[j - 1].tasks| {
        InstallStep(v, ss[j - 1], es[j - 1], t, k);
        HandlersKept(v, ss, es, j - 1, t, k);
      } else {
        assert NoHandlers()[k] == 0;
      }
    }
  }

  ghost predicate NoSend(ss: seq<State>, es: seq<Event>, i: nat, j: nat, t: nat, sig: nat)
    requires |ss| == |es| + 1 && i <= j <= |es|
  {
    forall m :: i <= m < j ==> !Sends(ss[m], es[m], t, sig)
  }

  lemma {:induction false} StaysClear(v: Ext2.Volume, ss: seq<State>, es: seq<Event>, i: nat, j: nat, t: nat, sig: nat)
    requires Run(v, ss, es) && i <= j <= |es|
    requires t < |ss[i].tasks| && sig < NSIG && !ss[i].tasks[t].pending[sig] && NoSend(ss, es, i, j, t, sig)
    ensures t < |ss[j].tasks| && !ss[j].tasks[t].pending[sig]
    decreases j
  {
    if i < j {
      hide Next, Enabled, Sends, DeliversTo;
      StaysClear(v, ss, es, i, j - 1, t, sig);
      RunStep(v, ss, es, j - 1);
      PendingStep(v, ss[j - 1], es[j - 1], t, sig);
    }
  }

  lemma DeliveryUsesUp(v: Ext2.Volume, s: State, e: Event, t: nat, sig: nat)
    requires Enabled(v, s, e) && DeliversTo(s, e, t, sig)
    ensures t < |s.tasks| && sig < NSIG && s.tasks[t].pending[sig]
    ensures t < |Next(v, s, e).tasks| && !Next(v, s, e).tasks[t].pending[sig]
  {
    PendingStep(v, s, e, t, sig);
  }

  /** Between two deliveries of a signal to a task, it is sent to it again. */
  lemma SentInBetween(v: Ext2.Volume, ss: seq<State>, es: seq<Event>, i: nat, j: nat, t: nat, sig: nat)
    requires Run(v, ss, es) && i < j < |es|
    requires DeliversTo(ss[i], es[i], t, sig) && DeliversTo(ss[j], es[j], t, sig)
    ensures exists m :: i < m < j && Sends(ss[m], es[m], t, sig)
  {
    RunStep(v, ss, es, i);
    RunStep(v, ss, es, j);
    DeliveryUsesUp(v, ss[i], es[i], t, sig);
    DeliveryUsesUp(v, ss[j], es[j], t, sig);
    hide Next, Enabled, Sends, DeliversTo;
    if NoSend(ss, es, i + 1, j, t, sig) {
      StaysClear(v, ss, es, i + 1, j, t, sig);
    }
  }
}
