/** Several tasks in kb_getchar: each call is its steps, with ticks and keyboard interrupts between them
    (drivers/keyboard.c, process/scheduler.c). That the buffer has one consumer at a time is a
    consequence of do_switch ignoring ticks from ring 0. */
module Readers {
  import opened Bits
  import Ext2
  import Kernel
  import Runs
  import Keyboard

  /** The kernel, the buffer, where each task is in kb_getchar, and whether the running task is inside
      that call, in ring 0. The buffer's own phase plays no part. */
  datatype Shared = Shared(k: Kernel.State, kb: Keyboard.State, phases: seq<Keyboard.Phase>, inCall: bool) {
    /** The buffer as the running task's consumer sees it. */
    function View(): Keyboard.State {
      kb.(phase := if k.cur < |phases| then phases[k.cur] else Keyboard.Idle)
    }
  }

  /** The running task calls kb_getchar, or takes its next step in it; a timer or keyboard interrupt;
      anything else the step system of Kernel allows. */
  datatype Event = Call | Step | Tick(ctx: Kernel.Context) | Irq(scancode: u8) | Other(e: Kernel.Event)

  /** A tick finds ring 0 code exactly when the running task is inside the call. */
  ghost predicate Enabled(v: Ext2.Volume, s: Shared, e: Event) {
    && v.Valid() && s.k.Valid() && |s.phases| == |s.k.tasks| && Keyboard.InBounds(s.kb)
    && match e
       case Call => !s.inCall && s.k.tasks != []
       case Step => s.inCall && s.k.tasks != []
       case Tick(ctx) => Kernel.Ring3(ctx) <==> !s.inCall
       case Irq(_) => true
       case Other(e) => !s.inCall && !e.Timer? && Kernel.Enabled(v, s.k, e)
  }

  ghost function Next(v: Ext2.Volume, s: Shared, e: Event): Shared
    requires Enabled(v, s, e)
  {
    match e
    case Call => s.(inCall := true)
    case Step =>
      var kb := Keyboard.Next(s.View(), Keyboard.Consume);
      s.(kb := kb.(phase := Keyboard.Idle), phases := s.phases[s.k.cur := kb.phase], inCall := !kb.phase.Idle?)
    case Tick(ctx) => s.(k := Kernel.Tick(s.k, ctx).state)
    case Irq(scancode) =>
      var sigint := Keyboard.Decode(scancode, s.kb.ctrl).Interrupt?;
      s.(kb := Keyboard.Next(s.kb, Keyboard.Irq(scancode)),
         k := if sigint then Kernel.Signal(s.k, Kernel.SIGINT) else s.k)
    case Other(e) =>
      s.(k := Kernel.Next(v, s.k, e), phases := s.phases + if e.Add? then [Keyboard.Idle] else [])
  }

  ghost predicate StepAt(v: Ext2.Volume, ss: seq<Shared>, es: seq<Event>, i: nat)
    requires i < |es| && |ss| == |es| + 1
  {
    Enabled(v, ss[i], es[i]) && ss[i + 1] == Next(v, ss[i], es[i])
  }

  ghost predicate Run(v: Ext2.Volume, ss: seq<Shared>, es: seq<Event>) {
    |ss| == |es| + 1 && forall i :: 0 <= i < |es| ==> StepAt(v, ss, es, i)
  }

  /** Only the running task is in the middle of kb_getchar, and the buffer is a queue for it. */
  ghost predicate OneReader(s: Shared) {
    && s.k.Valid() && |s.phases| == |s.k.tasks| && Keyboard.InBounds(s.kb) && Keyboard.Fifo(s.View())
    && (s.inCall ==> s.k.tasks != [])
    && forall t :: 0 <= t < |s.phases| && !s.phases[t].Idle? ==> s.inCall && t == s.k.cur
  }

  /** Task t is past the test of kb_getchar. */
  predicate InGetchar(s: Shared, t: nat) {
    t < |s.phases| && !s.phases[t].Idle?
  }

  lemma ReaderStep(v: Ext2.Volume, s: Shared, e: Event)
    requires Enabled(v, s, e) && OneReader(s)
    ensures OneReader(Next(v, s, e))
    ensures match e
      case Step => Next(v, s, e).View() == Keyboard.Next(s.View(), Keyboard.Consume)
      case Irq(scancode) => Next(v, s, e).View() == Keyboard.Next(s.View(), Keyboard.Irq(scancode))
      case _ => Next(v, s, e).View() == s.View()
    ensures match e
      case Irq(scancode) => Next(v, s, e).k == if s.kb.ctrl && scancode == 0x2E then Kernel.Signal(s.k, 2) else s.k
      case Tick(ctx) => Next(v, s, e).k == (if s.inCall then s.k else Kernel.Tick(s.k, ctx).state)
      case Other(e) => Next(v, s, Other(e)).k == Kernel.Next(v, s.k, e)
      case _ => Next(v, s, e).k == s.k
  {
    hide Keyboard.Fifo, Keyboard.Decode;
    match e
    case Call =>
    case Step =>
      Keyboard.FifoStep(s.View(), Keyboard.Consume);
      hide Kernel.Tick, Kernel.Next;
    case Tick(ctx) =>
      Runs.TableStep(v, s.k, Kernel.Timer(ctx));
      hide Keyboard.Next;
    case Irq(scancode) =>
      Keyboard.FifoStep(s.View(), Keyboard.Irq(scancode));
      Keyboard.RaisesIff(scancode, s.kb.ctrl);
      hide Kernel.Tick, Kernel.Next;
    case Other(e) =>
      Runs.TableStep(v, s.k, e);
      hide Keyboard.Next, Kernel.Tick, Kernel.Next, Kernel.Syscall;
  }

  /** In every run, with ticks and keyboard interrupts at any point, at most one task is past the test
      of kb_getchar, it is the running one, and the buffer is a first-in first-out queue throughout. */
  lemma {:induction false} AlwaysOneReader(v: Ext2.Volume, ss: seq<Shared>, es: seq<Event>, j: nat)
    requires Run(v, ss, es) && j <= |es| && OneReader(ss[0])
    ensures OneReader(ss[j])
    ensures forall t, u :: InGetchar(ss[j], t) && InGetchar(ss[j], u) ==> t == u
  {
    if j > 0 {
      AlwaysOneReader(v, ss, es, j - 1);
      assert StepAt(v, ss, es, j - 1);
      hide Next, Enabled, Keyboard.Fifo;
      ReaderStep(v, ss[j - 1], es[j - 1]);
    }
  }
}
