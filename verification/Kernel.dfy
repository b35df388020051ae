/** The kernel as a step system: timer ticks, keyboard signals, system calls and registrations act
    on the task table, the processor's CR3 and esp0, and the pool of open nodes
    (process/scheduler.c, process/syscall.c). */
module Kernel {
  import opened Bits
  import opened Memory
  import Ext2
  import opened Vfs

  const MAX_TASKS := 8
  const MAX_FD := 8
  const NSIG := 32
  const SIGINT := 2

  // positions in a saved context (scheduler.h) and in a system call frame (syscall.h)
  const EIP := 8
  const CS := 9
  const ESP := 11

  type Context = c: seq<u32> | |c| == 13 witness seq(13, _ => 0)
  type Frame = f: seq<u32> | |f| == 9 witness seq(9, _ => 0)
  type Handlers = h: seq<u32> | |h| == NSIG witness seq(NSIG, _ => 0)

  /** fd_t */
  datatype Fd = Fd(node: Option<nat>, offset: u32, used: bool)

  type Files = f: seq<Fd> | |f| == MAX_FD witness seq(MAX_FD, _ => Fd(None, 0, false))

  /** task_t, without its list link. */
  datatype Tcb = Tcb(regs: Context, cr3: u32, kstack: u32, files: Files,
                     pending: Mask, handlers: Handlers, saved: Context, inHandler: bool)

  /** The tasks are in the order of the scheduler's list; `cur` is the running one. */
  datatype State = State(tasks: seq<Tcb>, cur: nat, cr3: u32, esp0: u32, nodes: Pool) {
    predicate Valid() {
      |tasks| <= MAX_TASKS && (tasks == [] ==> cur == 0) && (tasks != [] ==> cur < |tasks|)
    }

    function Current(): Tcb
      requires cur < |tasks|
    {
      tasks[cur]
    }

    function With(t: Tcb): State
      requires cur < |tasks|
    {
      this.(tasks := tasks[cur := t])
    }

    /** The task after the current one, going around. */
    function After(): (n: nat)
      requires cur < |tasks|
      ensures n < |tasks|
    {
      if cur + 1 == |tasks| then 0 else cur + 1
    }
  }

  // ----- registration -----

  /** The arguments of sched_add_task. */
  datatype NewTask = NewTask(eip: u32, cs: u32, eflags: u32, esp: u32, ss: u32, cr3: u32, kstack: u32) {
    function InitialContext(): (c: Context) {
      [0, 0, 0, 0, 0, 0, 0, 0, eip, cs, eflags, esp, ss]
    }
  }

  function NoFiles(): Files {
    seq(MAX_FD, _ => Fd(None, 0, false))
  }

  function ZeroContext(): Context {
    seq(13, _ => 0)
  }

  function NoHandlers(): Handlers {
    seq(NSIG, _ => 0)
  }

  function Registered(n: NewTask): Tcb {
    Tcb(n.InitialContext(), n.cr3, n.kstack, NoFiles(), NoBits(), NoHandlers(), ZeroContext(), false)
  }

  function AddTask(s: State, n: NewTask): State {
    s.(tasks := s.tasks + [Registered(n)])
  }

  // ----- signals -----

  /** The least signal from k on that is pending, or NSIG. */
  function Lowest(pending: Mask, k: nat): (sig: nat)
    requires k <= NSIG
    ensures k <= sig <= NSIG
    ensures forall i :: k <= i < sig ==> !pending[i]
    ensures sig < NSIG ==> pending[sig]
    decreases NSIG - k
  {
    if k == NSIG || pending[k] then k else Lowest(pending, k + 1)
  }

  /** The signal do_switch delivers to a task it resumes, if any. */
  function Deliverable(t: Tcb): (sig: Option<nat>)
    ensures match sig
      case Some(k) =>
        0 < k < NSIG && !t.inHandler && t.pending[k] && (forall i :: 0 < i < k ==> !t.pending[i]) && t.handlers[k] != 0
      case None =>
        t.inHandler || forall k :: 0 < k < NSIG && t.pending[k] && t.handlers[k] != 0 ==>
            exists i :: 0 < i < k && t.pending[i]
  {
    var sig := Lowest(t.pending, 1);
    if t.pending != NoBits() && !t.inHandler && sig < NSIG && t.handlers[sig] != 0 then Some(sig) else None
  }

  /** The context that enters a handler instead of c. */
  function Injected(c: Context, handler: u32): Context {
    c[ESP := Wrap(c[ESP] as int - 8)][EIP := handler]
  }

  /** A word stored through a user address. */
  datatype Store = Store(addr: u32, value: u32)

  /** The words pushed for the handler of sig. */
  function Pushed(c: Context, sig: nat): seq<Store>
    requires sig < NSIG
  {
    [Store(Wrap(c[ESP] as int - 4), sig), Store(Wrap(c[ESP] as int - 8), 0)]
  }

  function Delivered(t: Tcb, c: Context, sig: nat): Tcb
    requires sig < NSIG
  {
    t.(saved := c, inHandler := true, pending := t.pending[sig := false])
  }

  predicate RealSignal(sig: int) {
    0 < sig < NSIG
  }

  /** sched_signal. */
  function Signal(s: State, sig: int): State
    requires s.Valid()
  {
    if s.tasks == [] || !RealSignal(sig) then s
    else s.With(s.Current().(pending := s.Current().pending[sig := true]))
  }

  // ----- the timer -----

  predicate Ring3(ctx: Context) {
    ctx[CS] % 4 != 0
  }

  /** The switch itself: save the interrupted context, advance, load CR3 and esp0. */
  function Switched(s: State, ctx: Context): (s': State)
    requires s.cur < |s.tasks|
    ensures s'.cur < |s'.tasks| == |s.tasks|
  {
    var s1 := s.With(s.Current().(regs := ctx, cr3 := s.cr3));
    var next := s1.tasks[s.After()];
    s1.(cur := s.After(), cr3 := next.cr3, esp0 := next.kstack)
  }

  /** What a tick does: the new state, the context it returns to, the words it stores. */
  datatype Resumed = Resumed(state: State, ctx: Context, stores: seq<Store>)

  /** do_switch. */
  function Tick(s: State, ctx: Context): Resumed
    requires s.Valid()
  {
    if s.tasks == [] || !Ring3(ctx) then Resumed(s, ctx, [])
    else
      var s1 := Switched(s, ctx);
      var t := s1.Current();
      match Deliverable(t)
      case None => Resumed(s1, t.regs, [])
      case Some(sig) => Resumed(s1.With(Delivered(t, t.regs, sig)), Injected(t.regs, t.handlers[sig]),
          Pushed(t.regs, sig))
  }

  // ----- system calls -----

  /** A system call with its arguments; for OPEN the path, the inode that the directory search
      finds and its size; for GETCHAR the character that kb_getchar returns. */
  datatype Call =
    | Open(path: Ext2.CString, ino: u32, length: u32)
    | Close(fd: int)
    | Read(fd: int, count: u32)
    | Getchar(c: u8)
    | Sigaction(sig: int, handler: u32)
    | Kill(sig: int)
    | Sigreturn
    | Display  // SYS_PRINT, SYS_SETCOLOR, SYS_LS
    | Unknown

  /** Calls that dereference the current task without a test. */
  predicate NeedsTask(call: Call) {
    call.Open? || call.Close? || call.Read?
  }

  /** The state, the frame the stub returns through, the value for EAX, the bytes delivered. */
  datatype Reply = Reply(state: State, frame: Frame, ret: int, data: seq<u8>)

  predicate OpenFd(t: Tcb, fd: int) {
    3 <= fd < MAX_FD && t.files[fd].used
  }

  /** The first free descriptor from fd on. */
  function FreeFd(files: Files, fd: nat): (r: Option<nat>)
    requires fd <= MAX_FD
    ensures match r
      case None => forall k :: fd <= k < MAX_FD ==> files[k].used
      case Some(n) => fd <= n < MAX_FD && !files[n].used && forall k :: fd <= k < n ==> files[k].used
    decreases MAX_FD - fd
  {
    if fd == MAX_FD then None else if !files[fd].used then Some(fd) else FreeFd(files, fd + 1)
  }

  /** The frame SYS_SIGRETURN leaves, from the saved context. */
  function Restored(c: Context): Frame {
    [c[7], c[4], c[6], c[5], c[8], c[9], c[10], c[11], c[12]]
  }

  /** A new state and a return value. */
  datatype Result = Result(state: State, ret: int)

  function DoOpen(s: State, path: Ext2.CString, ino: u32, length: u32): Result
    requires s.cur < |s.tasks|
  {
    var o := Opened(s.nodes, Strip(path), ino, length);
    match o.node
    case None => Result(s.(nodes := o.pool), -1)
    case Some(n) =>
      var t := s.Current();
      match FreeFd(t.files, 3)
      case None => Result(s.(nodes := Closed(o.pool, n)), -1)
      case Some(fd) => Result(s.(nodes := o.pool).With(t.(files := t.files[fd := Fd(Some(n), 0, true)])), fd)
  }

  function DoClose(s: State, fd: int): Result
    requires s.cur < |s.tasks| && NodesInPool(s)
  {
    var t := s.Current();
    if !OpenFd(t, fd) then Result(s, -1)
    else
      var nodes := if t.files[fd].node.Some? then Closed(s.nodes, t.files[fd].node.value) else s.nodes;
      Result(s.(nodes := nodes).With(t.(files := t.files[fd := Fd(None, 0, false)])), 0)
  }

  /** The bytes a READ delivers. */
  function ReadData(v: Ext2.Volume, s: State, fd: int, count: u32): seq<u8>
    requires v.Valid() && s.cur < |s.tasks| && NodesInPool(s)
  {
    var t := s.Current();
    if !OpenFd(t, fd) then [] else ReadBytes(v, s.nodes, t.files[fd].node, t.files[fd].offset, count)
  }

  function DoRead(v: Ext2.Volume, s: State, fd: int, count: u32): Result
    requires v.Valid() && s.cur < |s.tasks| && NodesInPool(s)
  {
    var t := s.Current();
    if !OpenFd(t, fd) then Result(s, -1)
    else
      var n := |ReadData(v, s, fd, count)|;
      Result(s.With(t.(files := t.files[fd := t.files[fd].(offset := Wrap(t.files[fd].offset + n))])), n)
  }

  /** Node references are pointers into the pool. */
  ghost predicate NodesInPool(s: State) {
    forall t, f :: 0 <= t < |s.tasks| && 0 <= f < MAX_FD && s.tasks[t].files[f].node.Some? ==>
        s.tasks[t].files[f].node.value < POOL
  }

  /** syscall_handler. */
  function Syscall(v: Ext2.Volume, s: State, frame: Frame, call: Call): Reply
    requires v.Valid() && s.Valid() && NodesInPool(s) && (s.tasks == [] ==> !NeedsTask(call))
  {
    match call
    case Open(path, ino, length) =>
      var r := DoOpen(s, path, ino, length);
      Reply(r.state, frame, r.ret, [])
    case Close(fd) =>
      var r := DoClose(s, fd);
      Reply(r.state, frame, r.ret, [])
    case Read(fd, count) =>
      var r := DoRead(v, s, fd, count);
      Reply(r.state, frame, r.ret, ReadData(v, s, fd, count))
    case Getchar(c) => Reply(s, frame, c, [])
    case Sigaction(sig, handler) =>
      if s.tasks == [] || !RealSignal(sig) then Reply(s, frame, -1, [])
      else Reply(s.With(s.Current().(handlers := s.Current().handlers[sig := handler])), frame, 0, [])
    case Kill(sig) =>
      if s.tasks == [] || !RealSignal(sig) then Reply(s, frame, -1, [])
      else Reply(s.With(s.Current().(pending := s.Current().pending[sig := true])), frame, 0, [])
    case Sigreturn =>
      if s.tasks == [] || !s.Current().inHandler then Reply(s, frame, -1, [])
      else Reply(s.With(s.Current().(inHandler := false)), Restored(s.Current().saved), 0, [])
    case Display => Reply(s, frame, 0, [])
    case Unknown => Reply(s, frame, -1, [])
  }

  // ----- runs -----

  datatype Event =
    | Timer(ctx: Context)              // IRQ0, interrupting the given context
    | CtrlC                            // IRQ1 raising SIGINT
    | Sys(frame: Frame, call: Call)
    | Add(task: NewTask)

  /** sched_add_task needs a free slot, and some system calls a current task. */
  ghost predicate Enabled(v: Ext2.Volume, s: State, e: Event) {
    && v.Valid() && s.Valid()
    && match e
       case Timer(_) => true
       case CtrlC => true
       case Sys(_, call) => NodesInPool(s) && (s.tasks == [] ==> !NeedsTask(call))
       case Add(_) => |s.tasks| < MAX_TASKS
  }

  ghost function Next(v: Ext2.Volume, s: State, e: Event): State
    requires Enabled(v, s, e)
  {
    match e
    case Timer(ctx) => Tick(s, ctx).state
    case CtrlC => Signal(s, SIGINT)
    case Sys(frame, call) => Syscall(v, s, frame, call).state
    case Add(task) => AddTask(s, task)
  }

  ghost predicate StepAt(v: Ext2.Volume, ss: seq<State>, es: seq<Event>, i: nat)
    requires i < |es| && |ss| == |es| + 1
  {
    Enabled(v, ss[i], es[i]) && ss[i + 1] == Next(v, ss[i], es[i])
  }

  ghost predicate Run(v: Ext2.Volume, ss: seq<State>, es: seq<Event>) {
    && |ss| == |es| + 1 && v.Valid() && ss[0].Valid()
    && forall i :: 0 <= i < |es| ==> StepAt(v, ss, es, i)
  }
}
