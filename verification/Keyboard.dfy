/** drivers/keyboard.c: the ring buffer between the keyboard interrupt and kb_getchar. The consumer
    runs with interrupts enabled, so the producer may run between any two of its steps; it is one
    task at a time, since a tick from ring 0 does not switch. */
module Keyboard {
  import opened Bits

  const SIZE := 64           // KB_BUF_SIZE
  const CTRL_PRESS := 0x1D
  const CTRL_RELEASE := 0x9D
  const NUL := '\0'

  type Buffer = b: seq<char> | |b| == SIZE witness seq(SIZE, _ => '\0')

  const KBMAP_SIZE := 88

  /** kbmap: the character of each scan code, NUL for none. */
  function Kbmap(scancode: nat): char
    requires scancode < KBMAP_SIZE
  {
    match scancode
    case 0x02 => '1' case 0x03 => '2' case 0x04 => '3' case 0x05 => '4' case 0x06 => '5' case 0x07 => '6'
    case 0x08 => '7' case 0x09 => '8' case 0x0A => '9' case 0x0B => '0' case 0x0C => '-' case 0x0D => '='
    case 0x10 => 'q' case 0x11 => 'w' case 0x12 => 'e' case 0x13 => 'r'
    case 0x14 => 't' case 0x15 => 'y' case 0x16 => 'u' case 0x17 => 'i'
    case 0x18 => 'o' case 0x19 => 'p' case 0x1A => '[' case 0x1B => ']'
    case 0x1C => '\n' case 0x1E => 'a' case 0x1F => 's'
    case 0x20 => 'd' case 0x21 => 'f' case 0x22 => 'g' case 0x23 => 'h'
    case 0x24 => 'j' case 0x25 => 'k' case 0x26 => 'l' case 0x27 => ';'
    case 0x28 => '\'' case 0x29 => '`' case 0x2B => '\\' case 0x2C => 'z'
    case 0x2D => 'x' case 0x2E => 'c' case 0x2F => 'v'
    case 0x30 => 'b' case 0x31 => 'n' case 0x32 => 'm' case 0x33 => ','
    case 0x34 => '.' case 0x35 => '/' case 0x37 => '*'
    case 0x39 => ' '
    case 0x47 => '7'
    case 0x48 => '8' case 0x49 => '9' case 0x4A => '-' case 0x4B => '4'
    case 0x4C => '5' case 0x4D => '6' case 0x4E => '+' case 0x4F => '1'
    case 0x50 => '2' case 0x51 => '3' case 0x52 => '0' case 0x53 => '.'
    case _ => NUL
  }

  /** One key types 'c', and Ctrl types nothing. */
  lemma KeyC(scancode: nat)
    requires scancode < KBMAP_SIZE
    ensures Kbmap(scancode) == 'c' <==> scancode == 0x2E
    ensures Kbmap(0x1D) == NUL
  {
  }

  /** The rows of the keyboard. */
  lemma DigitRow()
    ensures [Kbmap(0x02), Kbmap(0x03), Kbmap(0x04), Kbmap(0x05), Kbmap(0x06), Kbmap(0x07), Kbmap(0x08),
             Kbmap(0x09), Kbmap(0x0A), Kbmap(0x0B), Kbmap(0x0C), Kbmap(0x0D)] == "1234567890-="
  {
  }

  lemma TopRow()
    ensures [Kbmap(0x10), Kbmap(0x11), Kbmap(0x12), Kbmap(0x13), Kbmap(0x14), Kbmap(0x15), Kbmap(0x16),
             Kbmap(0x17), Kbmap(0x18), Kbmap(0x19), Kbmap(0x1A), Kbmap(0x1B), Kbmap(0x1C)] == "qwertyuiop[]\n"
  {
  }

  lemma HomeRow()
    ensures [Kbmap(0x1E), Kbmap(0x1F), Kbmap(0x20), Kbmap(0x21), Kbmap(0x22), Kbmap(0x23), Kbmap(0x24),
             Kbmap(0x25), Kbmap(0x26), Kbmap(0x27), Kbmap(0x28), Kbmap(0x29)] == "asdfghjkl;'`"
  {
  }

  lemma BottomRowLeft()
    ensures [Kbmap(0x2B), Kbmap(0x2C), Kbmap(0x2D), Kbmap(0x2E), Kbmap(0x2F)] == "\\zxcv"
  {
  }

  lemma BottomRowRight()
    ensures [Kbmap(0x30), Kbmap(0x31), Kbmap(0x32), Kbmap(0x33), Kbmap(0x34), Kbmap(0x35)] == "bnm,./"
  {
  }

  lemma KeypadTop()
    ensures [Kbmap(0x47), Kbmap(0x48), Kbmap(0x49), Kbmap(0x4A), Kbmap(0x4B), Kbmap(0x4C), Kbmap(0x4D)] == "789-456"
  {
  }

  lemma KeypadBottom()
    ensures [Kbmap(0x4E), Kbmap(0x4F), Kbmap(0x50), Kbmap(0x51), Kbmap(0x52), Kbmap(0x53)] == "+1230."
  {
  }

  // ----- the protocol -----

  /** Where kb_getchar is: not running (or before its test), past a successful test, or holding
      the character it read. */
  datatype Phase = Idle | Tested | Fetched(c: char)

  /** The buffer, and the history of characters accepted into it and returned from it. */
  datatype State = State(buf: Buffer, head: nat, tail: nat, ctrl: bool, phase: Phase, accepted: seq<char>,
      consumed: seq<char>)

  /** The consumer's next step, or a keyboard interrupt with a scan code. */
  datatype Event = Consume | Irq(scancode: u8)

  /** What a scan code means, given whether Ctrl is held. */
  datatype Key = CtrlDown | CtrlUp | Nothing | Interrupt | Char(c: char)

  function Decode(scancode: u8, ctrl: bool): (k: Key)
    ensures k.Char? ==> k.c != NUL
  {
    if scancode == CTRL_PRESS then CtrlDown
    else if scancode == CTRL_RELEASE then CtrlUp
    else if scancode >= 0x80 || scancode >= KBMAP_SIZE || Kbmap(scancode) == NUL then Nothing
    else if ctrl && Kbmap(scancode) == 'c' then Interrupt
    else Char(Kbmap(scancode))
  }

  predicate InBounds(s: State) {
    s.head < SIZE && s.tail < SIZE
  }

  /** Put a character in the buffer, unless it is full. */
  function Enqueue(s: State, c: char): State
    requires InBounds(s)
  {
    if (s.head + 1) % SIZE == s.tail then s
    else s.(buf := s.buf[s.head := c], head := (s.head + 1) % SIZE, accepted := s.accepted + [c])
  }

  function Next(s: State, e: Event): (s': State)
    requires InBounds(s)
    ensures InBounds(s')
  {
    match e
    case Irq(sc) => (
      match Decode(sc, s.ctrl)
      case CtrlDown => s.(ctrl := true)
      case CtrlUp => s.(ctrl := false)
      case Char(c) => Enqueue(s, c)
      case _ => s
    )
    case Consume => (
      match s.phase
      case Idle => if s.head == s.tail then s else s.(phase := Tested)
      case Tested => s.(phase := Fetched(s.buf[s.tail]))
      case Fetched(c) => s.(tail := (s.tail + 1) % SIZE, phase := Idle, consumed := s.consumed + [c])
    )
  }

  /** The buffer holds, in order, what has been accepted and not yet returned. */
  ghost predicate Fifo(s: State) {
    && |s.consumed| <= |s.accepted| <= |s.consumed| + SIZE - 1
    && s.tail == |s.consumed| % SIZE && s.head == |s.accepted| % SIZE
    && s.consumed == s.accepted[..|s.consumed|]
    && NUL !in s.accepted
    && (forall k :: |s.consumed| <= k < |s.accepted| ==> Unread(s, k))
    && match s.phase
       case Idle => true
       case Tested => |s.consumed| < |s.accepted|
       case Fetched(c) => |s.consumed| < |s.accepted| && c == s.accepted[|s.consumed|]
  }

  /** Character k of the history is still in its slot. */
  predicate Unread(s: State, k: nat)
    requires k < |s.accepted|
  {
    s.buf[k % SIZE] == s.accepted[k]
  }

  lemma Slots(a: nat, b: nat)
    requires a <= b <= a + SIZE - 1
    ensures (b + 1) % SIZE == (b % SIZE + 1) % SIZE
    ensures (b % SIZE + 1) % SIZE == a % SIZE <==> b - a == SIZE - 1
    ensures b % SIZE == a % SIZE <==> a == b
    ensures forall k :: a <= k < b ==> k % SIZE != b % SIZE
  {
    NextSlot(b);
    forall k | a <= k < b
      ensures k % SIZE != b % SIZE
    {
      SameSlot(k, b);
    }
    SameSlot(a, b);
    SameSlot(a, b + 1);
  }

  lemma NextSlot(b: nat)
    ensures (b + 1) % SIZE == (b % SIZE + 1) % SIZE
  {
  }

  lemma SameSlot(a: nat, b: nat)
    requires a <= b <= a + SIZE
    ensures a % SIZE == b % SIZE <==> b == a || b == a + SIZE
  {
  }

  /** A character is dropped exactly when 63 are waiting; accepting one disturbs none of them. */
  lemma EnqueueFifo(s: State, c: char)
    requires Fifo(s) && InBounds(s) && c != NUL
    ensures Fifo(Enqueue(s, c))
    ensures Enqueue(s, c).accepted == if |s.accepted| - |s.consumed| == SIZE - 1 then s.accepted else s.accepted + [c]
    ensures forall k :: |s.consumed| <= k < |s.accepted| ==> Unread(Enqueue(s, c), k)
  {
    hide Kbmap;
    Slots(|s.consumed|, |s.accepted|);
    var s' := Enqueue(s, c);
    forall k | |s.consumed| <= k < |s'.accepted|
      ensures Unread(s', k)
    {
      if k < |s.accepted| {
        assert Unread(s, k);
      }
    }
  }

  lemma ConsumeFifo(s: State)
    requires Fifo(s) && InBounds(s)
    ensures Fifo(Next(s, Consume))
    ensures s.phase.Idle? && Next(s, Consume).phase.Idle? <==> s.phase.Idle? && s.accepted == s.consumed
  {
    hide Kbmap;
    Slots(|s.consumed|, |s.accepted|);
    var s' := Next(s, Consume);
    if s.phase.Tested? {
      assert Unread(s, |s.consumed|);
    }
    forall k | |s'.consumed| <= k < |s'.accepted|
      ensures Unread(s', k)
    {
      assert Unread(s, k);
    }
    Slots(|s.consumed|, |s.consumed|);
  }

  lemma FifoStep(s: State, e: Event)
    requires Fifo(s) && InBounds(s)
    ensures Fifo(Next(s, e))
  {
    hide Kbmap;
    if e.Consume? {
      ConsumeFifo(s);
    } else {
      var k := Decode(e.scancode, s.ctrl);
      if k.Char? {
        EnqueueFifo(s, k.c);
      } else {
        var s' := Next(s, e);
        forall k | |s'.consumed| <= k < |s'.accepted|
          ensures Unread(s', k)
        {
          assert Unread(s, k);
        }
      }
    }
  }

  /** The states after each event. */
  function Steps(s: State, es: seq<Event>): (s': State)
    requires InBounds(s)
    ensures InBounds(s')
  {
    if es == [] then s else Next(Steps(s, es[..|es| - 1]), es[|es| - 1])
  }

  /** Every interleaving of consumer steps and interrupts is a first-in first-out queue of capacity
      63: what has been returned is a prefix of what was accepted, and what is in between is in the
      buffer. */
  lemma {:induction false} AlwaysFifo(s: State, es: seq<Event>)
    requires Fifo(s) && InBounds(s)
    ensures Fifo(Steps(s, es))
    ensures s.accepted <= Steps(s, es).accepted && s.consumed <= Steps(s, es).consumed
  {
    hide Kbmap;
    if es != [] {
      AlwaysFifo(s, es[..|es| - 1]);
      FifoStep(Steps(s, es[..|es| - 1]), es[|es| - 1]);
    }
  }

  /** A character that is read is the oldest one waiting, however many arrive in between. */
  lemma ReadsOldest(s: State, es: seq<Event>)
    requires Fifo(s) && InBounds(s) && s.phase.Idle? && s.accepted != s.consumed
    requires |Steps(s, es).consumed| == |s.consumed| + 1
    ensures Steps(s, es).consumed == s.consumed + [s.accepted[|s.consumed|]]
  {
    hide Kbmap;
    AlwaysFifo(s, es);
    var s' := Steps(s, es);
    assert s'.consumed == s'.accepted[..|s'.consumed|];
    assert s'.accepted[..|s.accepted|] == s.accepted;
  }

  /** The characters typed during a run. */
  function Typed(s: State, es: seq<Event>): string
    requires InBounds(s)
  {
    if es == [] then [] else Typed(s, es[..|es| - 1]) + Brought(Steps(s, es[..|es| - 1]), es[|es| - 1])
  }

  /** The character an event brings, if any. */
  function Brought(s: State, e: Event): string {
    if e.Irq? && Decode(e.scancode, s.ctrl).Char? then [Decode(e.scancode, s.ctrl).c] else []
  }

  /** A character arrives while 63 are waiting. */
  predicate Drops(s: State, e: Event) {
    Brought(s, e) != [] && |s.accepted| - |s.consumed| == SIZE - 1
  }

  predicate NoDrop(s: State, es: seq<Event>)
    requires InBounds(s)
  {
    es != [] ==> NoDrop(s, es[..|es| - 1]) && !Drops(Steps(s, es[..|es| - 1]), es[|es| - 1])
  }

  lemma TypedStep(s: State, e: Event)
    requires Fifo(s) && InBounds(s)
    ensures Next(s, e).accepted == if Drops(s, e) then s.accepted else s.accepted + Brought(s, e)
  {
    hide Kbmap;
    if e.Irq? && Decode(e.scancode, s.ctrl).Char? {
      EnqueueFifo(s, Decode(e.scancode, s.ctrl).c);
    }
  }

  // ----- what keys do -----

  /** Scan code 0x1D presses Ctrl, 0x9D releases it. */
  predicate IsCtrl(e: Event) {
    e == Irq(0x1D) || e == Irq(0x9D)
  }

  predicate LastCtrl(es: seq<Event>, i: nat) {
    i < |es| && IsCtrl(es[i]) && forall j :: i < j < |es| ==> !IsCtrl(es[j])
  }

  /** The last of the two codes was a press; or there was none, and Ctrl was held before. */
  ghost predicate Held(es: seq<Event>, before: bool) {
    || (exists i: nat :: LastCtrl(es, i) && es[i] == Irq(0x1D))
    || (before && forall i :: 0 <= i < |es| ==> !IsCtrl(es[i]))
  }

  lemma CtrlStep(s: State, e: Event)
    requires InBounds(s)
    ensures Next(s, e).ctrl <==> if e == Irq(0x1D) then true else if e == Irq(0x9D) then false else s.ctrl
  {
    hide Kbmap;
  }

  lemma HeldStep(es: seq<Event>, before: bool)
    requires es != []
    ensures var e := es[|es| - 1];
      Held(es, before) <==>
        if e == Irq(0x1D) then true else if e == Irq(0x9D) then false else Held(es[..|es| - 1], before)
  {
    var n := |es| - 1;
    var e, front := es[n], es[..n];
    if IsCtrl(e) {
      assert LastCtrl(es, n);
    } else {
      forall i: nat | i < n
        ensures LastCtrl(es, i) == LastCtrl(front, i)
      {
        assert LastCtrl(front, i) ==> forall j :: i < j < n ==> es[j] == front[j];
        if LastCtrl(es, i) {
          forall j | i < j < n
            ensures !IsCtrl(front[j])
          {
            assert front[j] == es[j];
          }
        }
      }
      if Held(es, before) && exists i: nat :: LastCtrl(es, i) && es[i] == Irq(0x1D) {
        var i: nat :| LastCtrl(es, i) && es[i] == Irq(0x1D);
        assert LastCtrl(front, i) && front[i] == Irq(0x1D);
      }
      if Held(front, before) && exists i: nat :: LastCtrl(front, i) && front[i] == Irq(0x1D) {
        var i: nat :| LastCtrl(front, i) && front[i] == Irq(0x1D);
        assert LastCtrl(es, i) && es[i] == Irq(0x1D);
      }
      assert (forall i :: 0 <= i < |es| ==> !IsCtrl(es[i])) <==> (forall i :: 0 <= i < n ==> !IsCtrl(front[i])) by {
        assert forall i :: 0 <= i < n ==> front[i] == es[i];
      }
    }
  }

  /** After any run Ctrl counts as held exactly so. */
  lemma {:induction false} CtrlIff(s: State, es: seq<Event>)
    requires InBounds(s)
    ensures Steps(s, es).ctrl <==> Held(es, s.ctrl)
  {
    if es != [] {
      CtrlIff(s, es[..|es| - 1]);
      CtrlStep(Steps(s, es[..|es| - 1]), es[|es| - 1]);
      HeldStep(es, s.ctrl);
      hide Held, Next;
    }
  }

  /** Which code raises the interrupt, after any run: that of 'c', exactly while Ctrl is held. */
  lemma InterruptIff(s: State, es: seq<Event>, scancode: u8)
    requires InBounds(s)
    ensures Decode(scancode, Steps(s, es).ctrl) == Interrupt <==> Held(es, s.ctrl) && scancode == 0x2E
  {
    CtrlIff(s, es);
    RaisesIff(scancode, Steps(s, es).ctrl);
  }

  lemma RaisesIff(scancode: u8, held: bool)
    ensures Decode(scancode, held) == Interrupt <==> held && scancode == 0x2E
  {
    if scancode < KBMAP_SIZE {
      KeyC(scancode);
    }
    hide Kbmap;
  }

  /** The characters that a run of events types: each code of the map that has one its own, but for 'c'
      while Ctrl is held. */
  ghost function Keys(es: seq<Event>, before: bool): string {
    if es == [] then ""
    else
      var front, e := es[..|es| - 1], es[|es| - 1];
      Keys(front, before)
      + if e.Irq? && e.scancode < KBMAP_SIZE && Kbmap(e.scancode) != NUL
           && !(Held(front, before) && Kbmap(e.scancode) == 'c')
        then [Kbmap(e.scancode)] else ""
  }

  lemma {:induction false} TypedIsKeys(s: State, es: seq<Event>)
    requires InBounds(s)
    ensures Typed(s, es) == Keys(es, s.ctrl)
  {
    if es != [] {
      var front, e := es[..|es| - 1], es[|es| - 1];
      TypedIsKeys(s, front);
      CtrlIff(s, front);
      KeyC(0x1D);
      hide Kbmap, Held, Next, Steps;
      assert Steps(s, front).ctrl == Held(front, s.ctrl);
    }
  }

  /** Everything typed is accepted, in order, exactly when nothing is typed while 63 characters are
      waiting. */
  lemma {:induction false} NothingLostIff(s: State, es: seq<Event>)
    requires Fifo(s) && InBounds(s)
    ensures Steps(s, es).accepted == s.accepted + Typed(s, es) <==> NoDrop(s, es)
    ensures |Steps(s, es).accepted| <= |s.accepted| + |Typed(s, es)|
    ensures !NoDrop(s, es) ==> |Steps(s, es).accepted| < |s.accepted| + |Typed(s, es)|
  {
    if es != [] {
      var before, e := es[..|es| - 1], es[|es| - 1];
      AlwaysFifo(s, before);
      NothingLostIff(s, before);
      TypedStep(Steps(s, before), e);
      hide Fifo, Decode, Next;
    }
  }

  function Irqs(scs: seq<u8>): (es: seq<Event>)
    ensures |es| == |scs|
  {
    seq(|scs|, i requires 0 <= i < |scs| => Irq(scs[i]))
  }

  lemma NoIrqs(s: State, scs: seq<u8>)
    requires InBounds(s) && scs == []
    ensures Steps(s, Irqs(scs)) == s
  {
  }

  lemma IrqStep(s: State, scs: seq<u8>, i: nat)
    requires InBounds(s) && i < |scs|
    ensures Steps(s, Irqs(scs[..i + 1])) == Next(Steps(s, Irqs(scs[..i])), Irq(scs[i]))
  {
    hide Next;
    assert Irqs(scs[..i + 1])[..i] == Irqs(scs[..i]);
  }

  // ----- the code -----

  class Keyboard {
    const kbBuf: array<char>
    var kbHead: nat
    var kbTail: nat
    var ctrlHeld: bool
    ghost var phase: Phase
    ghost var accepted: string
    ghost var consumed: string

    ghost predicate Valid()
      reads this, kbBuf
    {
      kbBuf.Length == SIZE && kbHead < SIZE && kbTail < SIZE && Fifo(View())
    }

    ghost function View(): State
      requires kbBuf.Length == SIZE
      reads this, kbBuf
    {
      State(kbBuf[..], kbHead, kbTail, ctrlHeld, phase, accepted, consumed)
    }

    constructor ()
      ensures Valid() && View() == State(kbBuf[..], 0, 0, false, Idle, [], []) && fresh(kbBuf)
    {
      kbBuf := new char[SIZE](_ => NUL);
      kbHead, kbTail, ctrlHeld := 0, 0, false;
      phase, accepted, consumed := Idle, [], [];
    }

    /** keyboard_handler. */
    method Handler(scancode: u8) returns (sigint: bool)
      requires Valid()
      modifies this, kbBuf
      ensures Valid() && View() == Next(old(View()), Irq(scancode))
      ensures sigint <==> Decode(scancode, old(ctrlHeld)) == Interrupt
      ensures sigint <==> old(ctrlHeld) && scancode == 0x2E
    {
      RaisesIff(scancode, ctrlHeld);
      hide Kbmap;
      FifoStep(View(), Irq(scancode));
      hide Fifo;
      if scancode == CTRL_PRESS {
        ctrlHeld := true;
        return false;
      }
      if scancode == CTRL_RELEASE {
        ctrlHeld := false;
        return false;
      }
      if scancode >= 0x80 || scancode >= KBMAP_SIZE {
        return false;
      }
      var c := Kbmap(scancode);
      if c == NUL {
        return false;
      }
      if ctrlHeld && c == 'c' {
        return true;
      }
      var next := (kbHead + 1) % SIZE;
      if next != kbTail {
        accepted := accepted + [c];
        kbBuf[kbHead] := c;
        kbHead := next;
      }
      return false;
    }

    /** Interrupts arriving, one after the other. */
    method Interrupted(scancodes: seq<u8>)
      requires Valid()
      modifies this, kbBuf
      ensures Valid() && View() == Steps(old(View()), Irqs(scancodes))
    {
      ghost var s := View();
      hide Fifo, Next, Kbmap, Steps, Irqs;
      var i := 0;
      assert View() == Steps(s, Irqs(scancodes[..0])) by {
        NoIrqs(s, scancodes[..0]);
      }
      while i < |scancodes|
        invariant 0 <= i <= |scancodes| && Valid() && View() == Steps(s, Irqs(scancodes[..i]))
      {
        IrqStep(s, scancodes, i);
        var sigint := Handler(scancodes[i]);
        i := i + 1;
      }
      assert scancodes[..i] == scancodes;
    }

    /** First step: is there anything? */
    method Test() returns (empty: bool)
      requires Valid() && phase.Idle?
      modifies this`phase
      ensures Valid() && View() == Next(old(View()), Consume) && (empty <==> phase.Idle?)
    {
      ConsumeFifo(View());
      hide Fifo, Kbmap;
      empty := kbHead == kbTail;
      if !empty {
        phase := Tested;
      }
    }

    /** Second step: read the slot. */
    method Fetch() returns (c: char)
      requires Valid() && phase.Tested?
      modifies this`phase
      ensures Valid() && View() == Next(old(View()), Consume) && phase == Fetched(c)
    {
      ConsumeFifo(View());
      hide Fifo, Kbmap;
      c := kbBuf[kbTail];
      phase := Fetched(c);
    }

    /** Third step: give the slot back. */
    method Advance()
      requires Valid() && phase.Fetched?
      modifies this`phase, this`consumed, this`kbTail
      ensures Valid() && View() == Next(old(View()), Consume)
    {
      ConsumeFifo(View());
      hide Fifo, Kbmap;
      kbTail := (kbTail + 1) % SIZE;
      phase, consumed := Idle, consumed + [phase.c];
    }

    /** kb_getchar, with the interrupts that arrive after the test and after the read of the slot. */
    method Getchar(afterTest: seq<u8>, afterRead: seq<u8>) returns (c: char)
      requires Valid() && phase.Idle?
      modifies this, kbBuf
      ensures Valid() && phase.Idle?
      ensures c == if old(accepted) == old(consumed) then NUL else old(accepted)[|old(consumed)|]
      ensures consumed == if c == NUL then old(consumed) else old(consumed) + [c]
      ensures old(accepted) <= accepted
      ensures afterTest == [] && afterRead == [] ==> accepted == old(accepted) && ctrlHeld == old(ctrlHeld)
    {
      ghost var s := View();
      Waiting(s);
      ConsumeFifo(s);
      hide Fifo, Kbmap;
      var empty := Test();
      if empty {
        return NUL;
      }
      ghost var s1 := View();
      Interrupted(afterTest);
      IrqsOnly(s1, afterTest);
      c := Fetch();
      ghost var s2 := View();
      Interrupted(afterRead);
      IrqsOnly(s2, afterRead);
      Advance();
      OldestWaiting(s2, c);
    }
  }

  /** What is waiting is what was accepted and not returned. */
  lemma Waiting(s: State)
    requires Fifo(s)
    ensures s.accepted != s.consumed ==> |s.consumed| < |s.accepted| && s.accepted[|s.consumed|] != NUL
  {
    assert |s.consumed| == |s.accepted| ==> s.consumed == s.accepted;
  }

  lemma OldestWaiting(s: State, c: char)
    requires Fifo(s) && s.phase == Fetched(c)
    ensures |s.consumed| < |s.accepted| && c == s.accepted[|s.consumed|]
  {
  }

  /** Interrupts do not touch what belongs to the consumer. */
  lemma {:induction false} IrqsOnly(s: State, scs: seq<u8>)
    requires Fifo(s) && InBounds(s)
    ensures var s' := Steps(s, Irqs(scs));
      && Fifo(s') && s'.tail == s.tail && s'.phase == s.phase && s'.consumed == s.consumed && s.accepted <= s'.accepted
      && (scs == [] ==> s' == s)
  {
    hide Kbmap;
    AlwaysFifo(s, Irqs(scs));
    if scs != [] {
      assert Irqs(scs)[..|scs| - 1] == Irqs(scs[..|scs| - 1]);
      IrqsOnly(s, scs[..|scs| - 1]);
    }
  }
}
