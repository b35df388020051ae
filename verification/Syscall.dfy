/** process/syscall.c: the system call dispatcher over the scheduler's tasks, the node pool, the
    ext2 driver and the keyboard. */
module Syscalls {
  import opened Bits
  import opened Memory
  import opened Ext2
  import opened Vfs
  import opened Kernel
  import opened Scheduler
  import Keyboard

  const SYS_PRINT := 0
  const SYS_EXIT := 1
  const SYS_SETCOLOR := 2
  const SYS_OPEN := 3
  const SYS_CLOSE := 4
  const SYS_READ := 5
  const SYS_GETCHAR := 6
  const SYS_LS := 7
  const SYS_SIGACTION := 8
  const SYS_KILL := 9
  const SYS_SIGRETURN := 10

  /** The call that the registers stand for: `path` is the string at ebx, `ino` and `length` what
      the directory search would find for it, `c` the character waiting at the keyboard. */
  function Decode(eax: u32, ebx: u32, ecx: u32, edx: u32, path: CString, ino: u32, length: u32, c: u8): Call {
    if eax == SYS_PRINT || eax == SYS_SETCOLOR || eax == SYS_LS then Display
    else if eax == SYS_OPEN then Call.Open(path, ino, length)
    else if eax == SYS_CLOSE then Call.Close(Signed(ebx))
    else if eax == SYS_READ then Call.Read(Signed(ebx), edx)
    else if eax == SYS_GETCHAR then Call.Getchar(c)
    else if eax == SYS_SIGACTION then Call.Sigaction(Signed(ebx), ecx)
    else if eax == SYS_KILL then Call.Kill(Signed(ebx))
    else if eax == SYS_SIGRETURN then Call.Sigreturn
    else Unknown
  }

  /** The calls by number, and the registers they take their arguments from. */
  lemma CallNumbers(eax: u32, ebx: u32, ecx: u32, edx: u32, path: CString, ino: u32, length: u32, c: u8)
    ensures var call := Decode(eax, ebx, ecx, edx, path, ino, length, c);
      && (eax == 0 || eax == 2 || eax == 7 ==> call == Display)
      && (eax == 3 ==> call == Call.Open(path, ino, length))
      && (eax == 4 ==> call.Close? && Wrap(call.fd) == ebx)
      && (eax == 5 ==> call.Read? && Wrap(call.fd) == ebx && call.count == edx)
      && (eax == 6 ==> call == Call.Getchar(c))
      && (eax == 8 ==> call.Sigaction? && Wrap(call.sig) == ebx && call.handler == ecx)
      && (eax == 9 ==> call.Kill? && Wrap(call.sig) == ebx)
      && (eax == 10 ==> call == Call.Sigreturn)
      && (eax > 10 ==> call == Unknown)
  {
  }

  /** `(unsigned char) c` */
  function Byte(c: char): u8 {
    c as int % 256
  }

  class Dispatcher {
    const sched: TaskTable
    const fs: FileSystem
    const kb: Keyboard.Keyboard

    constructor (sched: TaskTable, fs: FileSystem, kb: Keyboard.Keyboard)
      ensures this.sched == sched && this.fs == fs && this.kb == kb
    {
      this.sched, this.fs, this.kb := sched, fs, kb;
    }

    ghost predicate Valid()
      reads sched`ntasks, sched`cur, sched.taskList, sched.links, kb, kb.kbBuf
    {
      && sched.Valid() && fs.Valid() && kb.Valid() && kb.phase.Idle?
    }

    /** The state of the step system that all of this stands for. */
    ghost function View(): Kernel.State
      requires sched.ntasks <= sched.pool.Length && fs.pool.Length == POOL
      reads sched`ntasks, sched`cur, sched.cpu`cr3, sched.cpu`esp0, sched.pool, fs.pool
    {
      sched.View(fs.Nodes())
    }

    /** The character that kb_getchar would return. */
    ghost function Waiting(): u8
      requires kb.Valid()
      reads kb, kb.kbBuf
    {
      if kb.accepted == kb.consumed then 0 else Byte(kb.accepted[|kb.consumed|])
    }

    // ----- one method per case -----

    method Open(path: CString) returns (ret: int)
      requires Valid() && sched.cur >= 0
      modifies sched.pool, fs.pool, fs.ext2.blkA, fs.ext2.blkB
      ensures Valid()
      ensures Kernel.Result(View(), ret) == DoOpen(old(View()), path, old(fs.Found(path)),
          fs.ext2.vol.InodeAt(old(fs.Found(path))).size)
    {
      hide Lookup, Scan, Volume.InodeAt, Opened;
      var t := sched.cur;
      ghost var files := sched.pool[t].files;
      var node := fs.Open(path);
      if node == None {
        return -1;
      }
      OpenedInPool(old(fs.Nodes()), Strip(path), old(fs.Found(path)), fs.ext2.vol.InodeAt(old(fs.Found(path))).size);
      var fd := 3;
      while fd < MAX_FD && sched.pool[t].files[fd].used
        invariant 3 <= fd <= MAX_FD && FreeFd(files, 3) == FreeFd(files, fd)
      {
        fd := fd + 1;
      }
      if fd < MAX_FD {
        sched.pool[t] := sched.pool[t].(files := sched.pool[t].files[fd := Fd(node, 0, true)]);
        return fd;
      }
      fs.Close(node);
      return -1;
    }

    method Close(fd: int) returns (ret: int)
      requires Valid() && sched.cur >= 0 && NodesInPool(View())
      modifies sched.pool, fs.pool
      ensures Valid() && Kernel.Result(View(), ret) == DoClose(old(View()), fd)
    {
      var t := sched.cur;
      assert View().tasks[t] == sched.pool[t];
      if fd < 3 || fd >= MAX_FD || !sched.pool[t].files[fd].used {
        return -1;
      }
      fs.Close(sched.pool[t].files[fd].node);
      sched.pool[t] := sched.pool[t].(files := sched.pool[t].files[fd := Fd(None, 0, false)]);
      return 0;
    }

    method Read(fd: int, buf: array<u8>, count: u32) returns (ret: int)
      requires Valid() && sched.cur >= 0 && NodesInPool(View())
      requires |ReadData(fs.ext2.vol, View(), fd, count)| <= buf.Length
      requires buf != fs.ext2.blkA && buf != fs.ext2.blkB
      modifies sched.pool, fs.ext2.blkA, buf
      ensures Valid() && Kernel.Result(View(), ret) == DoRead(fs.ext2.vol, old(View()), fd, count)
      ensures ret != -1 ==> 0 <= ret <= buf.Length && buf[..ret] == ReadData(fs.ext2.vol, old(View()), fd, count)
    {
      hide Volume.InodeAt, Volume.Pread;
      var t := sched.cur;
      assert View().tasks[t] == sched.pool[t];
      if fd < 3 || fd >= MAX_FD || !sched.pool[t].files[fd].used {
        return -1;
      }
      var node := sched.pool[t].files[fd].node;
      var n := fs.Read(node, sched.pool[t].files[fd].offset, count, buf);
      var offset := Wrap(sched.pool[t].files[fd].offset + n);
      sched.pool[t] := sched.pool[t].(files := sched.pool[t].files[fd := sched.pool[t].files[fd].(offset := offset)]);
      return n;
    }

    method Sigaction(sig: int, handler: u32) returns (ret: int)
      requires Valid()
      modifies sched.pool
      ensures Valid() && fs.Nodes() == old(fs.Nodes())
      ensures ret == if sched.cur >= 0 && RealSignal(sig) then 0 else -1
      ensures View() == var s := old(View());
        if ret == 0 then s.With(s.Current().(handlers := s.Current().handlers[sig := handler])) else s
    {
      var t := sched.cur;
      if t == -1 || sig <= 0 || sig >= NSIG {
        return -1;
      }
      sched.pool[t] := sched.pool[t].(handlers := sched.pool[t].handlers[sig := handler]);
      return 0;
    }

    method Kill(sig: int) returns (ret: int)
      requires Valid()
      modifies sched.pool
      ensures Valid() && fs.Nodes() == old(fs.Nodes())
      ensures ret == if sched.cur >= 0 && RealSignal(sig) then 0 else -1
      ensures View() == Kernel.Signal(old(View()), sig)
    {
      var t := sched.cur;
      if t == -1 || sig <= 0 || sig >= NSIG {
        return -1;
      }
      sched.pool[t] := sched.pool[t].(pending := sched.pool[t].pending[sig := true]);
      return 0;
    }

    method Sigreturn(frame: array<u32>) returns (ret: int)
      requires Valid() && frame.Length == 9
      modifies sched.pool, frame
      ensures Valid() && fs.Nodes() == old(fs.Nodes())
      ensures var s := old(View());
        if s.tasks != [] && s.Current().inHandler then
          ret == 0 && View() == s.With(s.Current().(inHandler := false)) && frame[..] == Restored(s.Current().saved)
        else ret == -1 && View() == s && frame[..] == old(frame[..])
    {
      var t := sched.cur;
      assert t >= 0 ==> View().tasks[t] == sched.pool[t];
      if t == -1 || !sched.pool[t].inHandler {
        return -1;
      }
      sched.pool[t] := sched.pool[t].(inHandler := false);
      WriteFrame(frame, sched.pool[t].saved);
      return 0;
    }

    /** The nine assignments to `frame`. */
    method WriteFrame(frame: array<u32>, saved: Context)
      requires frame.Length == 9
      modifies frame
      ensures frame[..] == Restored(saved)
    {
      frame[0] := saved[7];
      frame[1] := saved[4];
      frame[2] := saved[6];
      frame[3] := saved[5];
      frame[4] := saved[8];
      frame[5] := saved[9];
      frame[6] := saved[10];
      frame[7] := saved[11];
      frame[8] := saved[12];
    }

    /** syscall_handler, without SYS_EXIT, which never returns. `path` is the string at ebx and `buf`
        the memory at ecx; `shown` are the names that SYS_LS prints. */
    method Handle(frame: array<u32>, eax: u32, ebx: u32, ecx: u32, edx: u32, path: CString, buf: array<u8>)
      returns (ret: int, shown: seq<CString>)
      requires Valid() && NodesInPool(View()) && frame.Length == 9
      requires eax != SYS_EXIT
      requires eax == SYS_OPEN || eax == SYS_CLOSE || eax == SYS_READ ==> sched.cur >= 0
      requires eax == SYS_READ ==> |ReadData(fs.ext2.vol, View(), Signed(ebx), edx)| <= buf.Length
      requires buf != fs.ext2.blkA && buf != fs.ext2.blkB
      modifies sched.pool, fs.pool, fs.ext2.blkA, fs.ext2.blkB, kb, kb.kbBuf, buf, frame
      ensures Valid()
      ensures var ino := old(fs.Found(path));
        var call := Decode(eax, ebx, ecx, edx, path, ino, fs.ext2.vol.InodeAt(ino).size, old(Waiting()));
        var r := Syscall(fs.ext2.vol, old(View()), old(frame[..]), call);
        && View() == r.state && frame[..] == r.frame && ret == r.ret
        && (eax == 6 ==> ret == old(Waiting()))
        && (eax == SYS_LS ==> shown == old(fs.Names()))
        && (eax == SYS_READ && ret != -1 ==> 0 <= ret <= buf.Length && buf[..ret] == r.data)
    {
      hide Lookup, Scan, Volume.InodeAt, Volume.Pread, Volume.DirView, Volume.DirEnd, Volume.Valid, Listing;
      hide DoOpen, DoClose, DoRead, ReadData, NodesInPool, FileSystem.Found, FileSystem.Names, Restored, Keyboard.Fifo;
      shown := [];
      if eax == SYS_PRINT || eax == SYS_SETCOLOR {
        return 0, [];
      } else if eax == SYS_OPEN {
        ret := Open(path);
      } else if eax == SYS_CLOSE {
        ret := Close(Signed(ebx));
      } else if eax == SYS_READ {
        ret := Read(Signed(ebx), buf, edx);
      } else if eax == SYS_GETCHAR {
        var c := kb.Getchar([], []);
        ret := Byte(c);
      } else if eax == SYS_LS {
        shown := fs.List();
        ret := 0;
      } else if eax == SYS_SIGACTION {
        ret := Sigaction(Signed(ebx), ecx);
      } else if eax == SYS_KILL {
        ret := Kill(Signed(ebx));
      } else if eax == SYS_SIGRETURN {
        ret := Sigreturn(frame);
      } else {
        ret := -1;
      }
    }

    /** IRQ1: keyboard_handler, with its sched_signal. */
    method KeyboardInterrupt(scancode: u8)
      requires Valid()
      modifies kb, kb.kbBuf, sched.pool
      ensures Valid() && kb.View() == Keyboard.Next(old(kb.View()), Keyboard.Irq(scancode))
      ensures View()
        == if old(kb.ctrlHeld) && scancode == 0x2E then Kernel.Signal(old(View()), 2) else old(View())
    {
      hide Keyboard.Decode, Keyboard.Fifo;
      var sigint := kb.Handler(scancode);
      if sigint {
        sched.Signal(SIGINT, fs.Nodes());
      }
    }
  }

  lemma OpenedInPool(pool: Pool, name: CString, ino: u32, length: u32)
    ensures var o := Opened(pool, name, ino, length); o.node.Some? ==> o.node.value < POOL
  {
  }
}
