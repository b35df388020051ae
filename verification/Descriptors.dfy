/** File descriptors and open nodes over whole runs. */
module Descriptors {
  import opened Bits
  import opened Memory
  import opened Vfs
  import opened Kernel
  import opened Runs
  import Ext2

  // ----- descriptors and nodes are in bijection -----

  /** Descriptor f of task t is open on node n. */
  predicate Refers(s: State, t: nat, f: nat, n: nat) {
    t < |s.tasks| && f < MAX_FD && s.tasks[t].files[f].used && s.tasks[t].files[f].node == Some(n)
  }

  /** A descriptor in use is not one of 0, 1, 2 and refers to a node in use; one not in use refers
      to nothing. */
  ghost predicate FdOk(s: State, t: nat, f: nat)
    requires t < |s.tasks| && f < MAX_FD
  {
    var fd := s.tasks[t].files[f];
    if fd.used then
      && 3 <= f && fd.node.Some? && fd.node.value < POOL
      && s.nodes[fd.node.value].used && s.nodes[fd.node.value].reader
    else fd.node == None
  }

  ghost predicate NodeHeld(s: State, n: nat) {
    exists t, f :: Refers(s, t, f, n)
  }

  /** Used descriptors of all tasks and used nodes of the pool correspond one to one. */
  ghost predicate Paired(s: State) {
    && (forall t, f :: 0 <= t < |s.tasks| && 0 <= f < MAX_FD ==> FdOk(s, t, f))
    && (forall t, f, t', f', n :: Refers(s, t, f, n) && Refers(s, t', f', n) ==> t == t' && f == f')
    && forall n :: 0 <= n < POOL && s.nodes[n].used ==> NodeHeld(s, n)
  }

  lemma PairedInPool(s: State)
    requires Paired(s)
    ensures NodesInPool(s)
  {
    forall t, f | 0 <= t < |s.tasks| && 0 <= f < MAX_FD && s.tasks[t].files[f].node.Some?
      ensures s.tasks[t].files[f].node.value < POOL
    {
      assert FdOk(s, t, f);
    }
  }

  /** b has the descriptors and nodes of a, and perhaps a task more, with nothing open. */
  ghost predicate SameOpen(a: State, b: State) {
    && b.nodes == a.nodes && |a.tasks| <= |b.tasks|
    && forall t, f :: 0 <= t < |b.tasks| && 0 <= f < MAX_FD ==> SameFd(a, b, t, f)
  }

  ghost predicate SameFd(a: State, b: State, t: nat, f: nat)
    requires t < |b.tasks| && f < MAX_FD
  {
    var fd := b.tasks[t].files[f];
    if t < |a.tasks| then fd.used == a.tasks[t].files[f].used && fd.node == a.tasks[t].files[f].node
    else !fd.used && fd.node == None
  }

  lemma SamePaired(a: State, b: State)
    requires Paired(a) && SameOpen(a, b)
    ensures Paired(b)
  {
    forall t, f | 0 <= t < |b.tasks| && 0 <= f < MAX_FD
      ensures FdOk(b, t, f)
    {
      assert SameFd(a, b, t, f);
      assert t < |a.tasks| ==> FdOk(a, t, f);
    }
    forall t: nat, f: nat, n: nat
      ensures Refers(b, t, f, n) == Refers(a, t, f, n)
    {
      if t < |b.tasks| && f < MAX_FD {
        assert SameFd(a, b, t, f);
      }
    }
    forall n | 0 <= n < POOL && b.nodes[n].used
      ensures NodeHeld(b, n)
    {
      assert NodeHeld(a, n);
      var t, f :| Refers(a, t, f, n);
      assert Refers(b, t, f, n);
    }
  }

  /** Descriptor fd of the current task becomes `to`. */
  function WithFd(s: State, fd: nat, to: Fd): State
    requires s.cur < |s.tasks| && fd < MAX_FD
  {
    s.With(s.Current().(files := s.Current().files[fd := to]))
  }

  lemma OpenPaired(s: State, n: nat, node: Node, fd: nat)
    requires Paired(s) && s.cur < |s.tasks| && n < POOL && 3 <= fd < MAX_FD
    requires !s.nodes[n].used && !s.Current().files[fd].used && node.used && node.reader
    ensures Paired(WithFd(s.(nodes := s.nodes[n := node]), fd, Fd(Some(n), 0, true)))
  {
    var s' := WithFd(s.(nodes := s.nodes[n := node]), fd, Fd(Some(n), 0, true));
    forall t, f | 0 <= t < |s'.tasks| && 0 <= f < MAX_FD
      ensures FdOk(s', t, f)
    {
      assert FdOk(s, t, f);
    }
    forall t: nat, f: nat, m: nat
      ensures Refers(s', t, f, m) == (if t == s.cur && f == fd then m == n else Refers(s, t, f, m))
      ensures Refers(s, t, f, m) ==> m != n && !(t == s.cur && f == fd)
    {
      if t < |s.tasks| && f < MAX_FD {
        assert FdOk(s, t, f);
      }
    }
    forall m | 0 <= m < POOL && s'.nodes[m].used
      ensures NodeHeld(s', m)
    {
      if m == n {
        assert Refers(s', s.cur, fd, n);
      } else {
        assert NodeHeld(s, m);
        var t, f :| Refers(s, t, f, m);
        assert Refers(s', t, f, m);
      }
    }
  }

  lemma ClosePaired(s: State, n: nat, fd: nat)
    requires Paired(s) && Refers(s, s.cur, fd, n) && n < POOL
    ensures Paired(WithFd(s.(nodes := Closed(s.nodes, n)), fd, Fd(None, 0, false)))
  {
    var s' := WithFd(s.(nodes := Closed(s.nodes, n)), fd, Fd(None, 0, false));
    forall t: nat, f: nat, m: nat
      ensures Refers(s', t, f, m) == (Refers(s, t, f, m) && !(t == s.cur && f == fd))
      ensures Refers(s', t, f, m) ==> m != n
    {
    }
    forall t, f | 0 <= t < |s'.tasks| && 0 <= f < MAX_FD
      ensures FdOk(s', t, f)
    {
      assert FdOk(s, t, f);
      if s'.tasks[t].files[f].used {
        assert Refers(s', t, f, s.tasks[t].files[f].node.value);
      }
    }
    forall m | 0 <= m < POOL && s'.nodes[m].used
      ensures NodeHeld(s', m)
    {
      assert NodeHeld(s, m);
      var t, f :| Refers(s, t, f, m);
      assert Refers(s', t, f, m);
    }
  }

  /** Which nodes and descriptors are in use. */
  ghost predicate SameUse(a: State, b: State) {
    && |b.tasks| == |a.tasks|
    && (forall n :: 0 <= n < POOL ==> b.nodes[n].used == a.nodes[n].used)
    && forall t :: 0 <= t < |a.tasks| ==> b.tasks[t].files == a.tasks[t].files
  }

  /** Node n filled for the file, and descriptor fd open on it at offset 0. */
  function AfterOpen(s: State, path: Ext2.CString, ino: u32, length: u32, n: nat, fd: nat): State
    requires s.cur < |s.tasks| && n < POOL && fd < MAX_FD
  {
    var node := Node(Shortened(Strip(path)), FS_FILE, ino, length, true, true);
    WithFd(s.(nodes := s.nodes[n := node]), fd, Fd(Some(n), 0, true))
  }

  /** OPEN fails exactly when no node is free, the name is not found or no descriptor is free, and
      then the same nodes and descriptors are in use as before; otherwise it gives the least free
      descriptor, at offset 0 on a node that was free. */
  lemma OpenIff(s: State, path: Ext2.CString, ino: u32, length: u32)
    requires s.cur < |s.tasks|
    ensures var r, files := DoOpen(s, path, ino, length), s.Current().files;
      && (r.ret == -1 <==>
            || (forall n :: 0 <= n < POOL ==> s.nodes[n].used)
            || ino == 0
            || forall f :: 3 <= f < MAX_FD ==> files[f].used)
      && (r.ret == -1 ==> SameUse(s, r.state))
      && (r.ret != -1 ==>
            && 3 <= r.ret < MAX_FD && !files[r.ret].used && (forall f :: 3 <= f < r.ret ==> files[f].used)
            && exists n :: 0 <= n < POOL && !s.nodes[n].used
                 && r.state == AfterOpen(s, path, ino, length, n, r.ret))
  {
  }

  /** What a successful OPEN leaves: descriptor fd, which was not in use, is at offset 0 of node n, which
      was not in use and now stands for the file found; everything else is as it was. */
  lemma OpenedNode(s: State, path: Ext2.CString, ino: u32, length: u32)
    requires s.cur < |s.tasks|
    ensures var r := DoOpen(s, path, ino, length);
      r.ret != -1 ==>
        && 3 <= r.ret < MAX_FD && |r.state.tasks| == |s.tasks|
        && exists n :: 0 <= n < POOL && OpenOn(s, r.state, r.ret, n, ino, length)
  {
    OpenIff(s, path, ino, length);
    var r := DoOpen(s, path, ino, length);
    if r.ret != -1 {
      var n :| 0 <= n < POOL && !s.nodes[n].used && r.state == AfterOpen(s, path, ino, length, n, r.ret);
      assert OpenOn(s, r.state, r.ret, n, ino, length);
    }
  }

  ghost predicate OpenOn(s: State, s': State, fd: nat, n: nat, ino: u32, length: u32)
    requires s.cur < |s.tasks| == |s'.tasks| && fd < MAX_FD && n < POOL
  {
    && !s.nodes[n].used && s'.nodes[n].used && s'.nodes[n].reader
    && s'.nodes[n].inode == ino && s'.nodes[n].length == length && s'.nodes[n].flags == 1
    && (forall m :: 0 <= m < POOL && m != n ==> s'.nodes[m] == s.nodes[m])
    && s'.tasks[s.cur].files[fd] == Fd(Some(n), 0, true)
    && OthersAs(s, s', fd)
  }

  /** But for descriptor fd of the running task, tasks and processor are as they were. */
  ghost predicate OthersAs(s: State, s': State, fd: nat)
    requires s.cur < |s.tasks| == |s'.tasks| && fd < MAX_FD
  {
    && s'.cur == s.cur && s'.cr3 == s.cr3 && s'.esp0 == s.esp0
    && (forall t :: 0 <= t < |s.tasks| && t != s.cur ==> s'.tasks[t] == s.tasks[t])
    && s'.tasks[s.cur] == s.tasks[s.cur].(files := s'.tasks[s.cur].files)
    && forall f :: 0 <= f < MAX_FD && f != fd ==> s'.tasks[s.cur].files[f] == s.tasks[s.cur].files[f]
  }

  /** CLOSE fails exactly for a descriptor out of range or not in use, and then changes nothing; otherwise
      it returns 0, the descriptor refers to nothing, its node is free, and everything else is as it was. */
  lemma CloseIff(s: State, fd: int)
    requires s.cur < |s.tasks| && Paired(s) && NodesInPool(s)
    ensures var r, files := DoClose(s, fd), s.tasks[s.cur].files;
      && (r.ret == -1 <==> fd < 3 || fd >= 8 || !files[fd].used)
      && (r.ret == -1 ==> r.state == s)
      && (r.ret != -1 ==>
            && r.ret == 0 && |r.state.tasks| == |s.tasks| && files[fd].node.Some? && files[fd].node.value < POOL
            && r.state.tasks[s.cur].files[fd] == Fd(None, 0, false) && OthersAs(s, r.state, fd)
            && var n := files[fd].node.value;
            && r.state.nodes[n] == s.nodes[n].(used := false)
            && forall m :: 0 <= m < POOL && m != n ==> r.state.nodes[m] == s.nodes[m])
  {
    if 3 <= fd < MAX_FD {
      assert FdOk(s, s.cur, fd);
    }
  }

  /** READ fails exactly as CLOSE does; otherwise it returns the number of bytes delivered, which are the
      file's at the descriptor's offset, advances the offset by it, and leaves everything else. */
  lemma ReadIff(v: Ext2.Volume, s: State, fd: int, count: u32)
    requires v.Valid() && s.cur < |s.tasks| && Paired(s) && NodesInPool(s)
    ensures var r, files, data := DoRead(v, s, fd, count), s.tasks[s.cur].files, ReadData(v, s, fd, count);
      && (r.ret == -1 <==> fd < 3 || fd >= 8 || !files[fd].used)
      && (r.ret == -1 ==> r.state == s)
      && (r.ret != -1 ==>
            && r.ret == |data| && |r.state.tasks| == |s.tasks| && files[fd].node.Some? && files[fd].node.value < POOL
            && data == v.Pread(v.InodeAt(s.nodes[files[fd].node.value].inode), files[fd].offset, count)
            && r.state.tasks[s.cur].files[fd] == files[fd].(offset := Wrap(files[fd].offset + |data|))
            && r.state.nodes == s.nodes && OthersAs(s, r.state, fd))
  {
    hide Ext2.Volume.InodeAt, Ext2.Volume.Pread;
    if 3 <= fd < MAX_FD {
      assert FdOk(s, s.cur, fd);
    }
  }

  /** A leading slash makes no difference. */
  lemma SlashIgnored(s: State, name: Ext2.CString, ino: u32, length: u32)
    requires s.cur < |s.tasks| && (name == [] || name[0] != '/' as int)
    ensures DoOpen(s, ['/' as int] + name, ino, length) == DoOpen(s, name, ino, length)
    ensures Strip(['/' as int] + name) == name == Strip(name)
  {
    assert (['/' as int] + name)[1..] == name;
  }

  lemma FailedOpenPaired(a: State, b: State)
    requires Paired(a) && SameUse(a, b) && forall n :: 0 <= n < POOL && a.nodes[n].used ==> b.nodes[n] == a.nodes[n]
    ensures Paired(b)
  {
    forall t, f | 0 <= t < |b.tasks| && 0 <= f < MAX_FD
      ensures FdOk(b, t, f)
    {
      assert FdOk(a, t, f);
    }
    forall t: nat, f: nat, n: nat
      ensures Refers(b, t, f, n) == Refers(a, t, f, n)
    {
    }
    forall n | 0 <= n < POOL && b.nodes[n].used
      ensures NodeHeld(b, n)
    {
      assert NodeHeld(a, n);
      var t, f :| Refers(a, t, f, n);
      assert Refers(b, t, f, n);
    }
  }

  /** An OPEN, a CLOSE that closes something, or neither. */
  predicate TouchesFiles(e: Event) {
    e.Sys? && (e.call.Open? || e.call.Close?)
  }

  lemma OthersSame(v: Ext2.Volume, s: State, e: Event)
    requires Enabled(v, s, e) && !TouchesFiles(e)
    ensures SameOpen(s, Next(v, s, e))
  {
    var s' := Next(v, s, e);
    forall t, f | 0 <= t < |s'.tasks| && 0 <= f < MAX_FD
      ensures SameFd(s, s', t, f)
    {
      SameFdStep(v, s, e, t, f);
    }
  }

  lemma SameFdStep(v: Ext2.Volume, s: State, e: Event, t: nat, f: nat)
    requires Enabled(v, s, e) && !TouchesFiles(e) && f < MAX_FD && t < |Next(v, s, e).tasks|
    ensures SameFd(s, Next(v, s, e), t, f)
  {
  }

  lemma PairedOpen(s: State, path: Ext2.CString, ino: u32, length: u32)
    requires Paired(s) && s.cur < |s.tasks|
    ensures Paired(DoOpen(s, path, ino, length).state)
  {
    OpenIff(s, path, ino, length);
    var r := DoOpen(s, path, ino, length);
    if r.ret == -1 {
      FailedOpenPaired(s, r.state);
    } else {
      var node := Node(Shortened(Strip(path)), FS_FILE, ino, length, true, true);
      var n :| 0 <= n < POOL && !s.nodes[n].used && r.state == AfterOpen(s, path, ino, length, n, r.ret);
      OpenPaired(s, n, node, r.ret);
    }
  }

  lemma PairedClose(s: State, fd: int)
    requires Paired(s) && s.cur < |s.tasks| && NodesInPool(s)
    ensures Paired(DoClose(s, fd).state)
  {
    if OpenFd(s.Current(), fd) {
      assert FdOk(s, s.cur, fd);
      ClosePaired(s, s.Current().files[fd].node.value, fd);
    }
  }

  lemma PairedStep(v: Ext2.Volume, s: State, e: Event)
    requires Enabled(v, s, e) && Paired(s)
    ensures Paired(Next(v, s, e))
  {
    if e.Sys? && e.call.Open? {
      PairedOpen(s, e.call.path, e.call.ino, e.call.length);
    } else if e.Sys? && e.call.Close? {
      PairedClose(s, e.call.fd);
    } else {
      OthersSame(v, s, e);
      SamePaired(s, Next(v, s, e));
    }
  }

  /** In every reachable state the used descriptors of all tasks and the used nodes correspond one
      to one: no node is shared and none is lost. */
  lemma {:induction false} AlwaysPaired(v: Ext2.Volume, ss: seq<State>, es: seq<Event>, j: nat)
    requires Run(v, ss, es) && j <= |es| && Paired(ss[0])
    ensures Paired(ss[j]) && NodesInPool(ss[j])
  {
    if j > 0 {
      RunStep(v, ss, es, j - 1);
      hide Paired, Next, Enabled;
      AlwaysPaired(v, ss, es, j - 1);
      PairedStep(v, ss[j - 1], es[j - 1]);
    }
    PairedInPool(ss[j]);
  }

  // ----- reading through a descriptor -----

  /** Task t reads through descriptor fd. */
  predicate IsRead(s: State, e: Event, t: nat, fd: nat) {
    e.Sys? && e.call.Read? && e.call.fd == fd && s.cur == t
  }

  predicate IsClose(s: State, e: Event, t: nat, fd: nat) {
    e.Sys? && e.call.Close? && e.call.fd == fd && s.cur == t
  }

  /** The counts task t asks for through fd during events i..j. */
  ghost function Asked(ss: seq<State>, es: seq<Event>, i: nat, j: nat, t: nat, fd: nat): seq<u32>
    requires |ss| == |es| + 1 && i <= j <= |es|
    decreases j
  {
    if i == j then []
    else Asked(ss, es, i, j - 1, t, fd) + if IsRead(ss[j - 1], es[j - 1], t, fd) then [es[j - 1].call.count] else []
  }

  /** The bytes those reads deliver. */
  ghost function Got(v: Ext2.Volume, ss: seq<State>, es: seq<Event>, i: nat, j: nat, t: nat, fd: nat): seq<u8>
    requires Run(v, ss, es) && i <= j <= |es|
    decreases j
  {
    if i == j then []
    else
      RunStep(v, ss, es, j - 1);
      Got(v, ss, es, i, j - 1, t, fd)
      + if IsRead(ss[j - 1], es[j - 1], t, fd) then Syscall(v, ss[j - 1], es[j - 1].frame, es[j - 1].call).data else []
  }

  ghost predicate NoClose(ss: seq<State>, es: seq<Event>, i: nat, j: nat, t: nat, fd: nat)
    requires |ss| == |es| + 1 && i <= j <= |es|
  {
    forall m :: i <= m < j ==> !IsClose(ss[m], es[m], t, fd)
  }

  /** An open descriptor over one step that does not close it. */
  lemma CursorStep(v: Ext2.Volume, s: State, e: Event, t: nat, fd: nat, n: nat)
    requires Enabled(v, s, e) && Paired(s) && Refers(s, t, fd, n) && n < POOL && !IsClose(s, e, t, fd)
    ensures var s', off := Next(v, s, e), s.tasks[t].files[fd].offset;
      && Refers(s', t, fd, n) && s'.nodes[n].inode == s.nodes[n].inode
      && if IsRead(s, e, t, fd) then
           var data := Syscall(v, s, e.frame, e.call).data;
           data == v.Pread(v.InodeAt(s.nodes[n].inode), off, e.call.count)
               && s'.tasks[t].files[fd].offset == Wrap(off + |data|)
         else s'.tasks[t].files[fd].offset == off
  {
    assert FdOk(s, t, fd);
    if TouchesFiles(e) {
      if e.call.Open? {
        CursorOpen(s, e.call.path, e.call.ino, e.call.length, t, fd, n);
      } else {
        CursorClose(s, e.call.fd, t, fd, n);
      }
    } else if e.Sys? && e.call.Read? {
      CursorRead(v, s, e.call.fd, e.call.count, t, fd, n);
    } else {
      CursorOther(v, s, e, t, fd, n);
    }
  }

  lemma CursorOpen(s: State, path: Ext2.CString, ino: u32, length: u32, t: nat, fd: nat, n: nat)
    requires s.cur < |s.tasks| && Paired(s) && Refers(s, t, fd, n) && n < POOL
    ensures var s' := DoOpen(s, path, ino, length).state;
      Refers(s', t, fd, n) && s'.nodes[n].inode == s.nodes[n].inode && s'.tasks[t].files[fd] == s.tasks[t].files[fd]
  {
    assert FdOk(s, t, fd);
  }

  lemma CursorClose(s: State, closed: int, t: nat, fd: nat, n: nat)
    requires s.cur < |s.tasks| && Paired(s) && NodesInPool(s) && Refers(s, t, fd, n) && n < POOL
    requires !(t == s.cur && closed == fd)
    ensures var s' := DoClose(s, closed).state;
      Refers(s', t, fd, n) && s'.nodes[n].inode == s.nodes[n].inode && s'.tasks[t].files[fd] == s.tasks[t].files[fd]
  {
    assert FdOk(s, t, fd);
    if OpenFd(s.Current(), closed) {
      assert FdOk(s, s.cur, closed);
      assert Refers(s, s.cur, closed, s.Current().files[closed].node.value);
    }
  }

  lemma CursorRead(v: Ext2.Volume, s: State, read: int, count: u32, t: nat, fd: nat, n: nat)
    requires v.Valid() && s.cur < |s.tasks| && Paired(s) && NodesInPool(s) && Refers(s, t, fd, n) && n < POOL
    ensures var s', off := DoRead(v, s, read, count).state, s.tasks[t].files[fd].offset;
      && Refers(s', t, fd, n) && s'.nodes == s.nodes
      && if s.cur == t && read == fd then
           var data := ReadData(v, s, read, count);
           data == v.Pread(v.InodeAt(s.nodes[n].inode), off, count)
               && s'.tasks[t].files[fd].offset == Wrap(off + |data|)
         else s'.tasks[t].files[fd].offset == off
  {
    hide Ext2.Volume.InodeAt, Ext2.Volume.Pread;
    assert FdOk(s, t, fd);
  }

  lemma CursorOther(v: Ext2.Volume, s: State, e: Event, t: nat, fd: nat, n: nat)
    requires Enabled(v, s, e) && Refers(s, t, fd, n) && n < POOL && !TouchesFiles(e) && !(e.Sys? && e.call.Read?)
    ensures var s' := Next(v, s, e);
      Refers(s', t, fd, n) && s'.nodes == s.nodes && s'.tasks[t].files[fd] == s.tasks[t].files[fd]
  {
    hide Ext2.Volume.InodeAt, Ext2.Volume.Pread;
    TableStep(v, s, e);
  }

  /** One event more. */
  lemma AskedStep(v: Ext2.Volume, ss: seq<State>, es: seq<Event>, i: nat, j: nat, t: nat, fd: nat)
    requires Run(v, ss, es) && i < j <= |es| && Enabled(v, ss[j - 1], es[j - 1])
    ensures var s, e := ss[j - 1], es[j - 1];
      if IsRead(s, e, t, fd) then
        && Asked(ss, es, i, j, t, fd) == Asked(ss, es, i, j - 1, t, fd) + [e.call.count]
        && Got(v, ss, es, i, j, t, fd) == Got(v, ss, es, i, j - 1, t, fd) + Syscall(v, s, e.frame, e.call).data
      else
        Asked(ss, es, i, j, t, fd) == Asked(ss, es, i, j - 1, t, fd)
            && Got(v, ss, es, i, j, t, fd) == Got(v, ss, es, i, j - 1, t, fd)
  {
    hide Syscall, Enabled, Next, Run, StepAt;
  }

  lemma ReadOnce(v: Ext2.Volume, inode: Ext2.Inode, before: seq<u32>, count: u32)
    requires v.Valid()
    ensures var c := Ext2.ReadAll(v, inode, before);
      var data := v.Pread(inode, c.offset, count);
      Ext2.ReadAll(v, inode, before + [count]) == Ext2.Cursor(Wrap(c.offset + |data|), c.data + data)
  {
    assert (before + [count])[..|before|] == before;
  }

  /** The descriptor is as after exactly the reads its task made during events i..j. */
  ghost predicate Through(v: Ext2.Volume, ss: seq<State>, es: seq<Event>, i: nat, j: nat, t: nat, fd: nat, n: nat)
    requires Run(v, ss, es) && i <= j <= |es| && n < POOL
  {
    && Refers(ss[j], t, fd, n) && ss[j].nodes[n].inode == ss[i].nodes[n].inode
    && Ext2.ReadAll(v, v.InodeAt(ss[i].nodes[n].inode), Asked(ss, es, i, j, t, fd))
       == Ext2.Cursor(ss[j].tasks[t].files[fd].offset, Got(v, ss, es, i, j, t, fd))
  }

  lemma ThroughStep(v: Ext2.Volume, ss: seq<State>, es: seq<Event>, i: nat, j: nat, t: nat, fd: nat, n: nat)
    requires Run(v, ss, es) && i < j <= |es| && n < POOL && Through(v, ss, es, i, j - 1, t, fd, n)
    requires Paired(ss[j - 1]) && !IsClose(ss[j - 1], es[j - 1], t, fd)
    ensures Through(v, ss, es, i, j, t, fd, n)
  {
    hide Paired, Next, Syscall, IsClose, Asked, Got, Ext2.ReadAll, State.Valid, StepAt, Enabled;
    hide Ext2.Volume.InodeAt, Ext2.Volume.Pread, Wrap;
    RunStep(v, ss, es, j - 1);
    CursorStep(v, ss[j - 1], es[j - 1], t, fd, n);
    AskedStep(v, ss, es, i, j, t, fd);
    if IsRead(ss[j - 1], es[j - 1], t, fd) {
      ReadOnce(v, v.InodeAt(ss[i].nodes[n].inode), Asked(ss, es, i, j - 1, t, fd), es[j - 1].call.count);
    }
  }

  /** Whatever other tasks and events come in between: a descriptor that was at offset 0 and is not
      closed has been through exactly the reads its task made. */
  lemma {:induction false} ReadsThrough(v: Ext2.Volume, ss: seq<State>, es: seq<Event>, i: nat, j: nat, t: nat,
      fd: nat, n: nat)
    requires Run(v, ss, es) && i <= j <= |es| && Paired(ss[0]) && NoClose(ss, es, i, j, t, fd)
    requires Refers(ss[i], t, fd, n) && n < POOL && ss[i].tasks[t].files[fd].offset == 0
    ensures Through(v, ss, es, i, j, t, fd, n)
    decreases j
  {
    hide Through, Paired, Run, IsClose;
    if i == j {
      ThroughStart(v, ss, es, i, t, fd, n);
    } else {
      ReadsThrough(v, ss, es, i, j - 1, t, fd, n);
      AlwaysPaired(v, ss, es, j - 1);
      ThroughStep(v, ss, es, i, j, t, fd, n);
    }
  }

  lemma ThroughStart(v: Ext2.Volume, ss: seq<State>, es: seq<Event>, i: nat, t: nat, fd: nat, n: nat)
    requires Run(v, ss, es) && i <= |es| && Refers(ss[i], t, fd, n) && n < POOL && ss[i].tasks[t].files[fd].offset == 0
    ensures Through(v, ss, es, i, i, t, fd, n)
  {
  }

  /** SYS_READs of a freshly opened descriptor return the first bytes of the file, as many as were
      asked for and it has, and the offset is their number; unless, and only unless, a count takes
      the position past 2^32 while the file still has bytes. */
  lemma SequentialReads(v: Ext2.Volume, ss: seq<State>, es: seq<Event>, i: nat, j: nat, t: nat, fd: nat, n: nat)
    requires Run(v, ss, es) && i <= j <= |es| && Paired(ss[0]) && NoClose(ss, es, i, j, t, fd)
    requires Refers(ss[i], t, fd, n) && n < POOL && ss[i].tasks[t].files[fd].offset == 0
    ensures Refers(ss[j], t, fd, n)
    ensures var inode, counts, got := v.InodeAt(ss[i].nodes[n].inode), Asked(ss, es, i, j, t, fd),
        Got(v, ss, es, i, j, t, fd);
      && ss[j].tasks[t].files[fd].offset == |got|
      && (got == Ext2.Slice(v.Contents(inode), 0, Ext2.Sum(counts)) <==> Ext2.NoWrap(v, inode, counts))
  {
    ReadsThrough(v, ss, es, i, j, t, fd, n);
    Ext2.ReadsCompose(v, v.InodeAt(ss[i].nodes[n].inode), Asked(ss, es, i, j, t, fd));
  }

  /** From an OPEN that finds inode `ino` on: what the task reads through the descriptor it got is that
      file, from its beginning. */
  lemma OpenThenRead(v: Ext2.Volume, ss: seq<State>, es: seq<Event>, i: nat, j: nat)
    requires Run(v, ss, es) && i < j <= |es| && Paired(ss[0]) && es[i].Sys? && es[i].call.Open?
    requires Enabled(v, ss[i], es[i])
    requires var fd := Syscall(v, ss[i], es[i].frame, es[i].call).ret;
      fd >= 0 && NoClose(ss, es, i + 1, j, ss[i].cur, fd)
    ensures var t, fd := ss[i].cur, Syscall(v, ss[i], es[i].frame, es[i].call).ret;
      && t < |ss[j].tasks| && 3 <= fd < 8
      && var inode, counts := v.InodeAt(es[i].call.ino), Asked(ss, es, i + 1, j, t, fd);
      var got := Got(v, ss, es, i + 1, j, t, fd);
      && ss[j].tasks[t].files[fd].used && ss[j].tasks[t].files[fd].offset == |got|
      && (got == Ext2.Slice(v.Contents(inode), 0, Ext2.Sum(counts)) <==> Ext2.NoWrap(v, inode, counts))
  {
    RunStep(v, ss, es, i);
    var s, call := ss[i], es[i].call;
    OpenedNode(s, call.path, call.ino, call.length);
    var r := DoOpen(s, call.path, call.ino, call.length);
    assert ss[i + 1] == r.state;
    var n :| 0 <= n < POOL && OpenOn(s, r.state, r.ret, n, call.ino, call.length);
    assert Refers(ss[i + 1], s.cur, r.ret, n) && ss[i + 1].nodes[n].inode == call.ino;
    hide Run, Paired, Next, Enabled, DoOpen, OpenOn, NoClose;
    SequentialReads(v, ss, es, i + 1, j, s.cur, r.ret, n);
  }
}
