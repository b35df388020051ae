/** What a sequence of program loads leaves alone. */
module Isolation {
  import opened Memory
  import opened Machines
  import opened Bits
  import opened Elf
  import Pmm

  /** Memory, the purpose of its frames, and the allocator. */
  datatype Moment = Moment(ram: Ram, own: Owners, frames: Pmm.Frames)

  /** One completed load. */
  datatype Load = Load(file: seq<u8>, pd: nat, kstack: nat)

  ghost predicate Loads(ms: seq<Moment>, ls: seq<Load>) {
    && |ms| == |ls| + 1
    && (forall i :: 0 <= i < |ms| ==> Consistent(ms[i].ram, ms[i].own, ms[i].frames))
    && forall i :: 0 <= i < |ls| ==> LoadAt(ms, ls, i)
  }

  ghost predicate LoadAt(ms: seq<Moment>, ls: seq<Load>, i: nat)
    requires i < |ls| && |ms| == |ls| + 1
  {
    Loaded(ms[i], ms[i + 1], ls[i])
  }

  /** The step that the loader's contract describes. */
  ghost predicate Loaded(a: Moment, b: Moment, l: Load) {
    && TableInFile(l.file)
    && LoadedFrom(a.ram, a.own, a.frames, b.ram, b.own, b.frames, l.pd, l.kstack, l.file)
  }

  ghost predicate Preserved(a: Moment, b: Moment) {
    && AgreeOn(a.ram, b.ram, a.own.Keys)
    && forall f :: f in a.own ==> f in b.own && b.own[f] == a.own[f]
  }

  lemma LoadKeeps(a: Moment, b: Moment, l: Load)
    requires Loaded(a, b, l)
    ensures TableInFile(l.file)
    ensures Preserved(a, b) && IsDirectory(b.own, l.pd) && l.pd !in a.own
    ensures l.pd < |a.ram| == |b.ram| == FRAMES && OwnPages(b.ram, b.own, l.pd, a.ram[KERNEL_PD])
    ensures Sees(b.ram, l.pd, a.ram[KERNEL_PD], Image(Headers(l.file)), l.file)
    ensures FrameOwner(b.own, l.kstack, KernelStack) && l.kstack !in a.own
    ensures |b.frames.Free()| + Cost(Headers(l.file)) == |a.frames.Free()|
  {
    hide SeesPage, OwnPages, StraightAt, AgreeOn, Image, Cost, Pmm.Frames.Free, LowFree;
  }

  lemma SelfPreserved(a: Moment)
    ensures Preserved(a, a)
  {
  }

  lemma KeepsOn(a: Moment, b: Moment, c: Moment)
    requires Preserved(a, b) && Preserved(b, c)
    ensures Preserved(a, c)
  {
  }

  lemma LoadHere(ms: seq<Moment>, ls: seq<Load>, i: nat)
    requires Loads(ms, ls) && i < |ls|
    ensures |ms| == |ls| + 1 && Loaded(ms[i], ms[i + 1], ls[i])
  {
    hide Loaded, Consistent;
    assert LoadAt(ms, ls, i);
  }

  /** Whatever was in use keeps its contents and its purpose over any number of loads. */
  lemma {:induction false} InUsePreserved(ms: seq<Moment>, ls: seq<Load>, i: nat, j: nat)
    requires Loads(ms, ls) && i <= j <= |ls| < |ms|
    ensures Preserved(ms[i], ms[j])
    decreases j
  {
    hide *;
    SelfPreserved(ms[i]);
    if i < j {
      LoadHere(ms, ls, j - 1);
      LoadKeeps(ms[j - 1], ms[j], ls[j - 1]);
      InUsePreserved(ms, ls, i, j - 1);
      KeepsOn(ms[i], ms[j - 1], ms[j]);
    }
  }

  /** The state a load leaves is consistent, and its predecessor's kernel directory is the first. */
  lemma AtLoad(ms: seq<Moment>, ls: seq<Load>, i: nat)
    requires Loads(ms, ls) && i < |ls|
    ensures |ms| == |ls| + 1 && Loaded(ms[i], ms[i + 1], ls[i])
    ensures |ms[i].ram| == FRAMES == |ms[0].ram| && ms[i].ram[KERNEL_PD] == ms[0].ram[KERNEL_PD]
    ensures Owned(ms[i + 1].ram, ms[i + 1].own, KERNEL_PD) && |ms[i + 1].ram| == FRAMES
    ensures IsDirectory(ms[i + 1].own, KERNEL_PD)
  {
    assert LoadAt(ms, ls, i);
    hide Loaded;
    InUsePreserved(ms, ls, 0, i);
    assert Consistent(ms[0].ram, ms[0].own, ms[0].frames) && Consistent(ms[i + 1].ram, ms[i + 1].own, ms[i + 1].frames);
  }

  /** Every walk of the kernel directory and of every process directory that exists at one point
      gives the same translation at every later point. */
  lemma WalksPreserved(ms: seq<Moment>, ls: seq<Load>, i: nat, j: nat, d: nat, v: nat)
    requires Loads(ms, ls) && i <= j <= |ls| < |ms| && IsDirectory(ms[i].own, d) && v < PAGES
    ensures d < |ms[i].ram| && d < |ms[j].ram| && IsDirectory(ms[j].own, d)
    ensures Walk(ms[j].ram, d, v) == Walk(ms[i].ram, d, v)
  {
    InUsePreserved(ms, ls, i, j);
    assert Consistent(ms[i].ram, ms[i].own, ms[i].frames);
    hide Loaded;
    WalkFrame(ms[i].ram, ms[j].ram, ms[i].own, KERNEL_PD, d, v);
  }

  /** The pages a load gave to its process, in a later state. */
  ghost predicate SamePages(a: Moment, b: Moment, kd: Page, pd: nat)
    requires pd < |a.ram| && pd < |b.ram|
  {
    forall v :: 0 <= v < PAGES && UserSlot(kd, v) ==> SamePageAt(a, b, pd, v)
  }

  ghost predicate SamePageAt(a: Moment, b: Moment, pd: nat, v: nat)
    requires pd < |a.ram| && pd < |b.ram| && v < PAGES
  {
    var w := Walk(a.ram, pd, v);
    && Walk(b.ram, pd, v) == w
    && (w.Some? ==> w.value.frame < |a.ram| && w.value.frame < |b.ram|
                    && FrameOwner(b.own, w.value.frame, UserPage(pd))
                    && b.ram[w.value.frame] == a.ram[w.value.frame])
  }

  lemma PageKept(a: Moment, b: Moment, kd: Page, pd: nat, v: nat)
    requires Preserved(a, b) && OwnPages(a.ram, a.own, pd, kd) && Owned(a.ram, a.own, KERNEL_PD)
    requires pd < |b.ram| && v < PAGES && UserSlot(kd, v) && Walk(b.ram, pd, v) == Walk(a.ram, pd, v)
    ensures SamePageAt(a, b, pd, v)
  {
  }

  /** In every later state each page of process i is in the frame it was given, still owned by the
      process and with the contents it was loaded with. */
  lemma PagesKept(ms: seq<Moment>, ls: seq<Load>, i: nat, j: nat)
    requires Loads(ms, ls) && i < j <= |ls| < |ms|
    ensures ls[i].pd < |ms[i + 1].ram| == |ms[j].ram| == FRAMES && |ms[0].ram| == FRAMES
    ensures SamePages(ms[i + 1], ms[j], ms[0].ram[KERNEL_PD], ls[i].pd)
  {
    hide Loaded, Loads, OwnPages, Sees, Owned, Preserved;
    AtLoad(ms, ls, i);
    AtLoad(ms, ls, j - 1);
    var pd, kd := ls[i].pd, ms[0].ram[KERNEL_PD];
    LoadKeeps(ms[i], ms[i + 1], ls[i]);
    InUsePreserved(ms, ls, i + 1, j);
    hide SamePageAt, Preserved;
    forall v | 0 <= v < PAGES && UserSlot(kd, v)
      ensures SamePageAt(ms[i + 1], ms[j], pd, v)
    {
      WalksPreserved(ms, ls, i + 1, j, pd, v);
      PageKept(ms[i + 1], ms[j], kd, pd, v);
    }
  }

  /** After any later loads a process still sees exactly its program. */
  lemma StillSees(ms: seq<Moment>, ls: seq<Load>, i: nat, j: nat)
    requires Loads(ms, ls) && i < j <= |ls| < |ms|
    ensures TableInFile(ls[i].file) && |ms[0].ram| == FRAMES
    ensures Sees(ms[j].ram, ls[i].pd, ms[0].ram[KERNEL_PD], Image(Headers(ls[i].file)), ls[i].file)
  {
    hide Loaded, Loads, OwnPages, Owned, Preserved, Image, Layout;
    AtLoad(ms, ls, i);
    AtLoad(ms, ls, j - 1);
    LoadKeeps(ms[i], ms[i + 1], ls[i]);
    PagesKept(ms, ls, i, j);
    var kd, img, pd := ms[0].ram[KERNEL_PD], Image(Headers(ls[i].file)), ls[i].pd;
    forall v | 0 <= v < PAGES
      ensures SeesPage(ms[j].ram, pd, kd, img, ls[i].file, v)
    {
      assert SeesPage(ms[i + 1].ram, pd, kd, img, ls[i].file, v);
      WalksPreserved(ms, ls, i + 1, j, pd, v);
      WalksPreserved(ms, ls, i + 1, j, KERNEL_PD, v);
      assert UserSlot(kd, v) ==> SamePageAt(ms[i + 1], ms[j], pd, v);
    }
  }

  /** So each process goes on reading its program, after any later loads. */
  lemma StillReads(ms: seq<Moment>, ls: seq<Load>, i: nat, j: nat, k: nat, a: u32)
    requires Loads(ms, ls) && i < j <= |ls| < |ms|
    requires |ms[0].ram| == FRAMES && Loadable(ls[i].file, ms[0].ram[KERNEL_PD])
    requires TableInFile(ls[i].file) && LastAt(Headers(ls[i].file), k, a)
    ensures ls[i].pd < |ms[j].ram| && Headers(ls[i].file)[k].Fits(|ls[i].file|)
    ensures var file, ph := ls[i].file, Headers(ls[i].file)[k];
      ReadByte(ms[j].ram, ls[i].pd, a) == Some(if a < ph.FileEnd() then file[ph.offset + (a - ph.vaddr)] else 0)
  {
    StillSees(ms, ls, i, j);
    hide Loads, Image, Layout;
    ReadsSegment(ms[j].ram, ls[i].pd, ms[0].ram[KERNEL_PD], ls[i].file, k, a);
  }

  /** Distinct processes have distinct directories and kernel stacks, and no frame is a page of
      both. */
  lemma ProcessesDisjoint(ms: seq<Moment>, ls: seq<Load>, i: nat, k: nat, j: nat, v: nat, w: nat)
    requires Loads(ms, ls) && i < k < j <= |ls| < |ms| && v < PAGES && w < PAGES
    requires |ms[0].ram| == FRAMES && UserSlot(ms[0].ram[KERNEL_PD], v) && UserSlot(ms[0].ram[KERNEL_PD], w)
    ensures ls[i].pd != ls[k].pd && ls[i].kstack != ls[k].kstack
    ensures ls[i].pd < |ms[j].ram| && ls[k].pd < |ms[j].ram|
    ensures var a, b := Walk(ms[j].ram, ls[i].pd, v), Walk(ms[j].ram, ls[k].pd, w);
      a.Some? && b.Some? ==> a.value.frame != b.value.frame
  {
    hide Loaded, Loads, OwnPages, Sees, Owned;
    AtLoad(ms, ls, i);
    AtLoad(ms, ls, k);
    LoadKeeps(ms[i], ms[i + 1], ls[i]);
    LoadKeeps(ms[k], ms[k + 1], ls[k]);
    InUsePreserved(ms, ls, i + 1, k);
    PagesKept(ms, ls, i, j);
    PagesKept(ms, ls, k, j);
    assert SamePageAt(ms[i + 1], ms[j], ls[i].pd, v);
    assert SamePageAt(ms[k + 1], ms[j], ls[k].pd, w);
  }

  ghost function CostOf(l: Load): nat {
    if TableInFile(l.file) then Cost(Headers(l.file)) else 0
  }

  /** What the first n loads cost. */
  ghost function TotalCost(ls: seq<Load>, n: nat): nat
    requires n <= |ls|
  {
    if n == 0 then 0 else TotalCost(ls, n - 1) + CostOf(ls[n - 1])
  }

  /** Frames are conserved: what is free and what the programs cost is what was free. */
  lemma {:induction false} LoadsConserveFrames(ms: seq<Moment>, ls: seq<Load>, n: nat)
    requires Loads(ms, ls) && n <= |ls|
    ensures |ms[n].frames.Free()| + TotalCost(ls, n) == |ms[0].frames.Free()|
  {
    hide Loaded, Consistent, Preserved, Cost, TableInFile, Pmm.Frames.Free;
    if n > 0 {
      assert LoadAt(ms, ls, n - 1);
      LoadKeeps(ms[n - 1], ms[n], ls[n - 1]);
      LoadsConserveFrames(ms, ls, n - 1);
    }
  }
}
