/** mm/vmm.c and the parts of mm/paging.h it uses: mapping and unmapping pages of the kernel
    directory, seen as updates of a partial map and through a translation cache. */
module Vmm {
  import opened Bits
  import opened Memory
  import opened Machines
  import opened Processor
  import Paging
  import Pmm

  // ----- address spaces as partial maps -----

  /** The address space of directory d: the pages that translate, and to what. */
  ghost function Space(m: Ram, d: nat): (s: map<nat, Leaf>)
    requires d < |m|
  {
    map v | 0 <= v < PAGES && Walk(m, d, v).Some? :: Walk(m, d, v).value
  }

  /** What unmapping page v does to memory. */
  function Unmapped(m: Ram, d: nat, v: nat): Ram
    requires d < |m| && v < PAGES
    requires Present(m[d][v / 1024]) ==> FrameOf(m[d][v / 1024]) < |m|
  {
    if !Present(m[d][v / 1024]) then m
    else Store(m, FrameOf(m[d][v / 1024]), v % 1024, 0)
  }

  /** Mapping is insertion into the partial map (removal, if the entry is not present). */
  lemma MapIsInsert(m: Ram, own: Owners, k: nat, v: nat, e: u32, f: nat, flags: nat)
    requires CanMap(m, own, k, k, v, f, flags)
    ensures var leaf := Combine(SlotFor(m, k, v, f, flags), e);
      Space(Mapped(m, k, v, e, f, flags), k)
      == if leaf.Some? then Space(m, k)[v := leaf.value] else Space(m, k) - {v}
  {
    var m' := Mapped(m, k, v, e, f, flags);
    forall v' | 0 <= v' < PAGES
      ensures Walk(m', k, v') == if v' == v then Combine(SlotFor(m, k, v, f, flags), e) else Walk(m, k, v')
    {
      KernelPrivate(m, own, k, v / 1024);
      MapPrivate(m, own, k, k, v, e, f, flags, k, v');
    }
    SpaceUpdate(m, m', k, v, Combine(SlotFor(m, k, v, f, flags), e));
  }

  lemma SpaceUpdate(m: Ram, m': Ram, d: nat, v: nat, leaf: Option<Leaf>)
    requires d < |m| && d < |m'| && v < PAGES
    requires forall v' :: 0 <= v' < PAGES ==> Walk(m', d, v') == if v' == v then leaf else Walk(m, d, v')
    ensures Space(m', d) == if leaf.Some? then Space(m, d)[v := leaf.value] else Space(m, d) - {v}
  {
  }

  /** Translations after an unmap: page v of the kernel directory is gone, with the pages of
      other directories that go through the same kernel table; nothing else changes. */
  lemma UnmapWalk(m: Ram, own: Owners, k: nat, v: nat, d: nat, v': nat)
    requires Owned(m, own, k) && v < PAGES && IsDirectory(own, d) && v' < PAGES
    requires Private(m, own, k, v / 1024)
    ensures Present(m[k][v / 1024]) ==> FrameOf(m[k][v / 1024]) < |m|
    ensures Walk(Unmapped(m, k, v), d, v')
            == if TableOf(m, k, v / 1024).Some? && TableOf(m, d, v' / 1024) == TableOf(m, k, v / 1024)
                && v' % 1024 == v % 1024
               then None else Walk(m, d, v')
  {
    assert SlotOk(m, own, k, k, v / 1024);
    if Present(m[k][v / 1024]) {
      StoreWalk(m, own, k, FrameOf(m[k][v / 1024]), v % 1024, 0, d, v');
    }
  }

  lemma UnmapIsRemove(m: Ram, own: Owners, k: nat, v: nat)
    requires Owned(m, own, k) && v < PAGES
    ensures Present(m[k][v / 1024]) ==> FrameOf(m[k][v / 1024]) < |m|
    ensures Owned(Unmapped(m, k, v), own, k)
    ensures Space(Unmapped(m, k, v), k) == Space(m, k) - {v}
  {
    KernelPrivate(m, own, k, v / 1024);
    assert SlotOk(m, own, k, k, v / 1024);
    var m' := Unmapped(m, k, v);
    if Present(m[k][v / 1024]) {
      StoreKeeps(m, own, k, FrameOf(m[k][v / 1024]), v % 1024, 0);
    }
    forall v' | 0 <= v' < PAGES
      ensures Walk(m', k, v') == if v' == v then None else Walk(m, k, v')
    {
      UnmapWalk(m, own, k, v, k, v');
      SlotsDistinct(m, own, k, v / 1024, v' / 1024);
      SamePage(v, v');
    }
    SpaceUpdate(m, m', k, v, None);
  }

  lemma KernelPrivate(m: Ram, own: Owners, k: nat, i: nat)
    requires Owned(m, own, k) && i < 1024
    ensures Private(m, own, k, i)
  {
    assert SlotOk(m, own, k, k, i);
  }

  /** Two slots of the kernel directory never share a table. */
  lemma SlotsDistinct(m: Ram, own: Owners, k: nat, i: nat, j: nat)
    requires Owned(m, own, k) && i < 1024 && j < 1024
    ensures TableOf(m, k, i).Some? && TableOf(m, k, i) == TableOf(m, k, j) ==> i == j
  {
    assert SlotOk(m, own, k, k, i);
    assert SlotOk(m, own, k, k, j);
  }

  /** Mapping a page that was not mapped and unmapping it again restores every translation,
      in every directory. */
  lemma MapThenUnmap(m: Ram, own: Owners, k: nat, v: nat, e: u32, f: nat, flags: nat, d: nat, v': nat)
    requires CanMap(m, own, k, k, v, f, flags)
    requires Walk(m, k, v) == None
    requires IsDirectory(own, d) && v' < PAGES
    ensures var m1 := Mapped(m, k, v, e, f, flags);
      && (Present(m1[k][v / 1024]) ==> FrameOf(m1[k][v / 1024]) < |m1|)
      && Walk(Unmapped(m1, k, v), d, v') == Walk(m, d, v')
  {
    var m1, own1 := Mapped(m, k, v, e, f, flags), MappedOwners(m, own, k, v, f);
    MapKeeps(m, own, k, k, v, e, f, flags);
    KernelPrivate(m, own, k, v / 1024);
    MapPrivate(m, own, k, k, v, e, f, flags, d, v');
    KernelPrivate(m1, own1, k, v / 1024);
    UnmapWalk(m1, own1, k, v, d, v');
    assert SlotOk(m, own, k, d, v' / 1024);
    assert SlotOk(m, own, k, k, v / 1024);
    SamePage(v, v');
  }

  // ----- the translation cache -----

  /** What the cache may hold after stores that took the tables from `before` to `after` and an invlpg
      of page v, with directory d in CR3: walks of either, but none for v. (Hanging an empty page table
      changes no translation, so the state between the stores gives nothing else.) */
  ghost predicate LeftAfter(tlb: map<nat, Leaf>, before: Ram, after: Ram, d: nat, v: nat)
    requires d < |before| && d < |after|
  {
    forall p :: p in tlb ==> p != v && Filled(before, after, d, p, tlb[p])
  }

  /** However it was filled, the cache agrees with the tables. */
  ghost predicate Coherent(before: Ram, after: Ram, d: nat, v: nat)
    requires d < |before| && d < |after|
  {
    forall tlb: map<nat, Leaf> :: LeftAfter(tlb, before, after, d, v) ==> CacheAgrees(tlb, after, d)
  }

  /** Page p, other than v, translates and goes on translating to the same. */
  ghost predicate Stays(before: Ram, after: Ram, d: nat, v: nat, p: nat)
    requires d < |before| && d < |after| && p < PAGES
  {
    p != v && Walk(before, d, p).Some? ==> Walk(after, d, p) == Walk(before, d, p)
  }

  lemma CoherentIffStays(before: Ram, after: Ram, d: nat, v: nat)
    requires d < |before| && d < |after|
    ensures Coherent(before, after, d, v) <==> forall p :: 0 <= p < PAGES ==> Stays(before, after, d, v, p)
  {
    if Coherent(before, after, d, v) {
      forall p | 0 <= p < PAGES
        ensures Stays(before, after, d, v, p)
      {
        if p != v && Walk(before, d, p).Some? {
          assert LeftAfter(map[p := Walk(before, d, p).value], before, after, d, v);
        }
      }
    }
    if forall p :: 0 <= p < PAGES ==> Stays(before, after, d, v, p) {
      forall tlb: map<nat, Leaf> | LeftAfter(tlb, before, after, d, v)
        ensures CacheAgrees(tlb, after, d)
      {
        forall p | p in tlb
          ensures p < PAGES && Walk(after, d, p) == Some(tlb[p])
        {
          assert Filled(before, after, d, p, tlb[p]) && Stays(before, after, d, v, p);
        }
      }
    }
  }

  /** No slot of directory d but that of page v gives a translation through entry v % 1024 of table t. */
  ghost predicate NoAlias(m: Ram, d: nat, v: nat, t: nat)
    requires d < |m| && v < PAGES
  {
    forall i :: 0 <= i < 1024 && i != v / 1024 ==> NoAliasAt(m, d, v, t, i)
  }

  ghost predicate NoAliasAt(m: Ram, d: nat, v: nat, t: nat, i: nat)
    requires d < |m| && v < PAGES && i < 1024
  {
    TableOf(m, d, i) == Some(t) ==> Walk(m, d, PageAt(i, v)) == None
  }

  /** The page of slot i with the index of page v. */
  function PageAt(i: nat, v: nat): (p: nat)
    requires i < 1024
    ensures p < PAGES && p / 1024 == i && p % 1024 == v % 1024
  {
    i * 1024 + v % 1024
  }

  /** With directory d in CR3 the cache agrees with the tables after vmm_map_page, whatever it enters,
      exactly when page v has no alias in d. */
  lemma CacheAfterMap(m: Ram, own: Owners, k: nat, d: nat, v: nat, f: nat, flags: nat)
    requires CanMap(m, own, k, k, v, f, flags) && IsDirectory(own, d)
    ensures (forall e: u32 :: Coherent(m, Mapped(m, k, v, e, f, flags), d, v)) <==>
        NoAlias(m, d, v, TableFor(m, k, v, f))
  {
    var t := TableFor(m, k, v, f);
    if NoAlias(m, d, v, t) {
      forall e: u32
        ensures Coherent(m, Mapped(m, k, v, e, f, flags), d, v)
      {
        CoherentAfterMap(m, own, k, d, v, e, f, flags);
      }
    } else {
      var i :| 0 <= i < 1024 && i != v / 1024 && !NoAliasAt(m, d, v, t, i);
      var m' := Mapped(m, k, v, 0, f, flags);
      SamePage(v, PageAt(i, v));
      MapWalk(m, own, k, k, v, 0, f, flags, d, PageAt(i, v));
      CoherentIffStays(m, m', d, v);
      assert !Stays(m, m', d, v, PageAt(i, v));
    }
  }

  lemma CoherentAfterMap(m: Ram, own: Owners, k: nat, d: nat, v: nat, e: u32, f: nat, flags: nat)
    requires CanMap(m, own, k, k, v, f, flags) && IsDirectory(own, d)
    requires NoAlias(m, d, v, TableFor(m, k, v, f))
    ensures Coherent(m, Mapped(m, k, v, e, f, flags), d, v)
  {
    var m' := Mapped(m, k, v, e, f, flags);
    CoherentIffStays(m, m', d, v);
    forall p | 0 <= p < PAGES
      ensures Stays(m, m', d, v, p)
    {
      MapWalk(m, own, k, k, v, e, f, flags, d, p);
      SamePage(v, p);
      if p / 1024 != v / 1024 {
        assert NoAliasAt(m, d, v, TableFor(m, k, v, f), p / 1024);
        SamePage(p, PageAt(p / 1024, v));
      }
    }
  }

  /** The table of page v in the kernel directory, if it has one, gives no alias in d. */
  ghost predicate NoAliasMapped(m: Ram, k: nat, d: nat, v: nat)
    requires k < |m| && d < |m| && v < PAGES
  {
    Present(m[k][v / 1024]) ==> NoAlias(m, d, v, FrameOf(m[k][v / 1024]))
  }

  /** The same for vmm_unmap_page. */
  lemma CacheAfterUnmap(m: Ram, own: Owners, k: nat, d: nat, v: nat)
    requires Owned(m, own, k) && v < PAGES && IsDirectory(own, d)
    ensures Present(m[k][v / 1024]) ==> FrameOf(m[k][v / 1024]) < |m|
    ensures Coherent(m, Unmapped(m, k, v), d, v) <==> NoAliasMapped(m, k, d, v)
  {
    KernelPrivate(m, own, k, v / 1024);
    assert SlotOk(m, own, k, k, v / 1024);
    var m' := Unmapped(m, k, v);
    CoherentIffStays(m, m', d, v);
    if NoAliasMapped(m, k, d, v) {
      forall p | 0 <= p < PAGES
        ensures Stays(m, m', d, v, p)
      {
        UnmapWalk(m, own, k, v, d, p);
        SamePage(v, p);
        if Present(m[k][v / 1024]) && p / 1024 != v / 1024 {
          assert NoAliasAt(m, d, v, FrameOf(m[k][v / 1024]), p / 1024);
          SamePage(p, PageAt(p / 1024, v));
        }
      }
    } else {
      var i :| 0 <= i < 1024 && i != v / 1024 && !NoAliasAt(m, d, v, FrameOf(m[k][v / 1024]), i);
      SamePage(v, PageAt(i, v));
      UnmapWalk(m, own, k, v, d, PageAt(i, v));
      assert !Stays(m, m', d, v, PageAt(i, v));
    }
  }

  /** A directory that uses the kernel's tables only where the kernel directory does has no aliases. */
  lemma StraightNoAlias(m: Ram, own: Owners, k: nat, d: nat, v: nat, f: nat)
    requires Owned(m, own, k) && IsDirectory(own, d) && Straight(m, own, k, d) && v < PAGES
    requires !Present(m[k][v / 1024]) ==> f !in own
    ensures NoAlias(m, d, v, TableFor(m, k, v, f)) && NoAliasMapped(m, k, d, v)
  {
    assert SlotOk(m, own, k, k, v / 1024);
    forall i | 0 <= i < 1024 && i != v / 1024
      ensures NoAliasAt(m, d, v, TableFor(m, k, v, f), i)
    {
      assert SlotOk(m, own, k, d, i) && StraightAt(m, own, k, d, i);
    }
  }

  lemma KernelStraight(m: Ram, own: Owners, k: nat)
    requires Owned(m, own, k)
    ensures Straight(m, own, k, k)
  {
    forall i | 0 <= i < 1024
      ensures StraightAt(m, own, k, k, i)
    {
      assert SlotOk(m, own, k, k, i);
    }
  }

  /** With the kernel's own directory in CR3, or any other that is straight, both calls leave the cache
      coherent. */
  lemma CacheWhenStraight(m: Ram, own: Owners, k: nat, d: nat, v: nat, e: u32, f: nat, flags: nat)
    requires CanMap(m, own, k, k, v, f, flags) && IsDirectory(own, d) && (d == k || Straight(m, own, k, d))
    ensures Coherent(m, Mapped(m, k, v, e, f, flags), d, v) && Coherent(m, Unmapped(m, k, v), d, v)
  {
    KernelStraight(m, own, k);
    StraightNoAlias(m, own, k, d, v, f);
    CoherentAfterMap(m, own, k, d, v, e, f, flags);
    CacheAfterUnmap(m, own, k, d, v);
  }

  /** With the directory of a built-in task in CR3, set up at boot, the cache stays coherent exactly for
      pages from 16 MB on: below that every page has a second translation at KERNEL_VIRTUAL. */
  lemma CacheOfBuiltInTask(m: Ram, own: Owners, t: Paging.Task, v: nat, f: nat, flags: nat)
    requires |m| == FRAMES && t.Valid() && Paging.KernelTables(m) && Paging.TaskTables(m, t)
    requires CanMap(m, own, KERNEL_PD, KERNEL_PD, v, f, flags) && IsDirectory(own, t.pd)
    ensures (forall e: u32 :: Coherent(m, Mapped(m, KERNEL_PD, v, e, f, flags), t.pd, v)) <==> v >= IDENTITY
    ensures Coherent(m, Unmapped(m, KERNEL_PD, v), t.pd, v) <==> v >= IDENTITY
  {
    hide Paging.KernelTables, Paging.TaskTables, Coherent, NoAlias, NoAliasMapped, Mapped;
    CacheAfterMap(m, own, KERNEL_PD, t.pd, v, f, flags);
    CacheAfterUnmap(m, own, KERNEL_PD, t.pd, v);
    if v < IDENTITY {
      HighAlias(m, t, v, f);
    } else {
      KernelSlotEmpty(m, v);
      NoHighAlias(m, own, t, v, f);
    }
  }

  lemma KernelSlotEmpty(m: Ram, v: nat)
    requires |m| == FRAMES && Paging.KernelTables(m) && IDENTITY <= v < PAGES
    ensures !Present(m[KERNEL_PD][v / 1024])
  {
    assert m[KERNEL_PD][v / 1024] == 0;
  }

  lemma NoHighAlias(m: Ram, own: Owners, t: Paging.Task, v: nat, f: nat)
    requires |m| == FRAMES && t.Valid() && Paging.KernelTables(m) && Owned(m, own, KERNEL_PD)
    requires IsDirectory(own, t.pd) && IDENTITY <= v < PAGES && f !in own
    ensures NoAlias(m, t.pd, v, TableFor(m, KERNEL_PD, v, f)) && NoAliasMapped(m, KERNEL_PD, t.pd, v)
  {
    KernelSlotEmpty(m, v);
    hide Paging.KernelTables;
    forall i | 0 <= i < 1024
      ensures NoAliasAt(m, t.pd, v, f, i)
    {
      assert SlotOk(m, own, KERNEL_PD, t.pd, i);
    }
  }

  lemma HighAlias(m: Ram, t: Paging.Task, v: nat, f: nat)
    requires |m| == FRAMES && t.Valid() && Paging.KernelTables(m) && Paging.TaskTables(m, t) && v < IDENTITY
    ensures Walk(m, t.pd, HighPage(v)) == Some(Leaf(v, true, false))
    ensures !NoAlias(m, t.pd, v, TableFor(m, KERNEL_PD, v, f)) && !NoAliasMapped(m, KERNEL_PD, t.pd, v)
  {
    var i := v / 1024;
    var j := Paging.HIGH_SLOT + i;
    assert HighPage(v) / 1024 == j && HighPage(v) % 1024 == v % 1024;
    SamePage(HighPage(v), PageAt(j, v));
    Paging.HighWalk(m, t, HighPage(v));
    EntryFields(Paging.KERNEL_PT + i, ALL);
    EntryFields(Paging.KERNEL_PT + i, PRESENT + WRITE);
    assert m[t.pd][j] == t.DirectoryWord(m, j) && m[KERNEL_PD][i] == Entry(Paging.KERNEL_PT + i, ALL);
    assert !NoAliasAt(m, t.pd, v, Paging.KERNEL_PT + i, j);
  }

  /** The page at KERNEL_VIRTUAL that shows frame v. */
  function HighPage(v: nat): nat {
    v + Paging.HIGH_SLOT * 1024
  }

  /** A stale translation: with a built-in task's directory in CR3, page v below 16 MB is mapped to
      another frame; the cached translation of its alias, from before, is kept and wrong. */
  lemma StaleAlias(m: Ram, own: Owners, t: Paging.Task, v: nat, e: u32, f: nat, flags: nat)
    requires |m| == FRAMES && t.Valid() && Paging.KernelTables(m) && Paging.TaskTables(m, t)
    requires CanMap(m, own, KERNEL_PD, KERNEL_PD, v, f, flags) && IsDirectory(own, t.pd)
    requires v < IDENTITY && Present(e) && FrameOf(e) != v
    ensures var m', tlb := Mapped(m, KERNEL_PD, v, e, f, flags), map[HighPage(v) := Leaf(v, true, false)];
      LeftAfter(tlb, m, m', t.pd, v) && !CacheAgrees(tlb, m', t.pd)
  {
    HighAlias(m, t, v, f);
    var i := v / 1024;
    EntryFields(Paging.KERNEL_PT + i, ALL);
    EntryFields(Paging.KERNEL_PT + i, PRESENT + WRITE);
    assert HighPage(v) / 1024 == Paging.HIGH_SLOT + i && HighPage(v) % 1024 == v % 1024;
    assert m[t.pd][Paging.HIGH_SLOT + i] == t.DirectoryWord(m, Paging.HIGH_SLOT + i);
    assert m[KERNEL_PD][i] == Entry(Paging.KERNEL_PT + i, ALL);
    MapWalk(m, own, KERNEL_PD, KERNEL_PD, v, e, f, flags, t.pd, HighPage(v));
  }

  // ----- the code -----

  /** The entry for an aligned address and flags below the page size has that frame and those flags. */
  lemma EntryFor(phys: u32, flags: u32)
    requires phys % PAGE == 0 && flags < PAGE
    ensures FrameOf(Or(phys, flags)) == phys / PAGE && Or(phys, flags) % PAGE == flags
  {
    OrAligned(phys, flags);
  }

  /** The directory that CR3 holds. */
  ghost function InUse(cpu: Cpu): nat
    reads cpu`cr3
  {
    cpu.cr3 / PAGE
  }

  /** vmm_map_page, with any directory in CR3. Translations cached at any point during the call agree
      with the tables afterwards, where the page has no alias. */
  method MapPage(mach: Machine, ghost cpu: Cpu, virt: u32, phys: u32, flags: u32) returns (ghost f: nat)
    requires mach.Valid() && IsDirectory(mach.own, InUse(cpu))
    requires Present(mach.ram[KERNEL_PD][virt / PAGE / 1024]) || LowFree(mach.pmm.State()) != {}
    requires CacheAgrees(mach.tlb, mach.ram[..], InUse(cpu))
    modifies mach.ram, mach.pmm`free, mach.pmm.bitmap, mach`own, mach`tlb
    ensures mach.Valid()
    ensures CanMap(old(mach.ram[..]), old(mach.own), KERNEL_PD, KERNEL_PD, virt / PAGE, f, PRESENT + WRITE)
    ensures mach.ram[..] == Mapped(old(mach.ram[..]), KERNEL_PD, virt / PAGE, Or(phys, flags), f, PRESENT + WRITE)
    ensures mach.own == MappedOwners(old(mach.ram[..]), old(mach.own), KERNEL_PD, virt / PAGE, f)
    ensures LeftAfter(mach.tlb, old(mach.ram[..]), mach.ram[..], InUse(cpu), virt / PAGE)
    ensures var m, v := old(mach.ram[..]), virt / PAGE;
      NoAlias(m, InUse(cpu), v, TableFor(m, KERNEL_PD, v, f)) ==> CacheAgrees(mach.tlb, mach.ram[..], InUse(cpu))
  {
    ghost var m, own, v, d := mach.ram[..], mach.own, virt / PAGE, InUse(cpu);
    PageIndex(virt);
    assert IsDirectory(own, KERNEL_PD) && d < FRAMES;
    hide Owned, CacheAgrees, Consistent, Filled, CanMap, MappedOwners, LowFree, Or, IsDirectory, NoAlias;
    var e := Or(phys, flags);
    f := mach.MapEntry(KERNEL_PD, virt, e, PRESENT + WRITE);
    ghost var m' := mach.ram[..];
    mach.Invlpg(m, d, v);
    assert mach.ram[..] == m';
    if NoAlias(m, d, v, TableFor(m, KERNEL_PD, v, f)) {
      CoherentAfterMap(m, own, KERNEL_PD, d, v, e, f, PRESENT + WRITE);
    }
  }

  lemma UnmapConsistent(m: Ram, own: Owners, s: Pmm.Frames, v: nat)
    requires Consistent(m, own, s) && v < PAGES
    ensures Present(m[KERNEL_PD][v / 1024]) ==> FrameOf(m[KERNEL_PD][v / 1024]) < FRAMES
    ensures Consistent(Unmapped(m, KERNEL_PD, v), own, s) && Owned(m, own, KERNEL_PD) && |m| == FRAMES
  {
    UnmapIsRemove(m, own, KERNEL_PD, v);
  }

  /** vmm_unmap_page, with any directory in CR3. Without the page table there is no invlpg, and nothing
      to drop. */
  method UnmapPage(mach: Machine, ghost cpu: Cpu, virt: u32)
    requires mach.Valid() && IsDirectory(mach.own, InUse(cpu))
    requires CacheAgrees(mach.tlb, mach.ram[..], InUse(cpu))
    modifies mach.ram, mach`tlb
    ensures mach.Valid() && mach.own == old(mach.own)
    ensures Present(old(mach.ram[..])[KERNEL_PD][virt / PAGE / 1024]) ==>
        FrameOf(old(mach.ram[..])[KERNEL_PD][virt / PAGE / 1024]) < FRAMES
    ensures mach.ram[..] == Unmapped(old(mach.ram[..]), KERNEL_PD, virt / PAGE)
    ensures if Present(old(mach.ram[..])[KERNEL_PD][virt / PAGE / 1024])
              then LeftAfter(mach.tlb, old(mach.ram[..]), mach.ram[..], InUse(cpu), virt / PAGE)
            else mach.tlb == old(mach.tlb)
    ensures NoAliasMapped(old(mach.ram[..]), KERNEL_PD, InUse(cpu), virt / PAGE) ==>
        CacheAgrees(mach.tlb, mach.ram[..], InUse(cpu))
  {
    ghost var m, own, v, d := mach.ram[..], mach.own, virt / PAGE, InUse(cpu);
    PageIndex(virt);
    UnmapConsistent(m, own, mach.pmm.State(), v);
    CacheAfterUnmap(m, own, KERNEL_PD, d, v);
    assert d < FRAMES;
    hide Owned, CacheAgrees, Filled, Consistent, NoAliasMapped;
    var pdIdx, ptIdx := virt / 0x40_0000, virt / 0x1000 % 0x400;
    if !Present(mach.ram[KERNEL_PD][pdIdx]) {
      return;
    }
    mach.StoreEntry(KERNEL_PD, pdIdx, ptIdx, 0);
    mach.Invlpg(m, d, v);
  }
}
