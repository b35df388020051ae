/** The memory side of the running kernel: physical frames, the allocator that hands them out,
    and the translation cache of the processor. */
module Machines {
  import opened Bits
  import opened Memory
  import opened Pmm

  const KERNEL_PD := 0x200  // frame of KERNEL_PD_ADDR

  /** Free frames the kernel can reach through its identity mapping. */
  ghost function LowFree(s: Frames): set<nat> {
    set f | f in s.Free() && f < IDENTITY
  }

  /** While a low frame is free the allocator hands out a low frame. */
  lemma AllocLow(s: Frames, out: Outcome, s': Frames)
    requires Step(s, Alloc, out, s') && LowFree(s) != {}
    ensures out.Given? && Took(s, s', {out.frame})
  {
    var g :| g in LowFree(s);
    assert out.frame <= g;
    FreeShrinks(s, out.frame);
    assert LowFree(s') == LowFree(s) - {out.frame};
  }

  /** `s'` is `s` with the frames `fs`, all low and free, taken. */
  ghost predicate Took(s: Frames, s': Frames, fs: set<nat>) {
    && s' == s.(used := s.used + fs)
    && fs <= LowFree(s)
    && |LowFree(s')| == |LowFree(s)| - |fs|
    && |s'.Free()| == |s.Free()| - |fs|
  }

  lemma TookMore(s0: Frames, s: Frames, fs: set<nat>, s': Frames, f: nat)
    requires Took(s0, s, fs) && Took(s, s', {f})
    ensures f !in fs && Took(s0, s', fs + {f})
    ensures |fs + {f}| == |fs| + 1
  {
    assert f in LowFree(s);
    assert f !in fs;
    assert s0.used + fs + {f} == s0.used + (fs + {f});
    assert f in LowFree(s0);
  }

  /** `virt >> 22` and `(virt >> 12) & 0x3FF` are the slot and the index of the page. */
  lemma PageIndex(virt: u32)
    ensures virt / 0x40_0000 == virt / PAGE / 1024
    ensures virt / 0x1000 % 0x400 == virt / PAGE % 1024
    ensures virt / PAGE < PAGES && virt / 0x40_0000 < 1024
  {
  }

  /** Every frame with an owner is marked in the bitmap and identity mapped; every page table
      reachable from a directory is owned by one slot. */
  ghost predicate Consistent(m: Ram, own: Owners, s: Frames) {
    && |m| == FRAMES && s.total <= FRAMES && ReservedUsed(s)
    && Owned(m, own, KERNEL_PD)
    && forall f :: f in own ==> f in s.used && f < IDENTITY
  }

  /** A frame the allocator hands out has no owner, and may be given one. */
  lemma TakeConsistent(m: Ram, own: Owners, s: Frames, s': Frames, f: nat, m': Ram, o: Owner)
    requires Consistent(m, own, s) && Took(s, s', {f})
    ensures f !in own && f < IDENTITY && Consistent(m, own, s')
    ensures Owned(m', own[f := o], KERNEL_PD) && |m'| == |m| ==> Consistent(m', own[f := o], s')
  {
    assert f in LowFree(s);
  }

  /** A byte buffer, and what lies before it in memory. */
  datatype Buffer = Buffer(before: array<u8>, bytes: array<u8>) {
    /** The byte at an offset, negative ones counting back from the start. */
    function At(off: int): u8
      requires -before.Length <= off < bytes.Length
      reads before, bytes
    {
      if off < 0 then before[before.Length + off] else bytes[off]
    }
  }

  class Machine {
    const ram: array<Page>
    const pmm: Allocator
    ghost var tlb: map<nat, Leaf>  // translations the processor has cached, by page number
    ghost var own: Owners          // what each frame in use is for

    ghost predicate Valid()
      reads `own, ram, pmm`total, pmm`free, pmm.bitmap
    {
      ram.Length == FRAMES && pmm.Valid() && Consistent(ram[..], own, pmm.State())
    }

    constructor (pmm: Allocator)
      ensures fresh(this) && fresh(ram) && ram.Length == FRAMES && this.pmm == pmm && own == map[] && tlb == map[]
    {
      ram := new Page[FRAMES](_ => ZeroPage());
      this.pmm := pmm;
      tlb, own := map[], map[];
    }

    /** Clear a page table word by word. */
    method ZeroWords(t: nat)
      requires ram.Length == FRAMES && t < FRAMES
      modifies ram
      ensures ram[..] == old(ram[..])[t := ZeroPage()]
    {
      var i := 0;
      while i < 1024
        invariant 0 <= i <= 1024
        invariant forall g :: 0 <= g < FRAMES && g != t ==> ram[g] == old(ram[g])
        invariant forall j :: 0 <= j < i ==> ram[t][j] == 0
      {
        ram[t] := ram[t][i := 0];
        i := i + 1;
      }
      assert ram[t] == ZeroPage();
    }

    /** Copy a directory word by word. */
    method CopyWords(f: nat, g: nat)
      requires ram.Length == FRAMES && f < FRAMES && g < FRAMES && f != g
      modifies ram
      ensures ram[..] == old(ram[..])[f := old(ram[..])[g]]
    {
      var i := 0;
      while i < 1024
        invariant 0 <= i <= 1024
        invariant forall h :: 0 <= h < FRAMES && h != f ==> ram[h] == old(ram[h])
        invariant forall j :: 0 <= j < i ==> ram[f][j] == ram[g][j]
      {
        ram[f] := ram[f][i := ram[g][i]];
        i := i + 1;
      }
      assert ram[f] == ram[g];
    }

    /** Clear a frame byte by byte (memzero, and step a of the page loop). */
    method ZeroBytes(f: nat)
      requires ram.Length == FRAMES && f < FRAMES
      modifies ram
      ensures ram[f] == ZeroPage()
      ensures forall g :: 0 <= g < FRAMES && g != f ==> ram[g] == old(ram[g])
    {
      var j := 0;
      while j < PAGE
        invariant 0 <= j <= PAGE
        invariant forall g :: 0 <= g < FRAMES && g != f ==> ram[g] == old(ram[g])
        invariant forall k :: 0 <= k < j ==> GetByte(ram[f], k) == 0
      {
        ghost var p := ram[f];
        ram[f] := SetByte(ram[f], j, 0);
        forall k | 0 <= k <= j
          ensures GetByte(ram[f], k) == 0
        {
          GetAfterSetByte(p, j, 0, k);
        }
        j := j + 1;
      }
      Memory.ZeroBytes();
      SameBytes(ram[f], ZeroPage());
    }

    /** Copy bytes from a buffer to the start of a frame. The offset may lie before the buffer. */
    method CopyBytes(f: nat, src: Buffer, off: int, bytes: nat)
      requires ram.Length == FRAMES && f < FRAMES && bytes <= PAGE
      requires -src.before.Length <= off && off + bytes <= src.bytes.Length
      modifies ram
      ensures forall g :: 0 <= g < FRAMES && g != f ==> ram[g] == old(ram[g])
      ensures forall k :: 0 <= k < PAGE ==>
                GetByte(ram[f], k) == if k < bytes then src.At(off + k) else GetByte(old(ram[f]), k)
    {
      var j := 0;
      while j < bytes
        invariant 0 <= j <= bytes
        invariant forall g :: 0 <= g < FRAMES && g != f ==> ram[g] == old(ram[g])
        invariant forall k :: 0 <= k < PAGE ==>
                    GetByte(ram[f], k) == if k < j then src.At(off + k) else GetByte(old(ram[f]), k)
      {
        ghost var p := ram[f];
        ram[f] := SetByte(ram[f], j, src.At(off + j));
        forall k | 0 <= k < PAGE
          ensures GetByte(ram[f], k) == if k < j + 1 then src.At(off + k) else GetByte(old(ram[f]), k)
        {
          GetAfterSetByte(p, j, src.At(off + j), k);
        }
        j := j + 1;
      }
    }

    /** A call of pmm_alloc_page while a low frame is free. */
    method TakeFrame() returns (f: nat)
      requires Valid() && LowFree(pmm.State()) != {}
      modifies pmm`free, pmm.bitmap
      ensures Valid() && f !in own && f < IDENTITY
      ensures Took(old(pmm.State()), pmm.State(), {f})
    {
      ghost var s := pmm.State();
      var addr, out := pmm.AllocPage();
      AllocLow(s, out, pmm.State());
      f := addr / PAGE;
      assert f == out.frame;
      TakeConsistent(ram[..], own, s, pmm.State(), f, ram[..], Reserved);
    }

    /** Make sure slot i of directory d has a page table.
        f is the frame taken for it, if one was. */
    method EnsureTable(d: nat, i: nat, flags: nat) returns (ghost f: nat)
      requires Valid() && IsDirectory(own, d) && i < 1024 && flags < 8 && flags % 2 == 1
      requires Present(ram[d][i]) || LowFree(pmm.State()) != {}
      modifies ram, pmm`free, pmm.bitmap, `own
      ensures Valid()
      ensures if Present(old(ram[d])[i]) then own == old(own) && Took(old(pmm.State()), pmm.State(), {})
              else
                && f !in old(own) && f < FRAMES && own == old(own)[f := Table(d, i)]
                && Took(old(pmm.State()), pmm.State(), {f})
      ensures ram[..] == Linked(old(ram[..]), d, i, f, flags)
    {
      f := 0;
      if !Present(ram[d][i]) {
        ghost var m, own0, s := ram[..], own, pmm.State();
        var pt := TakeFrame();
        f := pt;
        own := own[pt := Table(d, i)];
        ZeroWords(pt);
        ram[d] := ram[d][i := Entry(pt, flags)];
        assert ram[..] == Link(m, d, i, pt, flags);
        LinkOwned(m, own0, KERNEL_PD, d, i, pt, flags);
        TakeConsistent(m, own0, s, pmm.State(), pt, ram[..], Table(d, i));
      }
    }

    /** The common body of vmm_map_page and proc_map_page: enter `e` for the page of `virt` in
        directory d, taking frame f for a page table if the slot has none. */
    method MapEntry(d: nat, virt: u32, e: u32, flags: nat) returns (ghost f: nat)
      requires Valid() && IsDirectory(own, d) && flags < 8 && flags % 2 == 1
      requires Present(ram[d][virt / PAGE / 1024]) || LowFree(pmm.State()) != {}
      modifies ram, pmm`free, pmm.bitmap, `own
      ensures Valid()
      ensures CanMap(old(ram[..]), old(own), KERNEL_PD, d, virt / PAGE, f, flags)
      ensures ram[..] == Mapped(old(ram[..]), d, virt / PAGE, e, f, flags)
      ensures own == MappedOwners(old(ram[..]), old(own), d, virt / PAGE, f)
      ensures Took(old(pmm.State()), pmm.State(), if Present(old(ram[..])[d][virt / PAGE / 1024]) then {} else {f})
    {
      PageIndex(virt);
      var pdIdx, ptIdx := virt / 0x40_0000, virt / 0x1000 % 0x400;
      ghost var m, own0, v := ram[..], own, virt / PAGE;
      assert SlotOk(m, own0, KERNEL_PD, d, pdIdx);
      f := EnsureTable(d, pdIdx, flags);
      assert FrameOf(ram[d][pdIdx]) == TableFor(m, d, v, f) by {
        if !Present(m[d][pdIdx]) {
          LinkWords(m, d, pdIdx, f, flags);
        }
      }
      StoreEntry(d, pdIdx, ptIdx, e);
      MapKeeps(m, own0, KERNEL_PD, d, v, e, f, flags);
    }

    /** Store entry j of the table that slot i of d refers to. */
    method StoreEntry(d: nat, i: nat, j: nat, e: u32)
      requires ram.Length == FRAMES && d < FRAMES && i < 1024 && j < 1024
      requires FrameOf(ram[d][i]) < FRAMES
      modifies ram
      ensures ram[..] == Store(old(ram[..]), FrameOf(old(ram[d])[i]), j, e)
    {
      var pt := FrameOf(ram[d][i]);
      ram[pt] := ram[pt][j := e];
    }

    /** `invlpg`, after stores that took the tables from `before` to their present content. Until
        then the processor may have cached any translation that either content gives. */
    ghost method Invlpg(before: Ram, d: nat, v: nat)
      requires ram.Length == FRAMES && |before| == FRAMES && d < FRAMES && CacheAgrees(tlb, before, d)
      modifies `tlb
      ensures forall p :: p in tlb ==> p != v && Filled(before, ram[..], d, p, tlb[p])
    {
      var early: set<nat>, late: set<nat> := *, *;
      tlb := tlb + (map p | p in early && 0 <= p < PAGES && Walk(before, d, p).Some? :: Walk(before, d, p).value)
             + (map p | p in late && 0 <= p < PAGES && Walk(ram[..], d, p).Some? :: Walk(ram[..], d, p).value)
             - {v};
    }
  }

  /** A walk of the tables, before or after an update, gives `leaf` for page p. */
  ghost predicate Filled(before: Ram, after: Ram, d: nat, p: nat, leaf: Leaf)
    requires d < |before| && d < |after|
  {
    p < PAGES && (Walk(before, d, p) == Some(leaf) || Walk(after, d, p) == Some(leaf))
  }

  /** The cache agrees with the tables: what it holds is what the walk gives. */
  ghost predicate CacheAgrees(tlb: map<nat, Leaf>, m: Ram, d: nat)
    requires d < |m|
  {
    forall v :: v in tlb ==> v < PAGES && Walk(m, d, v) == Some(tlb[v])
  }
}
