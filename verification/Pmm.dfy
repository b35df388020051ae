/** mm/pmm.c: the physical page allocator. The bit-packed bitmap refines a set of used frames. */
module Pmm {
  import opened Bits

  const RESERVED_PAGES := 1024  // PMM_RESERVED / PMM_PAGE_SIZE

  // ----- the allocator as a value -----

  /** What the bitmap stands for: the managed frames are 0..total, `used` the ones taken. */
  datatype Frames = Frames(total: nat, used: set<nat>) {
    ghost predicate Valid() {
      total <= FRAMES
    }

    ghost function Free(): (s: set<nat>) {
      set f | 0 <= f < total && f !in used
    }
  }

  ghost predicate IsLeast(f: nat, s: set<nat>) {
    f in s && forall g :: g in s ==> f <= g
  }

  datatype Op = Alloc | Release(addr: u32)

  /** One call on the allocator: `r` is the frame handed out by an Alloc, or None. */
  datatype Outcome = Given(frame: nat) | Exhausted | Done

  ghost predicate Step(s: Frames, op: Op, out: Outcome, s': Frames) {
    match op
    case Alloc =>
      if s.Free() == {} then out == Exhausted && s' == s
      else out.Given? && IsLeast(out.frame, s.Free()) && s' == s.(used := s.used + {out.frame})
    case Release(addr) =>
      && out == Done
      && s' == if addr / PAGE < s.total then s.(used := s.used - {addr / PAGE}) else s
  }

  ghost predicate Run(ss: seq<Frames>, ops: seq<Op>, outs: seq<Outcome>) {
    && |ops| == |outs|
    && |ss| == |ops| + 1
    && forall i :: 0 <= i < |ops| ==> Step(ss[i], ops[i], outs[i], ss[i + 1])
  }

  /** The state `pmm_init` leaves: the reserved frames and everything past the end are used. */
  ghost predicate Booted(s: Frames) {
    && s.total <= FRAMES
    && forall f :: f in s.used <==> 0 <= f < FRAMES && !(RESERVED_PAGES <= f < s.total)
  }

  /** Between two grants of one frame there is a release of it. */
  lemma {:induction false} NoDoubleGrant(ss: seq<Frames>, ops: seq<Op>, outs: seq<Outcome>, i: nat, j: nat)
    requires Run(ss, ops, outs)
    requires i < j < |ops| && outs[i].Given? && outs[j].Given? && outs[i].frame == outs[j].frame
    ensures exists k :: i < k < j && ops[k].Release? && ops[k].addr / PAGE == outs[i].frame
  {
    var f := outs[i].frame;
    assert Step(ss[i], ops[i], outs[i], ss[i + 1]);
    assert Step(ss[j], ops[j], outs[j], ss[j + 1]);
    if forall k :: i < k < j && ops[k].Release? ==> ops[k].addr / PAGE != f {
      StaysUsed(ss, ops, outs, f, i + 1, j);
    }
  }

  lemma {:induction false} StaysUsed(ss: seq<Frames>, ops: seq<Op>, outs: seq<Outcome>, f: nat, i: nat, j: nat)
    requires Run(ss, ops, outs)
    requires i <= j <= |ops| && f in ss[i].used
    requires forall k :: i <= k < j && ops[k].Release? ==> ops[k].addr / PAGE != f
    ensures f in ss[j].used
    decreases j
  {
    if i < j {
      StaysUsed(ss, ops, outs, f, i, j - 1);
      assert Step(ss[j - 1], ops[j - 1], outs[j - 1], ss[j]);
    }
  }

  /** The address a caller gets: that of the frame, or 0 for a failure. */
  function Address(out: Outcome): nat {
    if out.Given? then out.frame * PAGE else 0
  }

  /** Address 0 is returned when no frame is free, and also when frame 0 is. */
  lemma ZeroReturned(s: Frames, out: Outcome, s': Frames)
    requires Step(s, Alloc, out, s')
    ensures Address(out) == 0 <==> s.Free() == {} || 0 in s.Free()
  {
    if s.Free() != {} {
      assert out.frame in s.Free();
    }
  }

  ghost predicate ReservedUsed(s: Frames) {
    forall f :: 0 <= f < RESERVED_PAGES ==> f in s.used
  }

  /** A call that would give a reserved frame back. */
  predicate ReleasesReserved(total: nat, op: Op) {
    op.Release? && op.addr / PAGE < RESERVED_PAGES && op.addr / PAGE < total
  }

  lemma {:induction false} TotalConstant(ss: seq<Frames>, ops: seq<Op>, outs: seq<Outcome>, i: nat)
    requires Run(ss, ops, outs) && i < |ss|
    ensures ss[i].total == ss[0].total
  {
    if i > 0 {
      TotalConstant(ss, ops, outs, i - 1);
      assert Step(ss[i - 1], ops[i - 1], outs[i - 1], ss[i]);
    }
  }

  /** mm/pmm.h says the first 4 MB are always marked used. They are, in every state of a run,
      exactly when no call releases one of them. */
  lemma {:induction false} ReservedKept(ss: seq<Frames>, ops: seq<Op>, outs: seq<Outcome>)
    requires Run(ss, ops, outs) && ReservedUsed(ss[0])
    ensures (forall i :: 0 <= i < |ss| ==> ReservedUsed(ss[i]))
            <==> (forall i :: 0 <= i < |ops| ==> !ReleasesReserved(ss[0].total, ops[i]))
  {
    if k :| 0 <= k < |ops| && ReleasesReserved(ss[0].total, ops[k]) {
      TotalConstant(ss, ops, outs, k);
      assert Step(ss[k], ops[k], outs[k], ss[k + 1]);
      assert ops[k].addr / PAGE !in ss[k + 1].used;
      assert !ReservedUsed(ss[k + 1]);
    } else {
      forall i, f | 0 <= i < |ss| && 0 <= f < RESERVED_PAGES
        ensures f in ss[i].used
      {
        if f < ss[0].total {
          StaysUsed(ss, ops, outs, f, 0, i);
        } else {
          BeyondStaysUsed(ss, ops, outs, f, i);
        }
      }
    }
  }

  /** While no call releases one of the first 4 MB, none of it is handed out, and address 0 means
      that no frame is free. */
  lemma ZeroMeansExhausted(ss: seq<Frames>, ops: seq<Op>, outs: seq<Outcome>, i: nat)
    requires Run(ss, ops, outs) && ReservedUsed(ss[0]) && i < |ops| && ops[i] == Alloc
    requires forall k :: 0 <= k < |ops| ==> !ReleasesReserved(ss[0].total, ops[k])
    ensures outs[i].Given? ==> outs[i].frame >= RESERVED_PAGES
    ensures Address(outs[i]) == 0 <==> ss[i].Free() == {}
  {
    ReservedKept(ss, ops, outs);
    assert Step(ss[i], ops[i], outs[i], ss[i + 1]);
    ZeroReturned(ss[i], outs[i], ss[i + 1]);
  }

  /** With the 32 MB that kmain gives the allocator: after a release of address 0, which a caller
      makes by giving back a failed allocation, frame 0 is free and is handed out next; its address
      reads as a failure while 7169 frames are free. */
  lemma FrameZeroFreed(s: Frames)
    requires Booted(s) && s.total == FRAMES
    ensures ReservedUsed(s)
    ensures var s1 := s.(used := s.used - {0});
      && Run([s, s1, s], [Release(0), Alloc], [Done, Given(0)])
      && !ReservedUsed(s1) && Address(Given(0)) == 0 && |s1.Free()| == 7169
  {
    var s1 := s.(used := s.used - {0});
    RangeSize(s.Free(), RESERVED_PAGES, FRAMES);
    FreeGrows(s, 0);
    assert s1.(used := s1.used + {0}) == s;
    var ss, ops, outs := [s, s1, s], [Release(0), Alloc], [Done, Given(0)];
    assert Step(ss[0], ops[0], outs[0], ss[1]);
    assert Step(ss[1], ops[1], outs[1], ss[2]);
  }

  lemma {:induction false} BeyondStaysUsed(ss: seq<Frames>, ops: seq<Op>, outs: seq<Outcome>, f: nat, i: nat)
    requires Run(ss, ops, outs) && i < |ss| && f in ss[0].used && f >= ss[0].total
    ensures f in ss[i].used
  {
    if i > 0 {
      BeyondStaysUsed(ss, ops, outs, f, i - 1);
      TotalConstant(ss, ops, outs, i - 1);
      assert Step(ss[i - 1], ops[i - 1], outs[i - 1], ss[i]);
    }
  }

  /** A release that takes effect: the frame is managed and in use. */
  predicate Effective(s: Frames, op: Op) {
    op.Release? && op.addr / PAGE < s.total && op.addr / PAGE in s.used
  }

  ghost function CountGrants(outs: seq<Outcome>): nat {
    if outs == [] then 0
    else CountGrants(outs[..|outs| - 1]) + if outs[|outs| - 1].Given? then 1 else 0
  }

  ghost function CountReleases(ss: seq<Frames>, ops: seq<Op>): nat
    requires |ss| >= |ops|
  {
    if ops == [] then 0
    else
      var n := |ops| - 1;
      CountReleases(ss, ops[..n]) + if Effective(ss[n], ops[n]) then 1 else 0
  }

  /** Frames are conserved over any run: free frames and grants together equal the frames
      free at the start and the releases that took effect. */
  lemma {:induction false} FramesConserved(ss: seq<Frames>, ops: seq<Op>, outs: seq<Outcome>, n: nat)
    requires Run(ss, ops, outs) && n <= |ops|
    ensures |ss[n].Free()| + CountGrants(outs[..n]) == |ss[0].Free()| + CountReleases(ss, ops[..n])
  {
    if n > 0 {
      FramesConserved(ss, ops, outs, n - 1);
      var s, op, out := ss[n - 1], ops[n - 1], outs[n - 1];
      assert Step(s, op, out, ss[n]);
      assert outs[..n][..n - 1] == outs[..n - 1] && ops[..n][..n - 1] == ops[..n - 1];
      if out.Given? {
        FreeShrinks(s, out.frame);
      } else if Effective(s, op) {
        FreeGrows(s, op.addr / PAGE);
      } else {
        assert ss[n].used == s.used;
      }
    }
  }

  lemma {:induction false} FreeBound(s: Frames, n: nat)
    requires n <= s.total
    ensures |set f | 0 <= f < n && f !in s.used| <= n
    ensures n == s.total ==> |s.Free()| <= n
  {
    if n > 0 {
      FreeBound(s, n - 1);
      var shorter := set f | 0 <= f < n - 1 && f !in s.used;
      assert (set f | 0 <= f < n && f !in s.used) == shorter + if n - 1 !in s.used then {n - 1} else {};
    }
    assert n == s.total ==> s.Free() == set f | 0 <= f < n && f !in s.used;
  }

  lemma {:induction false} RangeSize(s: set<nat>, a: nat, b: nat)
    requires a <= b && forall f :: f in s <==> a <= f < b
    ensures |s| == b - a
    decreases b
  {
    if a < b {
      RangeSize(s - {b - 1}, a, b - 1);
    } else {
      assert s == {};
    }
  }

  lemma Grant(s: Frames, f: nat)
    requires f < s.total && f !in s.used && forall g :: 0 <= g < f ==> g in s.used
    ensures Step(s, Alloc, Given(f), s.(used := s.used + {f}))
    ensures |s.(used := s.used + {f}).Free()| == |s.Free()| - 1
  {
    FreeShrinks(s, f);
  }

  lemma NoGrant(s: Frames)
    requires forall g :: 0 <= g < s.total ==> g in s.used
    ensures Step(s, Alloc, Exhausted, s)
  {
    assert s.Free() == {};
  }

  lemma FreeShrinks(s: Frames, f: nat)
    requires f in s.Free()
    ensures s.(used := s.used + {f}).Free() == s.Free() - {f}
    ensures |s.(used := s.used + {f}).Free()| == |s.Free()| - 1
  {
    assert s.(used := s.used + {f}).Free() == s.Free() - {f};
  }

  lemma FreeGrows(s: Frames, f: nat)
    requires f in s.used && f < s.total
    ensures s.(used := s.used - {f}).Free() == s.Free() + {f}
    ensures |s.(used := s.used - {f}).Free()| == |s.Free()| + 1
  {
    assert s.(used := s.used - {f}).Free() == s.Free() + {f};
  }

  // ----- the allocator in place -----

  class Allocator {
    const bitmap: array<Mask>  // pmm_bitmap
    var total: u32             // pmm_total_pages
    var free: u32              // pmm_free_pages

    predicate Bit(i: nat)
      requires i < FRAMES && bitmap.Length == FRAMES / 32
      reads bitmap
    {
      bitmap[i / 32][i % 32]
    }

    /** Abstraction: the frames whose bit is set. */
    ghost function State(): (s: Frames)
      requires bitmap.Length == FRAMES / 32
      reads `total, bitmap
    {
      Frames(total, set f | 0 <= f < FRAMES && Bit(f))
    }

    /** The free-page counter is the number of clear bits below `total`. */
    ghost predicate Valid()
      reads `total, `free, bitmap
    {
      && bitmap.Length == FRAMES / 32
      && total <= FRAMES
      && free == |State().Free()|
    }

    constructor ()
      ensures fresh(this) && fresh(bitmap) && bitmap.Length == FRAMES / 32
    {
      bitmap := new Mask[FRAMES / 32](_ => NoBits());
      total, free := 0, 0;
    }

    method SetUsed(idx: nat)
      requires bitmap.Length == FRAMES / 32 && idx < FRAMES
      modifies bitmap
      ensures forall f :: 0 <= f < FRAMES ==> Bit(f) == (f == idx || old(Bit(f)))
      ensures State() == old(State()).(used := old(State()).used + {idx})
    {
      bitmap[idx / 32] := bitmap[idx / 32][idx % 32 := true];
    }

    method SetFree(idx: nat)
      requires bitmap.Length == FRAMES / 32 && idx < FRAMES
      modifies bitmap
      ensures forall f :: 0 <= f < FRAMES ==> Bit(f) == (f != idx && old(Bit(f)))
      ensures State() == old(State()).(used := old(State()).used - {idx})
    {
      bitmap[idx / 32] := bitmap[idx / 32][idx % 32 := false];
    }

    method Init(memSize: u32)
      requires bitmap.Length == FRAMES / 32
      modifies this, bitmap
      ensures Valid() && Booted(State())
      ensures total == if memSize / PAGE > FRAMES then FRAMES else memSize / PAGE
    {
      total := memSize / PAGE;
      if total > FRAMES {
        total := FRAMES;
      }
      free := 0;
      var i := 0;
      while i < FRAMES / 32
        modifies bitmap
        invariant 0 <= i <= FRAMES / 32
        invariant forall k :: 0 <= k < i ==> bitmap[k] == AllBits()
      {
        bitmap[i] := AllBits();
        i := i + 1;
      }
      i := RESERVED_PAGES;
      while i < total
        modifies `free, bitmap
        invariant RESERVED_PAGES <= i && (i <= total || i == RESERVED_PAGES)
        invariant free == i - RESERVED_PAGES
        invariant forall f :: 0 <= f < FRAMES ==> Bit(f) == !(RESERVED_PAGES <= f < i)
      {
        SetFree(i);
        free := free + 1;
        i := i + 1;
      }
      RangeSize(State().Free(), RESERVED_PAGES, i);
    }

    method AllocPage() returns (addr: u32, ghost out: Outcome)
      requires Valid()
      modifies this`free, bitmap
      ensures Valid() && Step(old(State()), Alloc, out, State())
      ensures addr == Address(out)
      ensures addr == 0 <==> old(State()).Free() == {} || 0 in old(State()).Free()
    {
      hide Step, Frames.Free;
      ghost var s := State();
      var i := 0;
      while i < total
        invariant 0 <= i <= total
        invariant forall f :: 0 <= f < i ==> Bit(f)
      {
        if !bitmap[i / 32][i % 32] {
          assert !Bit(i);
          Grant(s, i);
          ZeroReturned(s, Given(i), s.(used := s.used + {i}));
          SetUsed(i);
          free := free - 1;
          return i * PAGE, Given(i);
        }
        i := i + 1;
      }
      NoGrant(s);
      ZeroReturned(s, Exhausted, s);
      return 0, Exhausted;
    }

    method FreePage(addr: u32)
      requires Valid()
      modifies this`free, bitmap
      ensures Valid() && Step(old(State()), Release(addr), Done, State())
    {
      var idx := addr / PAGE;
      if idx < total && bitmap[idx / 32][idx % 32] {
        FreeGrows(State(), idx);
        SetFree(idx);
        FreeBound(State(), total);
        free := free + 1;
      } else {
        assert idx < total ==> !Bit(idx);
        assert State().used - {idx} == State().used || idx >= total;
      }
    }
  }
}
