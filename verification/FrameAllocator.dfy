/** The frame allocator's bitmap and counter, changed in place. */
module FrameAllocator {
  import opened Bytes
  import opened Frames

  ghost predicate IsLowest(free: set<Frame>, f: Frame)
  {
    f in free && forall g :: g in free ==> f <= g
  }

  class Allocator {
    const bitmap: array<bv32>
    var freeFrames: nat

    ghost predicate Sized()
      reads this, bitmap
    {
      bitmap.Length == WORDS
    }

    ghost function Free(): set<Frame>
      requires Sized()
      reads this, bitmap
    {
      FreeSet(bitmap[..])
    }

    /** The counter is the number of clear bits. */
    ghost predicate Valid()
      reads this, bitmap
    {
      Sized() && freeFrames == |Free()|
    }

    /** Everything starts reserved; the memory map's regions are freed, then low memory and the kernel
        are reserved. */
    constructor (regions: seq<Region>, kernelStart: Address, kernelEnd: Address)
      ensures fresh(bitmap) && Valid() && Free() == InitialFree(regions, kernelStart, kernelEnd)
    {
      bitmap := new bv32[WORDS](i => 0xFFFF_FFFF);
      freeFrames := 0;
      new;
      AllSet(bitmap[..]);
      hide FreeSet, RangeFrames;
      for i := 0 to |regions|
        invariant Valid() && Free() == FreedFrames(regions[..i])
      {
        assert regions[..i + 1][..i] == regions[..i];
        var r := Freed(regions[i]);
        if r.Some? {
          UnreserveRange(r.value.0, r.value.1);
        }
      }
      assert regions[..|regions|] == regions;
      ReserveRange(0, LOW_MEMORY_END);
      ReserveRange(kernelStart, kernelEnd);
    }

    method SetBit(f: Frame)
      requires Valid()
      modifies this, bitmap
      ensures Valid() && Free() == old(Free()) - {f}
    {
      hide IsSet, Or, Mask;
      SetRemoves(bitmap[..], f);
      InFree(bitmap[..], f);
      if !IsSet(bitmap[..], f) {
        bitmap[f / 32] := Or(bitmap[f / 32], Mask(f % 32));
        assert bitmap[..] == SetIn(old(bitmap[..]), f);
        if freeFrames > 0 {
          freeFrames := freeFrames - 1;
        }
      }
    }

    method ClearBit(f: Frame)
      requires Valid()
      modifies this, bitmap
      ensures Valid() && Free() == old(Free()) + {f}
    {
      hide IsSet, AndNot, Mask;
      ClearAdds(bitmap[..], f);
      InFree(bitmap[..], f);
      if IsSet(bitmap[..], f) {
        bitmap[f / 32] := AndNot(bitmap[f / 32], Mask(f % 32));
        assert bitmap[..] == ClearIn(old(bitmap[..]), f);
        freeFrames := freeFrames + 1;
      }
    }

    method ReserveRange(start: Address, end: Address)
      requires Valid()
      modifies this, bitmap
      ensures Valid() && Free() == old(Free()) - RangeFrames(start, end)
    {
      hide FreeSet, AlignUp, RangeFrames, FramesBetween;
      var first, last := start / PAGE, AlignUp(end) / PAGE;
      NoFramesBetween(first);
      var f := first;
      while f < last
        invariant first <= f && Valid()
        invariant Free() == old(Free()) - FramesBetween(first, f)
        invariant f <= last || f == first
      {
        SetBit(f);
        FramesStep(first, f);
        Regroup(old(Free()), FramesBetween(first, f), {f as Frame});
        f := f + 1;
      }
      RangeIsBetween(start, end, f);
    }

    method UnreserveRange(start: Address, end: Address)
      requires Valid()
      modifies this, bitmap
      ensures Valid() && Free() == old(Free()) + RangeFrames(start, end)
    {
      hide FreeSet, AlignUp, RangeFrames, FramesBetween;
      var first, last := start / PAGE, AlignUp(end) / PAGE;
      NoFramesBetween(first);
      var f := first;
      while f < last
        invariant first <= f && Valid()
        invariant Free() == old(Free()) + FramesBetween(first, f)
        invariant f <= last || f == first
      {
        ClearBit(f);
        FramesStep(first, f);
        Regroup(old(Free()), FramesBetween(first, f), {f as Frame});
        f := f + 1;
      }
      RangeIsBetween(start, end, f);
    }

    /** Takes the lowest free frame. Address zero means none, or that frame zero was taken. */
    method AllocFrame() returns (addr: nat)
      requires Valid()
      modifies this, bitmap
      ensures Valid()
      ensures old(Free()) == {} ==> addr == 0 && Free() == {}
      ensures old(Free()) != {} ==>
        && addr % PAGE == 0 && addr / PAGE < MAX_FRAMES
        && IsLowest(old(Free()), addr / PAGE) && Free() == old(Free()) - {addr / PAGE}
      ensures addr == 0 <==> old(Free()) == {} || 0 in old(Free())
    {
      hide HasBit;
      addr := 0;
      if freeFrames == 0 {
        return;
      }
      var word := 0;
      while word < WORDS
        invariant word <= WORDS && Valid() && bitmap[..] == old(bitmap[..])
        invariant forall g: Frame :: g < word * 32 ==> IsSet(bitmap[..], g)
      {
        if bitmap[word] != 0xFFFF_FFFF {
          var bit := 0;
          while bit < 32
            invariant bit <= 32 && Valid() && bitmap[..] == old(bitmap[..])
            invariant forall g: Frame :: g < word * 32 + bit ==> IsSet(bitmap[..], g)
          {
            var frame := word * 32 + bit;
            InFree(bitmap[..], frame);
            if !IsSet(bitmap[..], frame) {
              SetBit(frame);
              return frame * PAGE;
            }
            bit := bit + 1;
          }
        } else {
          FullWordSet(bitmap[..], word);
        }
        word := word + 1;
      }
      assert false;
    }

    method FreeFrame(addr: Address)
      requires Valid()
      modifies this, bitmap
      ensures Valid()
      ensures Free() == if addr % PAGE == 0 then old(Free()) + {addr / PAGE} else old(Free())
    {
      if addr % PAGE != 0 {
        return;
      }
      ClearBit(addr / PAGE);
    }
  }

  lemma AllSet(bitmap: seq<bv32>)
    requires |bitmap| == WORDS && forall i :: 0 <= i < WORDS ==> bitmap[i] == 0xFFFF_FFFF
    ensures FreeSet(bitmap) == {} && FreedFrames([]) == {}
  {
    hide HasBit;
    forall f: Frame ensures IsSet(bitmap, f) {
      FullWord(f % 32);
    }
  }

  lemma FullWordSet(bitmap: seq<bv32>, word: nat)
    requires |bitmap| == WORDS && word < WORDS && bitmap[word] == 0xFFFF_FFFF
    ensures forall g: Frame :: word * 32 <= g < word * 32 + 32 ==> IsSet(bitmap, g)
  {
    hide HasBit;
    forall g: Frame | word * 32 <= g < word * 32 + 32 ensures IsSet(bitmap, g) {
      FullWord(g % 32);
    }
  }

  lemma InFree(bitmap: seq<bv32>, f: Frame)
    requires |bitmap| == WORDS
    ensures f in FreeSet(bitmap) <==> !IsSet(bitmap, f)
  {
  }

  predicate Between(f: Frame, lo: nat, hi: nat)
  {
    lo <= f < hi
  }

  ghost function FramesBetween(lo: nat, hi: nat): set<Frame>
  {
    set f: Frame | 0 <= f < MAX_FRAMES && Between(f, lo, hi)
  }

  lemma NoFramesBetween(lo: nat)
    ensures FramesBetween(lo, lo) == {}
  {
  }

  lemma FramesStep(lo: nat, hi: Frame)
    requires lo <= hi
    ensures FramesBetween(lo, hi + 1) == FramesBetween(lo, hi) + {hi as Frame}
  {
  }

  lemma Regroup(a: set<Frame>, b: set<Frame>, c: set<Frame>)
    ensures a - b - c == a - (b + c) && a + b + c == a + (b + c)
  {
  }

  lemma RangeIsBetween(start: Address, end: Address, f: nat)
    requires f >= AlignUp(end) / PAGE && start / PAGE <= f && (f <= AlignUp(end) / PAGE || f == start / PAGE)
    ensures RangeFrames(start, end) == FramesBetween(start / PAGE, f)
  {
    forall g: Frame ensures InRange(g, start, end) <==> Between(g, start / PAGE, f) {
    }
  }

  // ----- Runs -----

  /** Free frames, and frames handed out and not yet returned. */
  datatype Pool = Pool(free: set<Frame>, live: set<Frame>)

  datatype Op = OpAlloc(frame: Frame) | OpFree(addr: Address)

  ghost predicate Enabled(p: Pool, op: Op)
  {
    op.OpAlloc? ==> IsLowest(p.free, op.frame)
  }

  function Step(p: Pool, op: Op): Pool
  {
    match op
    case OpAlloc(f) => Pool(p.free - {f}, p.live + {f})
    case OpFree(a) => if a % PAGE != 0 then p else Pool(p.free + {a / PAGE}, p.live - {a / PAGE})
  }

  /** Frames are conserved: the pool is always the frames that were free at the start, split in two. */
  ghost predicate Inv(p: Pool, initial: set<Frame>)
  {
    p.free + p.live == initial && p.free !! p.live
  }

  /** Frees that keep the pool sound: of an unaligned address, which does nothing, or of a frame of the
      pool. */
  lemma StepKeepsInv(p: Pool, op: Op, initial: set<Frame>)
    requires Inv(p, initial) && Enabled(p, op)
    ensures Inv(Step(p, op), initial) <==> (op.OpFree? && op.addr % PAGE == 0 ==> op.addr / PAGE in initial)
    ensures op.OpAlloc? ==> op.frame !in p.live && op.frame in initial
  {
    match op
    case OpAlloc(f) =>
      assert p.free - {f} + (p.live + {f}) == p.free + p.live;
    case OpFree(a) =>
      if a % PAGE == 0 {
        var f: Frame := a / PAGE;
        assert p.free + {f} + (p.live - {f}) == p.free + p.live + {f};
      }
  }

  ghost predicate Runs(p: Pool, ops: seq<Op>)
    decreases |ops|
  {
    ops == [] || (Enabled(p, ops[0]) && Runs(Step(p, ops[0]), ops[1..]))
  }

  /** What is freed, apart from unaligned addresses, came from the pool. */
  ghost predicate FromPool(op: Op, initial: set<Frame>)
  {
    op.OpFree? && op.addr % PAGE == 0 ==> op.addr / PAGE in initial
  }

  function After(p: Pool, ops: seq<Op>): Pool
    decreases |ops|
  {
    if ops == [] then p else After(Step(p, ops[0]), ops[1..])
  }

  /** No step takes a frame out of the pool. */
  lemma {:induction false} PoolGrows(p: Pool, ops: seq<Op>)
    requires Runs(p, ops)
    ensures p.free + p.live <= After(p, ops).free + After(p, ops).live
    decreases |ops|
  {
    if ops != [] {
      PoolGrows(Step(p, ops[0]), ops[1..]);
    }
  }

  /** A foreign frame, once freed, stays in the pool. */
  lemma ForeignStays(p: Pool, ops: seq<Op>, initial: set<Frame>)
    requires Inv(p, initial) && Runs(p, ops) && ops != [] && !FromPool(ops[0], initial)
    ensures !Inv(After(p, ops), initial)
  {
    PoolGrows(Step(p, ops[0]), ops[1..]);
    assert ops[0].addr / PAGE in Step(p, ops[0]).free;
  }

  /** Not in low memory and not the last page, and outside the kernel whenever the kernel can be reserved. */
  predicate Allowed(f: Frame, kernelStart: Address, kernelEnd: Address)
  {
    && 256 <= f < MAX_FRAMES - 1
    && (kernelEnd <= LAST_PAGE || kernelStart >= LAST_PAGE ==> !Touches(f, kernelStart, kernelEnd))
  }

  /** However frames are taken and returned, the pool is conserved if and only if every frame freed came from it;
      the live frames are then apart from the free ones, each is provided by an available region, and none is in low
      memory, the kernel or the last page. */
  lemma {:induction false} LiveFramesSafe(p: Pool, ops: seq<Op>, regions: seq<Region>, kernelStart: Address,
                                          kernelEnd: Address)
    requires Inv(p, InitialFree(regions, kernelStart, kernelEnd)) && Runs(p, ops)
    ensures
      var initial := InitialFree(regions, kernelStart, kernelEnd);
      Inv(After(p, ops), initial) <==> forall i :: 0 <= i < |ops| ==> FromPool(ops[i], initial)
    ensures Inv(After(p, ops), InitialFree(regions, kernelStart, kernelEnd)) ==>
      forall f :: f in After(p, ops).live ==>
        Allowed(f, kernelStart, kernelEnd) && exists i :: 0 <= i < |regions| && Provides(regions[i], f)
    decreases |ops|
  {
    var initial := InitialFree(regions, kernelStart, kernelEnd);
    if ops == [] {
      forall f | f in p.live
        ensures Allowed(f, kernelStart, kernelEnd) && exists i :: 0 <= i < |regions| && Provides(regions[i], f)
      {
        assert f in initial;
        LowMemoryReserved(regions, kernelStart, kernelEnd, f);
        FreeExactly(regions, kernelStart, kernelEnd, f);
        RangeCovers(kernelStart, kernelEnd, f);
      }
    } else {
      hide InitialFree, Allowed, Provides;
      StepKeepsInv(p, ops[0], initial);
      assert FromPool(ops[0], initial) <==> Inv(Step(p, ops[0]), initial);
      if FromPool(ops[0], initial) {
        LiveFramesSafe(Step(p, ops[0]), ops[1..], regions, kernelStart, kernelEnd);
        assert forall i :: 0 < i < |ops| ==> ops[i] == ops[1..][i - 1];
      } else {
        ForeignStays(p, ops, initial);
      }
    }
  }
}
