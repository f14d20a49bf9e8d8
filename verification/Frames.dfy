/** The physical frame allocator: a bitmap in which a clear bit is a free frame. */
module Frames {
  import opened Bytes

  const PAGE: nat := 4096
  const MAX_FRAMES: nat := 0x10_0000
  const WORDS: nat := 32768
  const LOW_MEMORY_END: nat := 0x10_0000

  type Frame = f: nat | f < MAX_FRAMES
  type Address = a: nat | a < 0x1_0000_0000

  // ----- Bits -----

  function Mask(b: nat): bv32
    requires b < 32
  {
    (1 as bv32) << b
  }

  function And(w: bv32, m: bv32): bv32
  {
    w & m
  }

  function Or(w: bv32, m: bv32): bv32
  {
    w | m
  }

  function AndNot(w: bv32, m: bv32): bv32
  {
    w & !m
  }

  lemma MasksApart(i: nat, j: nat)
    requires i < 32 && j < 32 && i != j
    ensures And(Mask(i), Mask(j)) == 0
  {
  }

  lemma MaskNonzero(b: nat)
    requires b < 32
    ensures Mask(b) != 0
  {
  }

  lemma OtherBitSet(w: bv32, m: bv32, n: bv32)
    requires And(m, n) == 0
    ensures And(Or(w, m), n) == And(w, n)
  {
  }

  lemma OtherBitCleared(w: bv32, m: bv32, n: bv32)
    requires And(m, n) == 0
    ensures And(AndNot(w, m), n) == And(w, n)
  {
  }

  lemma ThisBit(w: bv32, m: bv32)
    requires m != 0
    ensures And(Or(w, m), m) != 0 && And(AndNot(w, m), m) == 0
  {
  }

  predicate HasBit(w: bv32, b: nat)
    requires b < 32
  {
    And(w, Mask(b)) != 0
  }

  lemma WordBit(w: bv32, b: nat, c: nat)
    requires b < 32 && c < 32
    ensures HasBit(Or(w, Mask(b)), c) <==> c == b || HasBit(w, c)
    ensures HasBit(AndNot(w, Mask(b)), c) <==> c != b && HasBit(w, c)
  {
    hide Mask, And, Or, AndNot;
    if b == c {
      MaskNonzero(b);
      ThisBit(w, Mask(b));
    } else {
      MasksApart(b, c);
      OtherBitSet(w, Mask(b), Mask(c));
      OtherBitCleared(w, Mask(b), Mask(c));
    }
  }

  lemma FullWord(b: nat)
    requires b < 32
    ensures HasBit(0xFFFF_FFFF, b)
  {
    MaskNonzero(b);
  }

  predicate IsSet(bitmap: seq<bv32>, f: Frame)
    requires |bitmap| == WORDS
  {
    HasBit(bitmap[f / 32], f % 32)
  }

  function SetIn(bitmap: seq<bv32>, f: Frame): (r: seq<bv32>)
    requires |bitmap| == WORDS
    ensures |r| == WORDS
  {
    bitmap[f / 32 := Or(bitmap[f / 32], Mask(f % 32))]
  }

  function ClearIn(bitmap: seq<bv32>, f: Frame): (r: seq<bv32>)
    requires |bitmap| == WORDS
    ensures |r| == WORDS
  {
    bitmap[f / 32 := AndNot(bitmap[f / 32], Mask(f % 32))]
  }

  /** Changing one bit of one word changes that frame's bit and no other. */
  lemma BitChanged(bitmap: seq<bv32>, f: Frame, g: Frame)
    requires |bitmap| == WORDS
    ensures IsSet(SetIn(bitmap, f), g) <==> g == f || IsSet(bitmap, g)
    ensures IsSet(ClearIn(bitmap, f), g) <==> g != f && IsSet(bitmap, g)
  {
    hide Mask, HasBit, And, Or, AndNot;
    if f / 32 == g / 32 {
      WordBit(bitmap[f / 32], f % 32, g % 32);
    }
  }

  /** The free frames. */
  ghost function FreeSet(bitmap: seq<bv32>): set<Frame>
    requires |bitmap| == WORDS
  {
    set f: Frame | 0 <= f < MAX_FRAMES && !IsSet(bitmap, f)
  }

  lemma SetRemoves(bitmap: seq<bv32>, f: Frame)
    requires |bitmap| == WORDS
    ensures FreeSet(SetIn(bitmap, f)) == FreeSet(bitmap) - {f}
  {
    hide IsSet, SetIn;
    forall g: Frame ensures IsSet(SetIn(bitmap, f), g) <==> g == f || IsSet(bitmap, g) {
      BitChanged(bitmap, f, g);
    }
  }

  lemma ClearAdds(bitmap: seq<bv32>, f: Frame)
    requires |bitmap| == WORDS
    ensures FreeSet(ClearIn(bitmap, f)) == FreeSet(bitmap) + {f}
  {
    hide IsSet, ClearIn;
    forall g: Frame ensures IsSet(ClearIn(bitmap, f), g) <==> g != f && IsSet(bitmap, g) {
      BitChanged(bitmap, f, g);
    }
  }

  // ----- Ranges -----

  /** Rounds up to a page in 32 bits: the last partial page rounds to zero. */
  function AlignUp(a: Address): Address
  {
    (a + PAGE - 1) % 0x1_0000_0000 / PAGE * PAGE
  }

  const LAST_PAGE: nat := 0xFFFF_F000

  lemma AlignUpIs(a: Address)
    ensures AlignUp(a) / PAGE == if a <= LAST_PAGE then (a + PAGE - 1) / PAGE else 0
  {
  }

  predicate InRange(f: Frame, start: Address, end: Address)
  {
    start / PAGE <= f < AlignUp(end) / PAGE
  }

  /** The frames a range of addresses touches. */
  ghost function RangeFrames(start: Address, end: Address): set<Frame>
  {
    set f: Frame | 0 <= f < MAX_FRAMES && InRange(f, start, end)
  }

  /** Frame `f` holds an address of the range. */
  predicate Touches(f: Frame, start: Address, end: Address)
  {
    f * PAGE < end && start < (f + 1) * PAGE
  }

  /** A range covers exactly the frames it touches, unless it reaches into the last page, when it covers
      none. */
  lemma RangeCovers(start: Address, end: Address, f: Frame)
    ensures f in RangeFrames(start, end) <==> Touches(f, start, end) && end <= LAST_PAGE
  {
    AlignUpIs(end);
  }

  // ----- Start-up -----

  const TWO64: int := 0x1_0000_0000_0000_0000

  type U64 = x: int | 0 <= x < TWO64

  datatype Region = Region(base: U64, length: U64, available: bool)

  /** What the memory map visitor frees for one region. */
  function Freed(r: Region): Option<(Address, Address)>
  {
    var end64 := (r.base as int + r.length as int) % TWO64;
    if !r.available || r.length == 0 || r.base >= 0x1_0000_0000 then None
    else
      var end := if end64 >= 0x1_0000_0000 then 0xFFFF_F000 else end64;
      if end <= r.base then None else Some((r.base, end))
  }

  ghost function FreedFrames(rs: seq<Region>): set<Frame>
  {
    if rs == [] then {}
    else
      var r := Freed(rs[|rs| - 1]);
      FreedFrames(rs[..|rs| - 1]) + if r.None? then {} else RangeFrames(r.value.0, r.value.1)
  }

  /** The frames free after start-up. */
  ghost function InitialFree(rs: seq<Region>, kernelStart: Address, kernelEnd: Address): set<Frame>
  {
    FreedFrames(rs) - RangeFrames(0, LOW_MEMORY_END) - RangeFrames(kernelStart, kernelEnd)
  }

  /** Low memory is never free, and neither is the last page. */
  lemma {:induction false} NeverFreed(rs: seq<Region>, f: Frame)
    requires f in FreedFrames(rs)
    ensures f < MAX_FRAMES - 1
  {
    var r := Freed(rs[|rs| - 1]);
    if r.Some? && f in RangeFrames(r.value.0, r.value.1) {
      RangeCovers(r.value.0, r.value.1, f);
    } else {
      NeverFreed(rs[..|rs| - 1], f);
    }
  }

  lemma LowMemoryReserved(rs: seq<Region>, kernelStart: Address, kernelEnd: Address, f: Frame)
    requires f in InitialFree(rs, kernelStart, kernelEnd)
    ensures 256 <= f < MAX_FRAMES - 1
  {
    RangeCovers(0, LOW_MEMORY_END, f);
    NeverFreed(rs, f);
  }

  /** An available region that has an address in the page of `f`, and that ends at or below the last page or past
      the 4 GiB; the last page itself is never provided. */
  predicate Provides(r: Region, f: Frame)
  {
    && r.available && r.length > 0
    && r.base < (f + 1) * PAGE && f * PAGE < r.base + r.length
    && (r.base + r.length <= LAST_PAGE || TWO32 <= r.base + r.length < TWO64) && f < MAX_FRAMES - 1
  }

  lemma FreedIs(r: Region, f: Frame)
    ensures (Freed(r).Some? && f in RangeFrames(Freed(r).value.0, Freed(r).value.1)) <==> Provides(r, f)
  {
    if Freed(r).Some? {
      RangeCovers(Freed(r).value.0, Freed(r).value.1, f);
    }
  }

  lemma {:induction false} FreedFramesAre(rs: seq<Region>, f: Frame)
    ensures f in FreedFrames(rs) <==> exists i :: 0 <= i < |rs| && Provides(rs[i], f)
  {
    if rs != [] {
      hide Freed, RangeFrames, Provides;
      var n := |rs| - 1;
      var init := rs[..n];
      assert forall i :: 0 <= i < n ==> init[i] == rs[i];
      FreedFramesAre(init, f);
      FreedIs(rs[n], f);
    }
  }

  /** The frames free after start-up are exactly those an available region provides, outside low memory and outside
      the kernel as far as it can be reserved. */
  lemma FreeExactly(rs: seq<Region>, kernelStart: Address, kernelEnd: Address, f: Frame)
    ensures f in InitialFree(rs, kernelStart, kernelEnd) <==>
      && (exists i :: 0 <= i < |rs| && Provides(rs[i], f))
      && f * PAGE >= LOW_MEMORY_END && !(Touches(f, kernelStart, kernelEnd) && kernelEnd <= LAST_PAGE)
  {
    hide FreedFrames, RangeFrames, Provides;
    FreedFramesAre(rs, f);
    RangeCovers(0, LOW_MEMORY_END, f);
    RangeCovers(kernelStart, kernelEnd, f);
  }

  /** A region that ends inside the last page provides nothing, although its frames are available. */
  lemma LastPageRegionLost(r: Region, f: Frame)
    requires LAST_PAGE < r.base + r.length < TWO32
    ensures !Provides(r, f)
  {
  }

  /** Whatever the memory map says, the frames of this range are not free. */
  ghost predicate AlwaysReserved(kernelStart: Address, kernelEnd: Address)
  {
    forall rs: seq<Region>, f: Frame :: Touches(f, kernelStart, kernelEnd) ==>
      f !in InitialFree(rs, kernelStart, kernelEnd)
  }

  /** The kernel is always reserved exactly when it ends at or below the last page, or lies inside it. */
  lemma KernelReserved(kernelStart: Address, kernelEnd: Address)
    ensures AlwaysReserved(kernelStart, kernelEnd) <==> kernelEnd <= LAST_PAGE || kernelStart >= LAST_PAGE
  {
    if kernelEnd <= LAST_PAGE || kernelStart >= LAST_PAGE {
      forall rs: seq<Region>, f: Frame | Touches(f, kernelStart, kernelEnd)
        ensures f !in InitialFree(rs, kernelStart, kernelEnd)
      {
        RangeCovers(kernelStart, kernelEnd, f);
        if f in InitialFree(rs, kernelStart, kernelEnd) {
          LowMemoryReserved(rs, kernelStart, kernelEnd, f);
        }
      }
    } else {
      KernelMissed(kernelStart, kernelEnd);
    }
  }

  /** A memory map that leaves the kernel's first frame above low memory free. */
  lemma KernelMissed(kernelStart: Address, kernelEnd: Address)
    requires kernelStart < LAST_PAGE < kernelEnd
    ensures !AlwaysReserved(kernelStart, kernelEnd)
  {
    var f: Frame := if kernelStart < LOW_MEMORY_END then LOW_MEMORY_END / PAGE else kernelStart / PAGE;
    var r := Region(f * PAGE, PAGE, true);
    var rs := [r];
    assert rs[..0] == [];
    assert Freed(r) == Some((f * PAGE, f * PAGE + PAGE));
    RangeCovers(f * PAGE, f * PAGE + PAGE, f);
    RangeCovers(0, LOW_MEMORY_END, f);
    RangeCovers(kernelStart, kernelEnd, f);
    assert Touches(f, kernelStart, kernelEnd);
    assert f in FreedFrames(rs);
    assert f in InitialFree(rs, kernelStart, kernelEnd);
  }
}
