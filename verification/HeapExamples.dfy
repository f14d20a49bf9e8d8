/** Short runs from a new heap that meet the conditions under which its promises fail. */
module HeapExamples {
  import opened Bytes
  import opened Heap
  import opened HeapSafety

  /** A heap of one mebibyte as it starts. */
  const NEW_HEAP := State(0x10_0000, 0x20_0000, 0x10_0000, 0x10_0000, [], [], 0, 0)

  lemma NewHeap()
    ensures Init(0x10_0000, 0x20_0000) == NEW_HEAP
  {
  }

  lemma RunOne(s: State, a: Op)
    ensures Run(s, [a]) == Apply(s, a)
  {
    assert [a][..0] == [];
  }

  lemma RunTwo(s: State, a: Op, b: Op)
    ensures Run(s, [a, b]) == Apply(Apply(s, a), b)
  {
    hide Apply;
    RunOne(s, a);
    assert [a, b][..1] == [a];
  }

  lemma RunFour(s: State, a: Op, b: Op, c: Op, d: Op)
    ensures Run(s, [a, b, c, d]) == Apply(Apply(Apply(Apply(s, a), b), c), d)
  {
    hide Apply;
    RunTwo(s, a, b);
    assert [a, b, c][..2] == [a, b] && [a, b, c, d][..3] == [a, b, c];
    assert Run(s, [a, b, c]) == Apply(Run(s, [a, b]), c);
  }

  /** Aligned addresses are multiples of sixteen, one and thirty-two here. */
  lemma Aligned(v: int, a: int)
    requires 0 <= v < 0x20_0000 && (a == 1 || a == 16 || a == 32)
    ensures AlignUp(v, a) == (v + a - 1) / a * a
  {
  }

  // ----- A strictly aligned block cannot be freed -----

  const OVER_ALIGNED := State(0x10_0000, 0x20_0000, 0x10_0080, 0x10_1000, [],
    [Alloc(0x10_0020, 0x60, 0x10_0040, 64, 32)], 64, 0x20)

  lemma OverAlignedStays()
    ensures Init(0x10_0000, 0x20_0000) == NEW_HEAP
    ensures Allocate(NEW_HEAP, 64, 32, 1) == (OVER_ALIGNED, 0x10_0040)
    ensures Free(OVER_ALIGNED, 0x10_0040) == OVER_ALIGNED
  {
    hide AlignUp;
    NewHeap();
    Aligned(0x10_0010, 32);
    Aligned(0x10_0030, 32);
    assert NEW_HEAP.live + [OVER_ALIGNED.live[0]] == OVER_ALIGNED.live;
  }

  // ----- A huge request is served from a small block -----

  const ONE_LIVE := State(0x10_0000, 0x20_0000, 0x10_0060, 0x10_1000, [],
    [Alloc(0x10_0010, 0x50, 0x10_0020, 64, 1)], 64, 0x10)
  const ONE_FREE := State(0x10_0000, 0x20_0000, 0x10_0060, 0x10_1000, [Block(0x10_0010, 0x50)], [], 0, 0x10)
  const HUGE: nat := 0xFFFF_FFF0

  lemma OneFree()
    ensures Allocate(NEW_HEAP, 64, 1, 1) == (ONE_LIVE, 0x10_0020) && Free(ONE_LIVE, 0x10_0020) == ONE_FREE
  {
    hide AlignUp;
    Aligned(0x10_0010, 1);
    Aligned(0x10_0020, 1);
    assert NEW_HEAP.live + [ONE_LIVE.live[0]] == ONE_LIVE.live;
    assert ONE_LIVE.live[..0] + ONE_LIVE.live[1..] == [];
  }

  /** After one allocation and its release, a request near 2^32 is accepted and breaks the heap. */
  lemma HugeRequestBreaks()
    ensures Run(Init(0x10_0000, 0x20_0000), [AllocOp(64, 1, 1), FreeOp(0x10_0020)]) == ONE_FREE
    ensures ValidRequest(HUGE, 1) && Breaks(ONE_FREE, HUGE, 1, 0)
    ensures Allocate(ONE_FREE, HUGE, 1, 0).1 == 0x10_0030
  {
    hide AlignUp, Run;
    NewHeap();
    OneFree();
    RunTwo(NEW_HEAP, AllocOp(64, 1, 1), FreeOp(0x10_0020));
    Aligned(0x10_0020, 1);
    Aligned(0x10_0030, 1);
    assert PlaceIn(Block(0x10_0010, 0x50), HUGE, 1) == Some(Placement(0x10_0020, 0x10_0030, 0x10_0020));
  }

  // ----- A block behind another is taken and the first is lost -----

  const TWO_FREE := State(0x10_0000, 0x20_0000, 0x10_0150, 0x10_1000,
    [Block(0x10_0010, 0x20), Block(0x10_0040, 0x110)], [], 0, 0x20)

  const SMALL_LIVE := State(0x10_0000, 0x20_0000, 0x10_0030, 0x10_1000, [],
    [Alloc(0x10_0010, 0x20, 0x10_0020, 16, 16)], 16, 0x10)
  const BOTH_LIVE := State(0x10_0000, 0x20_0000, 0x10_0150, 0x10_1000, [],
    [Alloc(0x10_0010, 0x20, 0x10_0020, 16, 16), Alloc(0x10_0040, 0x110, 0x10_0050, 256, 16)], 272, 0x20)
  const LARGE_LIVE := State(0x10_0000, 0x20_0000, 0x10_0150, 0x10_1000, [Block(0x10_0010, 0x20)],
    [Alloc(0x10_0040, 0x110, 0x10_0050, 256, 16)], 256, 0x20)

  lemma SmallLive()
    ensures Allocate(NEW_HEAP, 16, 16, 1) == (SMALL_LIVE, 0x10_0020)
  {
    hide AlignUp;
    Aligned(0x10_0010, 16);
    Aligned(0x10_0020, 16);
    assert NEW_HEAP.live + [SMALL_LIVE.live[0]] == SMALL_LIVE.live;
  }

  lemma BothLive()
    ensures Allocate(SMALL_LIVE, 256, 16, 0) == (BOTH_LIVE, 0x10_0050)
  {
    hide AlignUp;
    Aligned(0x10_0040, 16);
    Aligned(0x10_0050, 16);
    assert SMALL_LIVE.live + [BOTH_LIVE.live[1]] == BOTH_LIVE.live;
  }

  lemma TwoFree()
    ensures Free(BOTH_LIVE, 0x10_0020) == LARGE_LIVE && Free(LARGE_LIVE, 0x10_0050) == TWO_FREE
  {
    assert BOTH_LIVE.live[1..] == [BOTH_LIVE.live[1]];
  }

  /** The run that frees both blocks. */
  lemma TwoFreeReached()
    ensures
      var ops := [AllocOp(16, 16, 1), AllocOp(256, 16, 0), FreeOp(0x10_0020), FreeOp(0x10_0050)];
      Run(Init(0x10_0000, 0x20_0000), ops) == TWO_FREE
  {
    hide Run, Allocate, Free, Init;
    NewHeap();
    SmallLive();
    BothLive();
    TwoFree();
    RunFour(NEW_HEAP, AllocOp(16, 16, 1), AllocOp(256, 16, 0), FreeOp(0x10_0020), FreeOp(0x10_0050));
  }

  lemma FirstBlockLost()
    ensures FirstFit(TWO_FREE.free, 128, 16, 0) == 1
    ensures Allocate(TWO_FREE, 128, 16, 0).0.lost == TWO_FREE.lost + 0x20
  {
    hide AlignUp, Release;
    Aligned(0x10_0020, 16);
    Aligned(0x10_0030, 16);
    Aligned(0x10_0050, 16);
    Aligned(0x10_0060, 16);
    assert PlaceIn(TWO_FREE.free[0], 128, 16).None?;
    assert PlaceIn(TWO_FREE.free[1], 128, 16) == Some(Placement(0x10_0050, 0x10_0060, 0x10_00E0));
    assert TWO_FREE.free[..1] == [TWO_FREE.free[0]];
  }

  // ----- An alignment past the end of the address space moves the break to the bottom -----

  const HIGH_HEAP := State(0xC000_0000, 0xC010_0000, 0xC000_0000, 0xC000_0000, [], [], 0, 0)

  lemma HighHeap()
    ensures Init(0xC000_0000, 0xC010_0000) == HIGH_HEAP
  {
  }

  lemma AlignmentMovesBreak()
    ensures Init(0xC000_0000, 0xC010_0000) == HIGH_HEAP
    ensures Breaks(HIGH_HEAP, 64, 0x8000_0000, 0)
    ensures Allocate(HIGH_HEAP, 64, 0x8000_0000, 0).1 == 0 && Allocate(HIGH_HEAP, 64, 0x8000_0000, 0).0.brk == 64
  {
    hide AlignUp;
    HighHeap();
    AlignedUpWraps(0xC000_0010, 0x8000_0000);
  }
}
