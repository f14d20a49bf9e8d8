/** Which block serves a request, what is left of it, when a request is refused, and what freeing gives back. */
module HeapPolicy {
  import opened Bytes
  import opened Heap
  import opened HeapSafety

  // ----- Where a payload goes -----

  /** The least multiple of `a` from `x` on. */
  function Above(x: int, a: int): int
    requires a > 0
  {
    (x + a - 1) / a * a
  }

  /** The payload address in memory that is free from `from` on: an aligned place for the header, and the next
      aligned address behind it; the first one itself where a second does not exist below 2^32. */
  function PayloadAt(from: int, a: int): int
    requires a > 0
  {
    var h := Above(from + HEADER, a);
    if h + HEADER + a > TWO32 then h else Above(h + HEADER, a)
  }

  lemma AlignUpIsAbove(v: int, a: int)
    requires 0 <= v && a > 0 && v + a <= TWO32
    ensures AlignUp(v, a) == Above(v, a)
  {
    var w := v + a - 1;
    WrapSmall(w);
    assert w == a * (w / a) + w % a;
  }

  lemma ShapeIs(from: int, a: int)
    requires 0 <= from <= TWO32 - PAGE && Alignment(a) && !AlignmentWraps(from, a)
    ensures var h := AlignUp(from + HEADER, a);
      PayloadAt(from, a) == if Squeezed(from, a) then h else AlignUp(h + HEADER, a)
  {
    hide AlignUp, Above, IsPowerOfTwo;
    PlacedHeader(from, a);
    AlignUpIsAbove(from + HEADER, a);
    var h := AlignUp(from + HEADER, a);
    if !Squeezed(from, a) {
      AlignUpIsAbove(h + HEADER, a);
    }
  }

  lemma PayloadNotNegative(from: int, a: int)
    requires 0 <= from && a > 0
    ensures PayloadAt(from, a) >= 0
  {
  }

  /** A block accepts a request exactly when the payload fits between its address and the block's end, and that is
      where the payload goes. */
  lemma AcceptsIffFits(b: Block, size: int, a: int)
    requires 0 <= b.start && MIN_FREE <= b.size && End(b) <= TWO32 - PAGE && Alignment(a) && 0 < size
    requires !AlignmentWraps(b.start, a) && PayloadAt(b.start, a) + size < TWO32
    ensures PlaceIn(b, size, a).Some? <==> PayloadAt(b.start, a) + size <= End(b)
    ensures PlaceIn(b, size, a).Some? ==> PlaceIn(b, size, a).value.payload == PayloadAt(b.start, a)
  {
    hide AlignUp, IsPowerOfTwo, PlaceIn, PayloadAt, Wrap, Squeezed, SqueezedHeader;
    PlaceInShape(b, size, a);
    ShapeIs(b.start, a);
    PayloadNotNegative(b.start, a);
    WrapSmall(PayloadAt(b.start, a) + size);
  }

  // ----- First fit -----

  predicate NoneFits(fl: seq<Block>, size: int, a: int)
    requires a > 0
  {
    forall j :: 0 <= j < |fl| ==> PlaceIn(fl[j], size, a).None?
  }

  /** Block `k` is the first that accepts the request. */
  predicate FirstToFit(fl: seq<Block>, size: int, a: int, k: nat)
    requires a > 0
  {
    k < |fl| && PlaceIn(fl[k], size, a).Some? && NoneFits(fl[..k], size, a)
  }

  lemma FirstFitIs(fl: seq<Block>, size: int, a: int, k: nat)
    requires a > 0 && FirstToFit(fl, size, a, k)
    ensures FirstFit(fl, size, a, 0) == k
  {
    hide PlaceIn;
    assert forall i :: 0 <= i < k ==> fl[..k][i] == fl[i];
  }

  lemma NoFit(fl: seq<Block>, size: int, a: int)
    requires a > 0 && NoneFits(fl, size, a)
    ensures FirstFit(fl, size, a, 0) == |fl|
  {
  }

  predicate In(b: Block, x: int)
  {
    b.start <= x < End(b)
  }

  /** The first block that accepts the request serves it: the pointer lies in that block, the rest of the block and
      the blocks behind it stay free, the blocks before it are lost, and the break does not move. */
  lemma FirstFitServes(s: State, size: nat, alignment: nat, pages: nat, k: nat)
    requires Inv(s) && ValidRequest(size, EffectiveAlignment(alignment)) && 0 < size
    requires FirstToFit(s.free, size, EffectiveAlignment(alignment), k)
    requires !AlignmentWraps(s.free[k].start, EffectiveAlignment(alignment))
    requires PayloadAt(s.free[k].start, EffectiveAlignment(alignment)) + size < TWO32
    ensures var (s', ptr) := Allocate(s, size, alignment, pages);
      && ptr == PayloadAt(s.free[k].start, EffectiveAlignment(alignment))
      && s.free[k].start + HEADER <= ptr && ptr + size <= End(s.free[k])
      && s'.lost == s.lost + FreeBytes(s.free[..k])
      && s'.brk == s.brk && s'.mapped == s.mapped && |s'.live| == |s.live| + 1
      && var al := s'.live[|s.live|];
      forall x :: Covers(s'.free, x) <==>
        Covers(s.free[k + 1..], x) || (In(s.free[k], x) && !(al.header <= x < al.header + al.size))
  {
    hide PlaceIn, AlignUp, IsPowerOfTwo, Inv, Covers, PayloadAt, NoneFits, TakeBlock, Wrap, AlignmentWraps;
    var a := EffectiveAlignment(alignment);
    FirstFitIs(s.free, size, a, k);
    BlockBounds(s, k);
    var b := s.free[k];
    AcceptsIffFits(b, size, a);
    PlacedIn(b, size, a);
    forall x ensures Covers(TakeBlock(s, k, PlaceIn(b, size, a).value, size, a).free, x) <==>
      Covers(s.free[k + 1..], x) || (In(b, x) && !Within(PlaceIn(b, size, a).value, x))
    {
      Leftover(s, k, PlaceIn(b, size, a).value, size, a, x);
    }
    Taken(s, k, PlaceIn(b, size, a).value, size, a);
  }

  predicate Within(pl: Placement, x: int)
  {
    pl.header <= x < pl.end
  }

  lemma Taken(s: State, k: nat, pl: Placement, size: int, a: int)
    requires k < |s.free| && 0 <= pl.header <= pl.end < TWO32
    ensures var s' := TakeBlock(s, k, pl, size, a);
      && s'.lost == s.lost + FreeBytes(s.free[..k]) && s'.brk == s.brk && s'.mapped == s.mapped
      && |s'.live| == |s.live| + 1
      && s'.live[|s.live|].header == pl.header && s'.live[|s.live|].size == pl.end - pl.header
  {
    hide Release, FreeBytes;
  }

  /** What stays free after block `k` is carved. */
  lemma Leftover(s: State, k: nat, pl: Placement, size: int, a: int, x: int)
    requires Inv(s) && k < |s.free| && ValidRequest(size, a)
    requires pl.header == s.free[k].start || pl.header >= s.free[k].start + MIN_FREE
    requires s.free[k].start <= pl.header < pl.end <= End(s.free[k])
    requires pl.end == End(s.free[k]) || pl.end + MIN_FREE <= End(s.free[k])
    ensures Covers(TakeBlock(s, k, pl, size, a).free, x) <==>
      Covers(s.free[k + 1..], x) || (In(s.free[k], x) && !Within(pl, x))
  {
    hide IsPowerOfTwo, LiveBytes, LiveSizes, FreeBytes, GoodLive, OrderedFree, Covers, InsertFree, Wrap, ClearOf;
    var b, rest := s.free[k], s.free[k + 1..];
    BlockBounds(s, k);
    WrapSmall(End(b));
    RestAfter(s, k);
    var gap := pl.header - b.start;
    ReleaseCovers(rest, b.start, gap, s.start, s.brk, x);
    ClearPart(rest, b.start, End(b), b.start, pl.header);
    ReleaseKeeps(rest, b.start, gap, s.start, s.brk);
    ReleaseCovers(Release(rest, b.start, gap), pl.end, End(b) - pl.end, s.start, s.brk, x);
  }

  lemma ClearPart(fl: seq<Block>, lo: int, hi: int, lo': int, hi': int)
    requires ClearOf(fl, lo, hi) && lo <= lo' && hi' <= hi
    ensures ClearOf(fl, lo', hi')
  {
  }

  lemma ReleaseCovers(fl: seq<Block>, start: int, size: int, lo: int, hi: int, x: int)
    requires OrderedFree(fl, lo, hi) && 0 <= lo <= start && start + size <= hi < TWO32
    requires size == 0 || MIN_FREE <= size
    ensures Covers(Release(fl, start, size), x) <==> start <= x < start + size || Covers(fl, x)
  {
    hide OrderedFree, Covers, InsertFree;
    if size != 0 {
      InsertCovers(fl, Block(start, size), lo, hi, x);
    }
  }

  /** When the head of the list accepts the request, nothing is lost. */
  lemma HeadServes(s: State, size: nat, alignment: nat, pages: nat)
    requires Inv(s) && ValidRequest(size, EffectiveAlignment(alignment)) && 0 < size && s.free != []
    requires !AlignmentWraps(s.free[0].start, EffectiveAlignment(alignment))
    requires PayloadAt(s.free[0].start, EffectiveAlignment(alignment)) + size <= End(s.free[0])
    ensures var (s', ptr) := Allocate(s, size, alignment, pages);
      s.free[0].start + HEADER <= ptr && ptr + size <= End(s.free[0]) && s'.lost == s.lost
  {
    hide PlaceIn, IsPowerOfTwo, Inv, PayloadAt, AlignmentWraps;
    var a := EffectiveAlignment(alignment);
    BlockBounds(s, 0);
    AcceptsIffFits(s.free[0], size, a);
    assert s.free[..0] == [];
    FirstFitServes(s, size, alignment, pages, 0);
  }

  // ----- The break -----

  /** With no block that accepts the request, the break serves it, exactly when the payload's end is within the
      limit and enough pages are granted; the list is untouched either way. */
  lemma BreakServes(s: State, size: nat, alignment: nat, pages: nat)
    requires Inv(s) && ValidRequest(size, EffectiveAlignment(alignment)) && 0 < size
    requires NoneFits(s.free, size, EffectiveAlignment(alignment))
    requires !AlignmentWraps(s.brk, EffectiveAlignment(alignment))
    ensures var (s', ptr) := Allocate(s, size, alignment, pages);
      var end := PayloadAt(s.brk, EffectiveAlignment(alignment)) + size;
      && s'.free == s.free
      && (ptr != 0 <==> end <= s.limit && end <= s.mapped + pages * PAGE)
      && (ptr != 0 ==> ptr == end - size && s'.brk == end && s'.mapped >= end && s'.mapped < Max(s.mapped, end) + PAGE)
      && (ptr == 0 ==> s'.brk == s.brk && s'.live == s.live)
  {
    hide PlaceIn, IsPowerOfTwo, PayloadAt, AlignUp, NoneFits, OrderedFree, GoodLive, LiveBytes, LiveSizes, FreeBytes;
    var a := EffectiveAlignment(alignment);
    NoFit(s.free, size, a);
    BumpIs(s.brk, size, a);
    var payload := PayloadAt(s.brk, a);
    if payload + size >= TWO32 {
      assert Wrap(payload + size) == payload + size - TWO32;
    } else {
      WrapSmall(payload + size);
      PagesExact(s.mapped, payload + size, pages);
    }
  }

  function Max(a: int, b: int): int
  {
    if a < b then b else a
  }

  lemma BumpIs(brk: int, size: int, a: int)
    requires 0 <= brk <= TWO32 - PAGE && Alignment(a) && 0 < size < TWO32 && !AlignmentWraps(brk, a)
    ensures BumpPlacement(brk, size, a).payload == PayloadAt(brk, a)
    ensures BumpPlacement(brk, size, a).end == Wrap(PayloadAt(brk, a) + size)
    ensures 0 < PayloadAt(brk, a) < TWO32
  {
    hide AlignUp, Alignment, Wrap, PayloadAt;
    ShapeIs(brk, a);
    PlacedHeader(brk, a);
    var h := AlignUp(brk + HEADER, a);
    WrapSmall(brk + HEADER);
    WrapSmall(h + HEADER);
    WrapSmall(h - HEADER);
  }

  lemma PagesExact(mapped: int, end: int, pages: nat)
    ensures PagesNeeded(mapped, end) <= pages <==> end <= mapped + pages * PAGE
    ensures end <= mapped + PagesNeeded(mapped, end) * PAGE < Max(mapped, end) + PAGE
  {
  }

  /** A request is refused exactly when it is empty, or no block accepts it and the break cannot. */
  lemma NullExactly(s: State, size: nat, alignment: nat, pages: nat)
    requires Inv(s) && ValidRequest(size, EffectiveAlignment(alignment))
    requires !Breaks(s, size, EffectiveAlignment(alignment), pages)
    ensures var a := EffectiveAlignment(alignment);
      var end := PayloadAt(s.brk, a) + size;
      var refused := AlignmentWraps(s.brk, a) || end > s.limit || end > s.mapped + pages * PAGE;
      Allocate(s, size, alignment, pages).1 == 0 <==> size == 0 || (NoneFits(s.free, size, a) && refused)
  {
    hide PlaceIn, IsPowerOfTwo, PayloadAt, AlignUp, OrderedFree, GoodLive, LiveBytes, LiveSizes, FreeBytes, TakeBlock;
    var a := EffectiveAlignment(alignment);
    var k := FirstFit(s.free, size, a, 0);
    if size > 0 {
      if k < |s.free| {
        PayloadPositive(s, k, size, a);
      } else if AlignmentWraps(s.brk, a) {
        WrappedBump(s.brk, size, a);
      } else {
        BreakServes(s, size, alignment, pages);
      }
    }
  }

  // ----- Freeing -----

  /** Freeing a live pointer whose header is where `free` looks makes exactly its block free: nothing is lost, and
      no other live block, nor the break, changes. */
  lemma FreeReturnsBlock(s: State, k: nat, x: int)
    requires Inv(s) && k < |s.live| && s.live[k].payload == s.live[k].header + HEADER
    ensures var s' := Free(s, s.live[k].payload);
      && s'.live == s.live[..k] + s.live[k + 1..] && s'.lost == s.lost && s'.brk == s.brk && s'.mapped == s.mapped
      && (Covers(s'.free, x) <==>
            Covers(s.free, x) || s.live[k].header <= x < s.live[k].header + s.live[k].size)
  {
    hide IsPowerOfTwo, LiveBytes, LiveSizes, FreeBytes, ClearOf, OrderedFree, InsertFree, Covers;
    var al := s.live[k];
    assert GoodAlloc(al, s.start, s.brk);
    var j := FindHeader(s.live, al.header, 0);
    if j < k {
      InsideOneBlock(s, j, k);
    }
    ReleaseCovers(s.free, al.header, al.size, s.start, s.brk, x);
  }

  /** A pointer behind no live header changes nothing. */
  lemma ForeignFree(s: State, ptr: int)
    requires ptr == 0 || forall k :: 0 <= k < |s.live| ==> s.live[k].header != ptr - HEADER
    ensures Free(s, ptr) == s
  {
  }

  // ----- Start-up -----

  /** A new heap spans the pages between its bounds rounded up, with nothing mapped, free or live. */
  lemma NewHeapSpans(heapStart: int, heapLimit: int)
    requires 0 <= heapStart <= TWO32 - PAGE && 0 <= heapLimit <= TWO32 - PAGE
    ensures var s := Init(heapStart, heapLimit);
      && s.start == s.brk == s.mapped == Above(heapStart, PAGE)
      && s.limit == Max(Above(heapStart, PAGE), Above(heapLimit, PAGE))
      && s.free == [] && s.live == [] && s.active == 0 && s.lost == 0
  {
    hide AlignUp, Above;
    AlignUpIsAbove(heapStart, PAGE);
    AlignUpIsAbove(heapLimit, PAGE);
  }
}
