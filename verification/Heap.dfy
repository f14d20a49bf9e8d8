/** The kernel heap as a state machine: a sorted, coalescing free list in front
    of a region that grows by moving a break.  Addresses are 32-bit and every
    addition the source does in `uint32_t` wraps here too. */
module Heap {
  import opened Bytes

  const HEADER: int := 16
  const MIN_FREE: int := 8
  const PAGE: int := 4096

  datatype Block = Block(start: int, size: int)

  /** A header with its magic in place.  `payload` and `align` are not stored by the
      source; they record what the allocation returned and was asked for. */
  datatype Alloc = Alloc(header: int, size: int, payload: int, bytes: int, align: int)

  /** `lost` counts the bytes below the break that are neither live nor free. */
  datatype State = State(
    start: int, limit: int, brk: int, mapped: int, free: seq<Block>, live: seq<Alloc>, active: int, lost: int)

  function Wrap(x: int): int
  {
    x % TWO32
  }

  /** `(v + a - 1) & ~(a - 1)` in 32 bits, for a power of two `a`. */
  function AlignUp(v: int, a: int): int
    requires a > 0
  {
    var w := Wrap(v + a - 1);
    w - w % a
  }

  predicate IsPowerOfTwo(a: int)
  {
    a == 1 || (a > 1 && a % 2 == 0 && IsPowerOfTwo(a / 2))
  }

  function End(b: Block): int
  {
    b.start + b.size
  }

  // ----- Free list -----

  function MergeNext(b: Block, fl: seq<Block>): seq<Block>
  {
    if fl != [] && Wrap(End(b)) == fl[0].start then [Block(b.start, b.size + fl[0].size)] + fl[1..] else [b] + fl
  }

  /** Insertion by address, merging with the block before and the block after. */
  function InsertFree(fl: seq<Block>, b: Block): seq<Block>
  {
    if fl == [] || fl[0].start >= b.start then MergeNext(b, fl)
    else if |fl| > 1 && fl[1].start < b.start then [fl[0]] + InsertFree(fl[1..], b)
    else if Wrap(End(fl[0])) == b.start then MergeNext(Block(fl[0].start, fl[0].size + b.size), fl[1..])
    else [fl[0]] + MergeNext(b, fl[1..])
  }

  /** A remainder too small to hold a list node is not inserted. */
  function Release(fl: seq<Block>, start: int, size: int): seq<Block>
  {
    if size < MIN_FREE then fl else InsertFree(fl, Block(start, size))
  }

  datatype Placement = Placement(header: int, payload: int, end: int)

  /** Where an allocation would go inside a free block, if the block is accepted. */
  function PlaceIn(b: Block, size: int, a: int): Option<Placement>
    requires a > 0
  {
    var end := Wrap(End(b));
    var h0 := AlignUp(Wrap(b.start + HEADER), a);
    var h1 := if h0 < b.start then b.start else h0;
    var p0 := AlignUp(Wrap(h1 + HEADER), a);
    var tight := p0 < Wrap(h1 + HEADER);
    var payload := if tight then AlignUp(Wrap(b.start + HEADER), a) else p0;
    var header := if tight then Wrap(payload - HEADER) else h1;
    if header < b.start then None
    else if Wrap(payload + size) > end then None
    else if 0 < header - b.start < MIN_FREE then
      var payload := AlignUp(Wrap(b.start + HEADER), a);
      if Wrap(payload + size) > end then None else Some(AbsorbSuffix(b.start, payload, Wrap(payload + size), end))
    else Some(AbsorbSuffix(header, payload, Wrap(payload + size), end))
  }

  /** A suffix too small for a list node stays with the allocation. */
  function AbsorbSuffix(header: int, payload: int, allocEnd: int, end: int): Placement
  {
    Placement(header, payload, if 0 < end - allocEnd < MIN_FREE then end else allocEnd)
  }

  /** The first accepted block from index `i` on. */
  function FirstFit(fl: seq<Block>, size: int, a: int, i: nat): (k: nat)
    requires a > 0 && i <= |fl|
    ensures i <= k <= |fl|
    ensures k < |fl| ==> PlaceIn(fl[k], size, a).Some?
    ensures forall j :: i <= j < k ==> PlaceIn(fl[j], size, a).None?
    decreases |fl| - i
  {
    if i == |fl| || PlaceIn(fl[i], size, a).Some? then i else FirstFit(fl, size, a, i + 1)
  }

  function FreeBytes(fl: seq<Block>): int
  {
    if fl == [] then 0 else fl[0].size + FreeBytes(fl[1..])
  }

  function LiveSizes(live: seq<Alloc>): int
  {
    if live == [] then 0 else LiveSizes(live[..|live| - 1]) + live[|live| - 1].size
  }

  function LiveBytes(live: seq<Alloc>): int
  {
    if live == [] then 0 else LiveBytes(live[..|live| - 1]) + live[|live| - 1].bytes
  }

  /** Takes block `k`.  The search never advances its predecessor pointer, so unlinking
      `k` makes its successor the head of the list and drops every block before it. */
  function TakeBlock(s: State, k: nat, pl: Placement, size: int, a: int): State
    requires k < |s.free|
  {
    var b := s.free[k];
    var rest := s.free[k + 1..];
    var withPrefix := Release(rest, b.start, pl.header - b.start);
    var withSuffix := Release(withPrefix, pl.end, Wrap(End(b)) - pl.end);
    s.(free := withSuffix,
       live := s.live + [Alloc(pl.header, Wrap(pl.end - pl.header), pl.payload, size, a)],
       active := Wrap(s.active + size),
       lost := s.lost + FreeBytes(s.free[..k]))
  }

  // ----- Growing region -----

  function BumpPlacement(brk: int, size: int, a: int): Placement
    requires a > 0
  {
    var h0 := AlignUp(Wrap(brk + HEADER), a);
    var h1 := if h0 < brk then brk else h0;
    var p0 := AlignUp(Wrap(h1 + HEADER), a);
    var tight := p0 < Wrap(h1 + HEADER);
    var payload := if tight then AlignUp(Wrap(brk + HEADER), a) else p0;
    var header := if tight then Wrap(payload - HEADER) else h1;
    Placement(header, payload, Wrap(payload + size))
  }

  /** How many pages must be mapped before `end` is covered. */
  function PagesNeeded(mapped: int, end: int): int
  {
    if mapped >= end then 0 else (end - mapped + PAGE - 1) / PAGE
  }

  /** `pages` bounds how many frames the page and frame allocators still grant. */
  function BumpAlloc(s: State, size: int, a: int, pages: nat): (State, int)
    requires a > 0
  {
    var pl := BumpPlacement(s.brk, size, a);
    var need := PagesNeeded(s.mapped, pl.end);
    if pl.end < pl.payload || pl.end > s.limit then (s, 0)
    else if pages < need then (s.(mapped := s.mapped + pages * PAGE), 0)
    else
      (s.(brk := pl.end,
          mapped := s.mapped + need * PAGE,
          live := s.live + [Alloc(pl.header, Wrap(pl.end - pl.header), pl.payload, size, a)],
          active := Wrap(s.active + size),
          lost := s.lost + (pl.header - s.brk)),
       pl.payload)
  }

  /** Allocation: the address returned is 0 on failure.  A free block whose payload address comes out as 0 is
      taken all the same, and the break is tried next. */
  function Allocate(s: State, size: nat, alignment: nat, pages: nat): (State, int)
  {
    var a := if alignment == 0 then 1 else alignment;
    if size == 0 then (s, 0) else
      var k := FirstFit(s.free, size, a, 0);
      if k < |s.free| then
        var pl := PlaceIn(s.free[k], size, a).value;
        var taken := TakeBlock(s, k, pl, size, a);
        if pl.payload != 0 then (taken, pl.payload) else BumpAlloc(taken, size, a, pages)
      else BumpAlloc(s, size, a, pages)
  }

  /** The live header at an address, or the length of the list. */
  function FindHeader(live: seq<Alloc>, addr: int, i: nat): (k: nat)
    requires i <= |live|
    ensures i <= k <= |live|
    ensures k < |live| ==> live[k].header == addr
    ensures forall j :: i <= j < k ==> live[j].header != addr
    decreases |live| - i
  {
    if i == |live| || live[i].header == addr then i else FindHeader(live, addr, i + 1)
  }

  function Without(live: seq<Alloc>, k: nat): seq<Alloc>
    requires k < |live|
  {
    live[..k] + live[k + 1..]
  }

  /** Freeing looks for a header sixteen bytes below the pointer and does nothing without one. */
  function Free(s: State, ptr: int): State
  {
    var k := FindHeader(s.live, ptr - HEADER, 0);
    if ptr == 0 || k == |s.live| then s else
      var al := s.live[k];
      s.(free := Release(s.free, al.header, al.size),
         live := Without(s.live, k),
         active := if s.active >= al.bytes then s.active - al.bytes else 0,
         lost := if al.size < MIN_FREE then s.lost + al.size else s.lost)
  }

  function Init(heapStart: int, heapLimit: int): State
  {
    var start := AlignUp(heapStart, PAGE);
    var limit := AlignUp(heapLimit, PAGE);
    State(start, if limit <= start then start else limit, start, start, [], [], 0, 0)
  }

  // ----- Invariant -----

  predicate Apart(lo: int, hi: int, lo': int, hi': int)
  {
    hi <= lo' || hi' <= lo
  }

  /** Blocks lie in [lo, hi), in strict address order, no two adjacent. */
  predicate OrderedFree(fl: seq<Block>, lo: int, hi: int)
  {
    && (forall i :: 0 <= i < |fl| ==> lo <= fl[i].start && MIN_FREE <= fl[i].size && End(fl[i]) <= hi)
    && (forall i, j :: 0 <= i < j < |fl| ==> End(fl[i]) < fl[j].start)
  }

  predicate ClearOf(fl: seq<Block>, lo: int, hi: int)
  {
    forall i :: 0 <= i < |fl| ==> Apart(fl[i].start, End(fl[i]), lo, hi)
  }

  /** A live block lies in [lo, hi), holds its header and its payload, the payload is aligned, and it sits right
      behind the header unless the alignment is larger than the header. */
  predicate GoodAlloc(al: Alloc, lo: int, hi: int)
  {
    && lo <= al.header && al.header + al.size <= hi
    && 0 < al.bytes
    && al.header + HEADER <= al.payload && al.payload + al.bytes <= al.header + al.size
    && IsPowerOfTwo(al.align) && al.payload % al.align == 0
    && (al.align <= HEADER ==> al.payload == al.header + HEADER)
  }

  predicate GoodLive(live: seq<Alloc>, fl: seq<Block>, lo: int, hi: int)
  {
    && (forall i :: 0 <= i < |live| ==>
          GoodAlloc(live[i], lo, hi) && ClearOf(fl, live[i].header, live[i].header + live[i].size))
    && (forall i, j :: 0 <= i < j < |live| ==>
          Apart(live[i].header, live[i].header + live[i].size, live[j].header, live[j].header + live[j].size))
  }

  predicate Geometry(s: State)
  {
    && 0 <= s.start <= s.brk <= s.mapped <= s.limit < TWO32
    && s.start % PAGE == 0 && s.mapped % PAGE == 0 && s.limit % PAGE == 0
  }

  /** Free and live blocks are disjoint parts of the used region, the free list is ordered and coalesced,
      `active` is the number of live payload bytes, and every byte below the break is accounted for. */
  predicate Inv(s: State)
  {
    && Geometry(s)
    && OrderedFree(s.free, s.start, s.brk)
    && GoodLive(s.live, s.free, s.start, s.brk)
    && s.active == LiveBytes(s.live)
    && 0 <= s.lost
    && LiveSizes(s.live) + FreeBytes(s.free) + s.lost == s.brk - s.start
  }
}
