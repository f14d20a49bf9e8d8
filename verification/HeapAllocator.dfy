/** The allocator itself, updating its globals in place.  Every operation is
    proved to be the corresponding step of the `Heap` state machine. */
module HeapAllocator {
  import opened Bytes
  import opened Heap
  import opened HeapSafety

  /** Where insertion puts a block, given the position the search loop stops at. */
  lemma {:induction false} InsertAt(fl: seq<Block>, b: Block, i: nat)
    requires i <= |fl| && (forall j :: 0 <= j < i ==> fl[j].start < b.start)
    requires i < |fl| ==> fl[i].start >= b.start
    ensures InsertFree(fl, b) ==
      if i == 0 then MergeNext(b, fl)
      else if Wrap(End(fl[i - 1])) == b.start then
        fl[..i - 1] + MergeNext(Block(fl[i - 1].start, fl[i - 1].size + b.size), fl[i..])
      else fl[..i] + MergeNext(b, fl[i..])
  {
    hide MergeNext, End, Wrap;
    if i > 1 {
      var rest := fl[1..];
      InsertAt(rest, b, i - 1);
      assert rest[i - 2] == fl[i - 1] && rest[i - 1..] == fl[i..];
      assert [fl[0]] + rest[..i - 2] == fl[..i - 1];
      assert [fl[0]] + rest[..i - 1] == fl[..i];
    } else if i == 1 {
      assert fl[..1] == [fl[0]];
    }
  }

  class KernelHeap {
    var heapStart: int
    var heapLimit: int
    var heapBreak: int
    var mappedEnd: int
    var freeList: seq<Block>
    var headers: seq<Alloc>
    var activeBytes: int
    ghost var lost: int

    /** The abstract state. */
    ghost function Abs(): State
      reads this
    {
      State(heapStart, heapLimit, heapBreak, mappedEnd, freeList, headers, activeBytes, lost)
    }

    constructor (start: int, limit: int)
      ensures Abs() == Init(start, limit)
    {
      var s := AlignUp(start, PAGE);
      var l := AlignUp(limit, PAGE);
      if l <= s {
        l := s;
      }
      heapStart, heapLimit, heapBreak, mappedEnd := s, l, s, s;
      freeList, headers, activeBytes, lost := [], [], 0, 0;
    }

    method InsertFreeBlock(start: int, size: int)
      modifies this`freeList
      ensures freeList == Release(old(freeList), start, size)
    {
      if size < MIN_FREE {
        return;
      }
      var node := Block(start, size);
      var i := 0;
      while i < |freeList| && freeList[i].start < start
        invariant 0 <= i <= |freeList| && freeList == old(freeList)
        invariant forall j :: 0 <= j < i ==> freeList[j].start < start
      {
        i := i + 1;
      }
      InsertAt(freeList, node, i);
      var front, rest := freeList[..i], freeList[i..];
      if i > 0 && Wrap(End(freeList[i - 1])) == start {
        node := Block(freeList[i - 1].start, freeList[i - 1].size + size);
        front := freeList[..i - 1];
      }
      if rest != [] && Wrap(End(node)) == rest[0].start {
        node := Block(node.start, node.size + rest[0].size);
        rest := rest[1..];
      }
      freeList := front + ([node] + rest);
      assert i == 0 ==> freeList == [node] + rest;
    }

    /** First fit; see `TakeBlock` for what happens to the blocks before the chosen one. */
    method AllocateFromFreeList(size: nat, a: int) returns (ptr: int)
      requires a > 0
      modifies this
      ensures var s := old(Abs());
        var k := FirstFit(s.free, size, a, 0);
        if k < |s.free| then
          var pl := PlaceIn(s.free[k], size, a).value;
          Abs() == TakeBlock(s, k, pl, size, a) && ptr == pl.payload
        else Abs() == s && ptr == 0
    {
      hide PlaceIn, Release;
      var k := 0;
      while k < |freeList|
        invariant 0 <= k <= |freeList| && Abs() == old(Abs())
        invariant FirstFit(freeList, size, a, 0) == FirstFit(freeList, size, a, k)
      {
        var placed := PlaceIn(freeList[k], size, a);
        if placed.Some? {
          var b, pl := freeList[k], placed.value;
          lost := lost + FreeBytes(freeList[..k]);
          freeList := freeList[k + 1..];
          InsertFreeBlock(b.start, pl.header - b.start);
          InsertFreeBlock(pl.end, Wrap(End(b)) - pl.end);
          headers := headers + [Alloc(pl.header, Wrap(pl.end - pl.header), pl.payload, size, a)];
          activeBytes := Wrap(activeBytes + size);
          return pl.payload;
        }
        k := k + 1;
      }
      return 0;
    }

    /** Maps pages until `end` is covered, as long as frames are granted. */
    method MapUpTo(end: int, pages: nat) returns (ok: bool)
      requires end <= heapLimit
      modifies this`mappedEnd
      ensures ok <==> PagesNeeded(old(mappedEnd), end) <= pages
      ensures mappedEnd == old(mappedEnd) + (if ok then PagesNeeded(old(mappedEnd), end) else pages) * PAGE
    {
      var granted: nat := 0;
      while mappedEnd < end
        invariant mappedEnd == old(mappedEnd) + granted * PAGE
        invariant granted <= pages && granted <= PagesNeeded(old(mappedEnd), end)
        decreases end - mappedEnd
      {
        if mappedEnd >= heapLimit || granted == pages {
          return false;
        }
        mappedEnd := mappedEnd + PAGE;
        granted := granted + 1;
      }
      return true;
    }

    method AllocateFromBump(size: nat, a: int, pages: nat) returns (ptr: int)
      requires a > 0
      modifies this
      ensures (Abs(), ptr) == BumpAlloc(old(Abs()), size, a, pages)
    {
      hide BumpPlacement, PagesNeeded;
      var pl := BumpPlacement(heapBreak, size, a);
      if pl.end < pl.payload || pl.end > heapLimit {
        return 0;
      }
      var ok := MapUpTo(pl.end, pages);
      if !ok {
        return 0;
      }
      lost := lost + (pl.header - heapBreak);
      heapBreak := pl.end;
      headers := headers + [Alloc(pl.header, Wrap(pl.end - pl.header), pl.payload, size, a)];
      activeBytes := Wrap(activeBytes + size);
      return pl.payload;
    }

    /** Allocation steps the state machine; it keeps the invariant exactly when nothing wraps where it lands. */
    method Allocate(size: nat, alignment: nat, pages: nat) returns (ptr: int)
      modifies this
      ensures (Abs(), ptr) == Heap.Allocate(old(Abs()), size, alignment, pages)
      ensures old(Inv(Abs())) && ValidRequest(size, EffectiveAlignment(alignment)) ==>
        (Inv(Abs()) <==> !old(Breaks(Abs(), size, EffectiveAlignment(alignment), pages)))
    {
      hide Inv, ValidRequest, PlaceIn, TakeBlock, BumpAlloc, Breaks;
      var a := EffectiveAlignment(alignment);
      if Inv(Abs()) && ValidRequest(size, a) {
        AllocateKeepsInv(Abs(), size, alignment, pages);
      }
      if size == 0 {
        return 0;
      }
      ptr := AllocateFromFreeList(size, a);
      if ptr != 0 {
        return;
      }
      ptr := AllocateFromBump(size, a, pages);
    }

    /** Freeing steps the state machine and always keeps its invariant. */
    method Free(ptr: int)
      requires Inv(Abs())
      modifies this
      ensures Abs() == Heap.Free(old(Abs()), ptr) && Inv(Abs())
    {
      hide Inv, Release;
      FreeKeepsInv(Abs(), ptr);
      if ptr == 0 {
        return;
      }
      var k := FindHeader(headers, ptr - HEADER, 0);
      if k == |headers| {
        return;
      }
      var al := headers[k];
      if activeBytes >= al.bytes {
        activeBytes := activeBytes - al.bytes;
      } else {
        activeBytes := 0;
      }
      headers := headers[..k] + headers[k + 1..];
      lost := if al.size < MIN_FREE then lost + al.size else lost;
      InsertFreeBlock(al.header, al.size);
    }

    method UsedBytes() returns (n: int)
      requires Inv(Abs())
      ensures n == LiveBytes(headers)
    {
      n := activeBytes;
    }
  }
}
