/** Growing the kernel heap: a frame from the allocator is mapped at the heap's end. */
module HeapGrowth {
  import opened Bytes
  import opened Frames
  import opened FrameAllocator
  import Paging
  import PageTables

  /** The heap's pages are mapped writable, kernel only, to frames that are distinct and not free. */
  ghost predicate Backed(vm: Paging.Vm, free: set<Frame>, first: nat, end: nat)
    requires Paging.Inv(vm)
  {
    && first <= end <= Paging.PAGES
    && (forall p: Paging.Page :: first <= p < end ==> BackedAt(vm, free, p))
    && (forall p: Paging.Page, q: Paging.Page :: first <= p < q < end ==> Paging.Lookup(vm, p) != Paging.Lookup(vm, q))
  }

  ghost predicate BackedAt(vm: Paging.Vm, free: set<Frame>, p: Paging.Page)
    requires Paging.Inv(vm)
  {
    var e := Paging.Lookup(vm, p);
    e.Present? && e.write && !e.user && e.frame < MAX_FRAMES && e.frame !in free
  }

  lemma GrowKeepsBacked(vm: Paging.Vm, free: set<Frame>, first: nat, end: Paging.Page, f: Frame)
    requires Paging.Inv(vm) && Backed(vm, free, first, end) && f in free
    requires Paging.MapPage(vm, end, f, true, false).1
    ensures
      var after := Paging.MapPage(vm, end, f, true, false).0;
      Paging.Inv(after) && Backed(after, free - {f}, first, end + 1)
  {
    hide Paging.MapPage, Paging.Lookup, Paging.Inv;
    var after := Paging.MapPage(vm, end, f, true, false).0;
    Paging.MapLookup(vm, end, f, true, false, end);
    forall q: Paging.Page
      ensures Paging.Lookup(after, q) == if q == end then Paging.Present(f, true, false) else Paging.Lookup(vm, q)
    {
      Paging.MapLookup(vm, end, f, true, false, q);
    }
    forall p: Paging.Page | first <= p < end + 1 ensures BackedAt(after, free - {f}, p) {
      assert p < end ==> BackedAt(vm, free, p);
    }
    forall p: Paging.Page, q: Paging.Page | first <= p < q < end + 1
      ensures Paging.Lookup(after, p) != Paging.Lookup(after, q)
    {
      assert BackedAt(vm, free, p);
    }
  }

  /** The bitmap and the page tables are different storage. */
  ghost predicate Apart(frames: Allocator, paging: PageTables.KernelPaging)
  {
    {frames.bitmap as object} !! {paging.dir as object, paging.ptes, paging.tableFor}
  }

  /** One more heap page, or nothing: a frame that cannot be mapped goes back to the allocator. */
  method MapNextHeapPage(frames: Allocator, paging: PageTables.KernelPaging, ghost first: nat, mappedEnd: Address,
                         limit: nat)
      returns (ok: bool, end: nat)
    requires frames.Valid() && paging.Valid() && Apart(frames, paging) && 0 !in frames.Free()
    requires mappedEnd % PAGE == 0 && limit < 0x1_0000_0000
    requires Backed(paging.View(), frames.Free(), first, mappedEnd / PAGE)
    modifies frames, frames.bitmap, paging, paging.dir, paging.ptes, paging.tableFor
    ensures frames.Valid() && paging.Valid() && 0 !in frames.Free()
    ensures Backed(paging.View(), frames.Free(), first, end / PAGE)
    ensures ok <==>
      && mappedEnd < limit && old(frames.Free()) != {}
      && (old(paging.View()).dir[mappedEnd / PAGE / Paging.ENTRIES].Table? || old(paging.inUse) < Paging.MAX_TABLES)
    ensures ok ==> end == mappedEnd + PAGE && |frames.Free()| == |old(frames.Free())| - 1
    ensures !ok ==> end == mappedEnd && frames.Free() == old(frames.Free()) && paging.View() == old(paging.View())
  {
    hide Paging.Inv, Backed, FreeSet, Paging.MapPage;
    ghost var vm, free := paging.View(), frames.Free();
    DirectorySize(vm);
    if mappedEnd >= limit {
      return false, mappedEnd;
    }
    var frame := frames.AllocFrame();
    if frame == 0 {
      return false, mappedEnd;
    }
    ghost var f: Frame := frame / PAGE;
    Paging.MapLookup(vm, mappedEnd / PAGE, f, true, false, 0);
    if Paging.MapPage(vm, mappedEnd / PAGE, f, true, false).1 {
      GrowKeepsBacked(vm, free, first, mappedEnd / PAGE, f);
    }
    ok := paging.MapPage(mappedEnd, frame, true, false);
    if !ok {
      frames.FreeFrame(frame);
      assert free - {f} + {f} == free;
      return false, mappedEnd;
    }
    return true, mappedEnd + PAGE;
  }

  lemma DirectorySize(vm: Paging.Vm)
    requires Paging.Inv(vm)
    ensures |vm.dir| == Paging.ENTRIES
  {
  }
}
