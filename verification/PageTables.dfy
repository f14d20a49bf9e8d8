/** The kernel's page tables, changed in place. */
module PageTables {
  import opened Bytes
  import opened Paging

  class KernelPaging {
    const dir: array<DirEntry>
    const ptes: array<Pte>
    const tableFor: array<nat>
    var inUse: nat

    ghost function View(): Vm
      reads this, dir, ptes, tableFor
    {
      Vm(dir[..], ptes[..], tableFor[..], inUse)
    }

    ghost predicate Valid()
      reads this, dir, ptes, tableFor
    {
      Inv(View())
    }

    /** Empties the directory and maps the first 64 MiB to themselves, writable, kernel only. */
    constructor ()
      ensures Valid() && fresh(dir) && fresh(ptes) && fresh(tableFor)
      ensures IdentityMapped(View(), IDENTITY_PAGES) && inUse == 16
    {
      dir := new DirEntry[ENTRIES](i => Empty);
      ptes := new Pte[MAX_TABLES * ENTRIES](i => Absent);
      tableFor := new nat[ENTRIES](i => NO_TABLE);
      inUse := 0;
      new;
      assert View() == BLANK;
      BlankMapsNothing();
      IdentityMap();
    }

    method IdentityMap()
      requires View() == BLANK
      modifies this, dir, ptes, tableFor
      ensures Valid() && IdentityMapped(View(), IDENTITY_PAGES) && inUse == 16
    {
      hide Inv, Lookup, IdentityMapped, Paging.MapPage, View, TablesUpTo;
      BlankMapsNothing();
      var addr, n := 0, 0;
      while addr < 64 * 1024 * 1024
        invariant addr == n * PAGE && n <= IDENTITY_PAGES
        invariant Valid() && IdentityMapped(View(), n) && TablesUpTo(View(), (n + 1023) / 1024)
      {
        MapNext(View(), n);
        var ok := MapPage(addr, addr, true, false);
        addr := addr + PAGE;
        n := n + 1;
      }
      InUseIs();
    }

    lemma InUseIs()
      requires Valid() && TablesUpTo(View(), 16)
      ensures inUse == 16
    {
    }

    /** Clears the next table of the pool and takes it. */
    method AllocPageTable() returns (index: Option<nat>)
      requires Valid()
      modifies this, ptes
      ensures index.Some? <==> old(inUse) < MAX_TABLES
      ensures index.Some? ==>
        && index.value == old(inUse) && inUse == old(inUse) + 1
        && ptes[..] == Cleared(old(ptes[..]), old(inUse) * ENTRIES)
      ensures index.None? ==> View() == old(View())
    {
      if inUse >= MAX_TABLES {
        return None;
      }
      var start := inUse * ENTRIES;
      for i := 0 to ENTRIES
        invariant inUse == old(inUse)
        invariant forall k :: start <= k < start + i ==> ptes[k] == Absent
        invariant forall k :: 0 <= k < ptes.Length && !(start <= k < start + i) ==> ptes[k] == old(ptes[k])
      {
        ptes[start + i] := Absent;
      }
      assert ptes[..] == Cleared(old(ptes[..]), start);
      inUse := inUse + 1;
      return Some(inUse - 1);
    }

    /** Gives a directory entry a table of its own. */
    method PlaceTable(d: nat, write: bool, user: bool) returns (index: Option<nat>)
      requires Valid() && d < ENTRIES
      modifies this, dir, ptes, tableFor
      ensures index.Some? <==> old(inUse) < MAX_TABLES
      ensures index.Some? ==> index.value == old(inUse) && View() == AddTable(old(View()), d, write, user)
      ensures index.None? ==> View() == old(View())
    {
      hide Cleared;
      index := AllocPageTable();
      if index.Some? {
        tableFor[d] := index.value;
        dir[d] := Table(index.value, write, user);
      }
    }

    method MapPage(virt: nat, phys: nat, write: bool, user: bool) returns (ok: bool)
      requires Valid() && virt < PAGES * PAGE
      modifies this, dir, ptes, tableFor
      ensures Valid() && (View(), ok) == Paging.MapPage(old(View()), virt / PAGE, phys / PAGE, write, user)
    {
      var d, t := virt / 0x40_0000 % ENTRIES, virt / PAGE % ENTRIES;
      DirectoryIndex(virt);
      MapPageIs(View(), virt / PAGE, phys / PAGE, write, user);
      hide Inv, AddTable, Paging.MapPage;
      var table := tableFor[d];
      if table == NO_TABLE {
        var taken := PlaceTable(d, write, user);
        if taken.None? {
          return false;
        }
        table := taken.value;
      }
      StoreEntry(table * ENTRIES + t, Present(phys / PAGE, write, user));
      return true;
    }

    method StoreEntry(k: nat, e: Pte)
      requires k < ptes.Length
      modifies ptes
      ensures View() == old(View()).(ptes := old(View()).ptes[k := e])
    {
      ptes[k] := e;
    }

    method UnmapPage(virt: nat) returns (ok: bool)
      requires Valid() && virt < PAGES * PAGE
      modifies ptes
      ensures Valid() && (View(), ok) == Paging.UnmapPage(old(View()), virt / PAGE)
    {
      var d, t := virt / 0x40_0000 % ENTRIES, virt / PAGE % ENTRIES;
      DirectoryIndex(virt);
      UnmapLookup(View(), virt / PAGE, 0);
      if tableFor[d] == NO_TABLE {
        return false;
      }
      SlotBound(View(), virt / PAGE);
      var k := tableFor[d] * ENTRIES + t;
      if ptes[k].Absent? {
        return false;
      }
      ptes[k] := Absent;
      return true;
    }

    method VirtToPhys(virt: nat) returns (phys: nat)
      requires Valid() && virt < PAGES * PAGE
      ensures phys == Paging.VirtToPhys(View(), virt)
    {
      var d, t := virt / 0x40_0000 % ENTRIES, virt / PAGE % ENTRIES;
      DirectoryIndex(virt);
      if tableFor[d] == NO_TABLE {
        return 0;
      }
      SlotBound(View(), virt / PAGE);
      var e := ptes[tableFor[d] * ENTRIES + t];
      if e.Absent? {
        return 0;
      }
      return e.frame * PAGE + virt % PAGE;
    }

    /** A new address space starts as a copy of the kernel's directory. */
    method CloneDirectory(memory: bool) returns (clone: Option<seq<DirEntry>>)
      requires Valid()
      ensures clone == if memory then Some(View().dir) else None
    {
      if !memory {
        return None;
      }
      var copy: seq<DirEntry> := [];
      for i := 0 to ENTRIES
        invariant copy == dir[..][..i]
      {
        copy := copy + [dir[i]];
      }
      assert dir[..][..ENTRIES] == dir[..];
      return Some(copy);
    }
  }

  lemma DirectoryIndex(virt: nat)
    requires virt < PAGES * PAGE
    ensures virt / 0x40_0000 % ENTRIES == virt / PAGE / ENTRIES && virt / PAGE < PAGES
  {
    assert virt / 0x40_0000 == virt / PAGE / ENTRIES;
  }

  /** Mapping a page, with the table and the entry spelled out. */
  lemma MapPageIs(vm: Vm, p: Page, frame: nat, write: bool, user: bool)
    requires Inv(vm)
    ensures |vm.tableFor| == ENTRIES && Inv(MapPage(vm, p, frame, write, user).0)
    ensures
      var d := p / ENTRIES;
      var missing := vm.tableFor[d] == NO_TABLE;
      if missing && vm.inUse >= MAX_TABLES then MapPage(vm, p, frame, write, user) == (vm, false)
      else
        var a := if missing then AddTable(vm, d, write, user) else vm;
        var k := (if missing then vm.inUse else vm.tableFor[d]) * ENTRIES + p % ENTRIES;
        && k < |a.ptes|
        && MapPage(vm, p, frame, write, user) == (a.(ptes := a.ptes[k := Present(frame, write, user)]), true)
  {
    hide Cleared;
    MapLookup(vm, p, frame, write, user, 0);
    if vm.tableFor[p / ENTRIES] != NO_TABLE || vm.inUse < MAX_TABLES {
      TableThere(vm, p, write, user);
    }
  }

  /** The first `n` directory entries have tables, the others none. */
  ghost predicate TablesUpTo(vm: Vm, n: nat)
    requires Inv(vm)
  {
    vm.inUse == n && |vm.dir| == ENTRIES && forall d :: 0 <= d < ENTRIES ==> (vm.dir[d].Table? <==> d < n)
  }

  lemma BlankMapsNothing()
    ensures Inv(BLANK) && IdentityMapped(BLANK, 0) && TablesUpTo(BLANK, 0)
  {
  }

  lemma MapTables(vm: Vm, p: Page, frame: nat, write: bool, user: bool)
    requires Inv(vm) && MapPage(vm, p, frame, write, user).1
    ensures
      var after := MapPage(vm, p, frame, write, user).0;
      var entry := vm.dir[p / ENTRIES];
      && after.inUse == vm.inUse + (if entry.Empty? then 1 else 0)
      && after.dir == if entry.Empty? then vm.dir[p / ENTRIES := Table(vm.inUse, write, user)] else vm.dir
  {
    hide Slot, Cleared;
  }

  lemma MapNext(vm: Vm, n: nat)
    requires Inv(vm) && n < IDENTITY_PAGES && IdentityMapped(vm, n) && TablesUpTo(vm, (n + 1023) / 1024)
    ensures
      var (after, ok) := MapPage(vm, n, n, true, false);
      ok && Inv(after) && IdentityMapped(after, n + 1) && TablesUpTo(after, (n + 1 + 1023) / 1024)
  {
    hide MapPage, Lookup;
    var (after, ok) := MapPage(vm, n, n, true, false);
    MapLookup(vm, n, n, true, false, n);
    forall q: Page ensures Lookup(after, q) == if q < n + 1 then Present(q, true, false) else Absent {
      MapLookup(vm, n, n, true, false, q);
    }
    MapTables(vm, n, n, true, false);
  }
}
