/** Two-level page tables, and the page map they stand for. */
module Paging {
  import opened Bytes

  const ENTRIES: nat := 1024
  const MAX_TABLES: nat := 64
  const NO_TABLE: nat := 0xFFFF
  const PAGE: nat := 4096
  const PAGES: nat := 0x10_0000

  datatype Pte = Absent | Present(frame: nat, write: bool, user: bool)
  datatype DirEntry = Empty | Table(index: nat, write: bool, user: bool)

  /** The page directory, the pool of tables laid end to end, and the table each directory entry uses. */
  datatype Vm = Vm(dir: seq<DirEntry>, ptes: seq<Pte>, tableFor: seq<nat>, inUse: nat)

  type Page = p: nat | p < PAGES

  predicate Inv(vm: Vm)
  {
    && |vm.dir| == ENTRIES && |vm.tableFor| == ENTRIES && |vm.ptes| == MAX_TABLES * ENTRIES
    && vm.inUse <= MAX_TABLES
    && (forall d :: 0 <= d < ENTRIES ==> vm.tableFor[d] == NO_TABLE || vm.tableFor[d] < vm.inUse)
    && (forall d, e :: 0 <= d < ENTRIES && 0 <= e < ENTRIES && vm.tableFor[d] != NO_TABLE ==>
          vm.tableFor[d] == vm.tableFor[e] ==> d == e)
    && (forall d :: 0 <= d < ENTRIES ==> (vm.dir[d].Empty? <==> vm.tableFor[d] == NO_TABLE))
    && (forall d :: 0 <= d < ENTRIES && vm.dir[d].Table? ==> vm.dir[d].index == vm.tableFor[d])
  }

  /** Where the entry of a page sits in the pool. */
  function Slot(vm: Vm, p: Page): nat
    requires Inv(vm) && vm.tableFor[p / ENTRIES] != NO_TABLE
  {
    vm.tableFor[p / ENTRIES] * ENTRIES + p % ENTRIES
  }

  lemma SlotBound(vm: Vm, p: Page)
    requires Inv(vm) && vm.tableFor[p / ENTRIES] != NO_TABLE
    ensures Slot(vm, p) < |vm.ptes|
  {
    assert vm.tableFor[p / ENTRIES] < vm.inUse;
  }

  function Lookup(vm: Vm, p: Page): Pte
    requires Inv(vm)
  {
    if vm.tableFor[p / ENTRIES] == NO_TABLE then Absent
    else
      SlotBound(vm, p);
      vm.ptes[Slot(vm, p)]
  }

  /** The page map the tables stand for. */
  ghost function Pages(vm: Vm): map<Page, Pte>
    requires Inv(vm)
  {
    map p: Page | 0 <= p < PAGES && Lookup(vm, p).Present? :: Lookup(vm, p)
  }

  // ----- Operations -----

  /** Fills a range of the pool with absent entries. */
  function Cleared(ptes: seq<Pte>, start: nat): (r: seq<Pte>)
    requires start + ENTRIES <= |ptes|
    ensures |r| == |ptes|
  {
    ptes[..start] + seq(ENTRIES, i => Absent) + ptes[start + ENTRIES..]
  }

  /** Takes the next table of the pool for a directory entry that has none. */
  function AddTable(vm: Vm, d: nat, write: bool, user: bool): Vm
    requires Inv(vm) && d < ENTRIES && vm.inUse < MAX_TABLES
  {
    Vm(vm.dir[d := Table(vm.inUse, write, user)], Cleared(vm.ptes, vm.inUse * ENTRIES),
      vm.tableFor[d := vm.inUse], vm.inUse + 1)
  }

  function MapPage(vm: Vm, p: Page, frame: nat, write: bool, user: bool): (Vm, bool)
    requires Inv(vm)
  {
    var d := p / ENTRIES;
    if vm.tableFor[d] == NO_TABLE && vm.inUse >= MAX_TABLES then (vm, false)
    else
      var a := if vm.tableFor[d] == NO_TABLE then AddTable(vm, d, write, user) else vm;
      TableThere(vm, p, write, user);
      (a.(ptes := a.ptes[Slot(a, p) := Present(frame, write, user)]), true)
  }

  function UnmapPage(vm: Vm, p: Page): (Vm, bool)
    requires Inv(vm)
  {
    if Lookup(vm, p).Absent? then (vm, false)
    else
      SlotBound(vm, p);
      (vm.(ptes := vm.ptes[Slot(vm, p) := Absent]), true)
  }

  /** The physical address of a virtual one; zero also stands for "not mapped". */
  function VirtToPhys(vm: Vm, virt: nat): nat
    requires Inv(vm) && virt < PAGES * PAGE
  {
    var e := Lookup(vm, virt / PAGE);
    if e.Absent? then 0 else e.frame * PAGE + virt % PAGE
  }

  // ----- Refinement of a map -----

  /** Distinct pages have distinct entries, because no table serves two directory entries. */
  lemma SlotsDistinct(vm: Vm, p: Page, q: Page)
    requires Inv(vm) && vm.tableFor[p / ENTRIES] != NO_TABLE && vm.tableFor[q / ENTRIES] != NO_TABLE
    requires Slot(vm, p) == Slot(vm, q)
    ensures p == q
  {
    var a, b := vm.tableFor[p / ENTRIES], vm.tableFor[q / ENTRIES];
    SameQuotient(a, p % ENTRIES, b, q % ENTRIES);
    assert p == p / ENTRIES * ENTRIES + p % ENTRIES;
  }

  lemma SameQuotient(a: nat, x: nat, b: nat, y: nat)
    requires x < ENTRIES && y < ENTRIES && a * ENTRIES + x == b * ENTRIES + y
    ensures a == b && x == y
  {
  }

  lemma AddTableKeepsInv(vm: Vm, d: nat, write: bool, user: bool)
    requires Inv(vm) && d < ENTRIES && vm.inUse < MAX_TABLES && vm.tableFor[d] == NO_TABLE
    ensures Inv(AddTable(vm, d, write, user))
  {
    hide Cleared;
  }

  /** Clearing the next table disturbs no page, and the new table maps nothing. */
  lemma AddTableMapsNothing(vm: Vm, d: nat, write: bool, user: bool, q: Page)
    requires Inv(vm) && d < ENTRIES && vm.inUse < MAX_TABLES && vm.tableFor[d] == NO_TABLE
    ensures Inv(AddTable(vm, d, write, user))
    ensures Lookup(AddTable(vm, d, write, user), q) == Lookup(vm, q)
  {
    AddTableKeepsInv(vm, d, write, user);
    var a := AddTable(vm, d, write, user);
    if q / ENTRIES != d && vm.tableFor[q / ENTRIES] != NO_TABLE {
      SlotBound(vm, q);
      assert vm.tableFor[q / ENTRIES] < vm.inUse;
      assert Slot(vm, q) < vm.inUse * ENTRIES;
    }
  }

  lemma TableThere(vm: Vm, p: Page, write: bool, user: bool)
    requires Inv(vm) && (vm.tableFor[p / ENTRIES] == NO_TABLE ==> vm.inUse < MAX_TABLES)
    ensures
      var a := if vm.tableFor[p / ENTRIES] == NO_TABLE then AddTable(vm, p / ENTRIES, write, user) else vm;
      Inv(a) && a.tableFor[p / ENTRIES] != NO_TABLE && Slot(a, p) < |a.ptes|
  {
    hide Cleared;
    if vm.tableFor[p / ENTRIES] == NO_TABLE {
      AddTableKeepsInv(vm, p / ENTRIES, write, user);
      SlotBound(AddTable(vm, p / ENTRIES, write, user), p);
    } else {
      SlotBound(vm, p);
    }
  }

  lemma StoreEntry(vm: Vm, p: Page, e: Pte, q: Page)
    requires Inv(vm) && vm.tableFor[p / ENTRIES] != NO_TABLE && Slot(vm, p) < |vm.ptes|
    ensures Inv(vm.(ptes := vm.ptes[Slot(vm, p) := e]))
    ensures Lookup(vm.(ptes := vm.ptes[Slot(vm, p) := e]), q) == if q == p then e else Lookup(vm, q)
  {
    if vm.tableFor[q / ENTRIES] != NO_TABLE && Slot(vm, p) == Slot(vm, q) {
      SlotsDistinct(vm, p, q);
    }
  }

  /** Mapping a page updates the map at that page only; it fails, changing nothing, exactly when it needs
      a table and the pool is used up. */
  lemma MapLookup(vm: Vm, p: Page, frame: nat, write: bool, user: bool, q: Page)
    requires Inv(vm)
    ensures
      var (after, ok) := MapPage(vm, p, frame, write, user);
      && Inv(after)
      && (ok <==> vm.dir[p / ENTRIES].Table? || vm.inUse < MAX_TABLES)
      && (!ok ==> after == vm)
      && (ok ==> Lookup(after, q) == if q == p then Present(frame, write, user) else Lookup(vm, q))
  {
    hide Slot, AddTable, Lookup;
    if vm.tableFor[p / ENTRIES] != NO_TABLE || vm.inUse < MAX_TABLES {
      TableThere(vm, p, write, user);
      var a := if vm.tableFor[p / ENTRIES] == NO_TABLE then AddTable(vm, p / ENTRIES, write, user) else vm;
      StoreEntry(a, p, Present(frame, write, user), q);
      if vm.tableFor[p / ENTRIES] == NO_TABLE {
        AddTableMapsNothing(vm, p / ENTRIES, write, user, q);
      }
    }
  }

  lemma UnmapLookup(vm: Vm, p: Page, q: Page)
    requires Inv(vm)
    ensures
      var (after, ok) := UnmapPage(vm, p);
      && Inv(after) && (ok <==> Lookup(vm, p).Present?) && (!ok ==> after == vm)
      && Lookup(after, q) == if q == p then Absent else Lookup(vm, q)
  {
    hide Slot;
    if Lookup(vm, p).Present? {
      SlotBound(vm, p);
      StoreEntry(vm, p, Absent, q);
    }
  }

  /** On the page map, mapping is update, unmapping is removal. */
  lemma MapRefines(vm: Vm, p: Page, frame: nat, write: bool, user: bool)
    requires Inv(vm)
    ensures
      var (after, ok) := MapPage(vm, p, frame, write, user);
      && Inv(after)
      && Pages(after) == if ok then Pages(vm)[p := Present(frame, write, user)] else Pages(vm)
  {
    hide MapPage, Lookup, Inv;
    var (after, ok) := MapPage(vm, p, frame, write, user);
    MapLookup(vm, p, frame, write, user, p);
    forall q: Page ensures Lookup(after, q) == if ok && q == p then Present(frame, write, user) else Lookup(vm, q) {
      MapLookup(vm, p, frame, write, user, q);
    }
  }

  lemma UnmapRefines(vm: Vm, p: Page)
    requires Inv(vm)
    ensures
      var (after, ok) := UnmapPage(vm, p);
      Inv(after) && (ok <==> p in Pages(vm)) && Pages(after) == Pages(vm) - {p}
  {
    hide UnmapPage, Lookup, Inv;
    var (after, ok) := UnmapPage(vm, p);
    UnmapLookup(vm, p, p);
    forall q: Page ensures Lookup(after, q) == if q == p then Absent else Lookup(vm, q) {
      UnmapLookup(vm, p, q);
    }
  }

  /** A directory entry takes the rights of the first page mapped through it and keeps them; mapping a page touches no
      other directory entry. */
  lemma DirectoryRights(vm: Vm, p: Page, frame: nat, write: bool, user: bool, d: nat)
    requires Inv(vm) && d < ENTRIES && MapPage(vm, p, frame, write, user).1
    ensures var after := MapPage(vm, p, frame, write, user).0;
      && |after.dir| == ENTRIES
      && (d == p / ENTRIES && vm.dir[d].Empty? ==>
            after.dir[d].Table? && after.dir[d].write == write && after.dir[d].user == user)
      && (d != p / ENTRIES || vm.dir[d].Table? ==> after.dir[d] == vm.dir[d])
  {
    hide Cleared;
  }

  /** Translating an address of a page just mapped gives the address in its frame; of a page just unmapped, zero;
      every other page translates as before. */
  lemma TranslationFollows(vm: Vm, p: Page, frame: nat, write: bool, user: bool, q: Page, offset: nat)
    requires Inv(vm) && offset < PAGE
    ensures Inv(MapPage(vm, p, frame, write, user).0) && Inv(UnmapPage(vm, p).0)
    ensures MapPage(vm, p, frame, write, user).1 ==>
      VirtToPhys(MapPage(vm, p, frame, write, user).0, q * PAGE + offset) ==
        if q == p then frame * PAGE + offset else VirtToPhys(vm, q * PAGE + offset)
    ensures VirtToPhys(UnmapPage(vm, p).0, q * PAGE + offset) ==
      if q == p then 0 else VirtToPhys(vm, q * PAGE + offset)
  {
    hide MapPage, UnmapPage, Lookup, Inv;
    MapLookup(vm, p, frame, write, user, q);
    UnmapLookup(vm, p, q);
    PageOf(q, offset);
  }

  lemma PageOf(q: nat, offset: nat)
    requires offset < PAGE
    ensures (q * PAGE + offset) / PAGE == q && (q * PAGE + offset) % PAGE == offset
  {
  }

  /** Translation gives zero exactly for pages that are not mapped, and for the very first physical address. */
  lemma TranslatesToZero(vm: Vm, p: Page, offset: nat)
    requires Inv(vm) && offset < PAGE
    ensures VirtToPhys(vm, p * PAGE + offset) == 0 <==> p !in Pages(vm) || (Pages(vm)[p].frame == 0 && offset == 0)
  {
    hide Lookup, Inv;
    PageOf(p, offset);
  }

  /** What the hardware allows is what both levels allow. The directory's rights are those of the first
      page mapped through it, so a page gets the rights asked for exactly when its directory entry is new
      or already has them. */
  predicate Allows(vm: Vm, p: Page, write: bool, user: bool)
    requires Inv(vm)
  {
    && Lookup(vm, p).Present? && vm.dir[p / ENTRIES].Table?
    && (write ==> Lookup(vm, p).write && vm.dir[p / ENTRIES].write)
    && (user ==> Lookup(vm, p).user && vm.dir[p / ENTRIES].user)
  }

  lemma RightsGranted(vm: Vm, p: Page, frame: nat, write: bool, user: bool)
    requires Inv(vm) && MapPage(vm, p, frame, write, user).1
    ensures
      var after := MapPage(vm, p, frame, write, user).0;
      var entry := vm.dir[p / ENTRIES];
      Inv(after) && (Allows(after, p, write, user) <==>
        entry.Empty? || ((write ==> entry.write) && (user ==> entry.user)))
  {
    MapLookup(vm, p, frame, write, user, p);
  }

  /** A user page behind a kernel page: the second page is mapped for the user, and the user cannot reach it. */
  lemma SecondPageUnreachable()
    ensures
      Inv(BLANK)
      && var a := MapPage(BLANK, 0, 0, true, false).0;
      Inv(a) && MapPage(a, 1, 1, true, true).1
      && var b := MapPage(a, 1, 1, true, true).0;
      Inv(b) && Lookup(b, 1) == Present(1, true, true) && !Allows(b, 1, true, true)
  {
    MapLookup(BLANK, 0, 0, true, false, 0);
    var a := MapPage(BLANK, 0, 0, true, false).0;
    assert a.dir[0] == Table(0, true, false);
    MapLookup(a, 1, 1, true, true, 1);
    RightsGranted(a, 1, 1, true, true);
  }

  // ----- Clones -----

  /** What the hardware finds through a directory. */
  function Walk(dir: seq<DirEntry>, ptes: seq<Pte>, p: Page): Pte
    requires |dir| == ENTRIES
  {
    var e := dir[p / ENTRIES];
    if e.Empty? || e.index * ENTRIES + p % ENTRIES >= |ptes| then Absent else ptes[e.index * ENTRIES + p % ENTRIES]
  }

  /** The kernel's own directory finds what the lookup finds. */
  lemma KernelWalk(vm: Vm, p: Page)
    requires Inv(vm)
    ensures Walk(vm.dir, vm.ptes, p) == Lookup(vm, p)
  {
    if vm.tableFor[p / ENTRIES] != NO_TABLE {
      SlotBound(vm, p);
    }
  }

  datatype Op = OpMap(p: Page, frame: nat, write: bool, user: bool) | OpUnmap(page: Page)

  function Step(vm: Vm, op: Op): Vm
    requires Inv(vm)
  {
    match op
    case OpMap(p, frame, write, user) => MapPage(vm, p, frame, write, user).0
    case OpUnmap(p) => UnmapPage(vm, p).0
  }

  /** Directory entries are never taken back or changed. */
  predicate DirGrows(before: seq<DirEntry>, dir: seq<DirEntry>)
  {
    |dir| == |before| && forall d :: 0 <= d < |before| && before[d].Table? ==> dir[d] == before[d]
  }

  lemma StepKeeps(vm: Vm, op: Op)
    requires Inv(vm)
    ensures Inv(Step(vm, op)) && DirGrows(vm.dir, Step(vm, op).dir)
  {
    hide Lookup, Slot, Cleared;
    match op
    case OpMap(p, frame, write, user) => MapLookup(vm, p, frame, write, user, p);
    case OpUnmap(p) => UnmapLookup(vm, p, p);
  }

  ghost predicate Reaches(vm: Vm, ops: seq<Op>, last: Vm)
    requires Inv(vm)
    decreases |ops|
  {
    if ops == [] then last == vm
    else
      StepKeeps(vm, ops[0]);
      Reaches(Step(vm, ops[0]), ops[1..], last)
  }

  lemma {:induction false} RunKeeps(vm: Vm, ops: seq<Op>, last: Vm)
    requires Inv(vm) && Reaches(vm, ops, last)
    ensures Inv(last) && DirGrows(vm.dir, last.dir)
    decreases |ops|
  {
    hide Inv, Step;
    if ops != [] {
      StepKeeps(vm, ops[0]);
      RunKeeps(Step(vm, ops[0]), ops[1..], last);
    }
  }

  /** However the kernel's mappings change after a directory is cloned, the clone and the kernel agree on
      every page whose directory entry the clone has. On the others they agree exactly while the kernel
      has the page unmapped. */
  lemma CloneAgrees(vm: Vm, ops: seq<Op>, last: Vm, p: Page)
    requires Inv(vm) && Reaches(vm, ops, last)
    ensures Inv(last)
    ensures vm.dir[p / ENTRIES].Table? ==> Walk(vm.dir, last.ptes, p) == Lookup(last, p)
    ensures vm.dir[p / ENTRIES].Empty? ==> (Walk(vm.dir, last.ptes, p) == Lookup(last, p) <==> p !in Pages(last))
  {
    hide Reaches;
    RunKeeps(vm, ops, last);
    KernelWalk(last, p);
  }

  // ----- The initial identity map -----

  const BLANK: Vm :=
    Vm(seq(ENTRIES, i => Empty), seq(MAX_TABLES * ENTRIES, i => Absent), seq(ENTRIES, i => NO_TABLE), 0)

  /** Pages mapped to themselves at start-up: the first 64 MiB. */
  const IDENTITY_PAGES: nat := 16384

  ghost predicate IdentityMapped(vm: Vm, n: nat)
    requires Inv(vm)
  {
    forall p: Page :: Lookup(vm, p) == if p < n then Present(p, true, false) else Absent
  }
}
