/** Linking any object files, whatever assembled them: when it succeeds, and what every byte, word and symbol of the
    image then is. */
module LinkedModules {
  import opened Bytes
  import opened Assembler
  import opened Linker
  import opened Layout

  // ----- When linking succeeds -----

  /** Every exported name is defined where it is exported, and exported once. */
  predicate CleanExports(mods: seq<ObjectFile>)
  {
    && (forall k :: 0 <= k < |mods| ==> mods[k].globals <= mods[k].symbols.Keys)
    && (forall i, j :: 0 <= i < j < |mods| ==> mods[i].globals !! mods[j].globals)
  }

  predicate ExportedBy(mods: seq<ObjectFile>, j: nat, name: string)
  {
    j < |mods| && name in mods[j].globals
  }

  predicate ExportedSomewhere(mods: seq<ObjectFile>, name: string)
  {
    exists j :: 0 <= j < |mods| && ExportedBy(mods, j, name)
  }

  lemma {:induction false} GlobalsAre(mods: seq<ObjectFile>)
    ensures GlobalsOk(mods) <==> CleanExports(mods)
    ensures CleanExports(mods) ==>
      && (forall s :: s in GlobalTable(mods) <==> ExportedSomewhere(mods, s))
      && (forall j, s :: 0 <= j < |mods| && ExportedBy(mods, j, s) ==>
            s in GlobalTable(mods) && GlobalTable(mods)[s] == mods[j].symbols[s] + TotalSize(mods[..j]))
  {
    if mods != [] {
      var n := |mods| - 1;
      var init, last := mods[..n], mods[n];
      GlobalsAre(init);
      assert forall k :: 0 <= k < n ==> init[k] == mods[k] && init[..k] == mods[..k];
      CleanInit(mods);
      if CleanExports(mods) {
        forall s ensures s in GlobalTable(mods) <==> ExportedSomewhere(mods, s) {
          ExportedInit(mods, s);
        }
        forall j, s | 0 <= j < |mods| && ExportedBy(mods, j, s)
          ensures s in GlobalTable(mods) && GlobalTable(mods)[s] == mods[j].symbols[s] + TotalSize(mods[..j])
        {
          if j < n {
            assert ExportedBy(init, j, s) && s !in last.globals;
          } else {
            assert s in last.symbols;
          }
        }
      }
    }
  }

  lemma ExportedInit(mods: seq<ObjectFile>, s: string)
    requires mods != []
    ensures ExportedSomewhere(mods, s) <==> ExportedSomewhere(mods[..|mods| - 1], s) || s in mods[|mods| - 1].globals
  {
    var n := |mods| - 1;
    var init := mods[..n];
    if ExportedSomewhere(init, s) {
      var j :| 0 <= j < |init| && ExportedBy(init, j, s);
      assert ExportedBy(mods, j, s);
    }
    if s in mods[n].globals {
      assert ExportedBy(mods, n, s);
    }
    if ExportedSomewhere(mods, s) {
      var j :| 0 <= j < |mods| && ExportedBy(mods, j, s);
      assert j < n ==> ExportedBy(init, j, s);
    }
  }

  lemma CleanInit(mods: seq<ObjectFile>)
    requires mods != []
    ensures var init, last := mods[..|mods| - 1], mods[|mods| - 1];
      CleanExports(mods) <==>
        && CleanExports(init) && last.globals <= last.symbols.Keys
        && forall s :: s in last.globals ==> !ExportedSomewhere(init, s)
  {
    var n := |mods| - 1;
    var init, last := mods[..n], mods[n];
    assert forall k :: 0 <= k < n ==> init[k] == mods[k];
    if CleanExports(mods) {
      forall s | s in last.globals ensures !ExportedSomewhere(init, s) {
        assert forall j :: 0 <= j < n ==> mods[j].globals !! mods[n].globals;
      }
    }
    if CleanExports(init) && last.globals <= last.symbols.Keys
      && forall s :: s in last.globals ==> !ExportedSomewhere(init, s)
    {
      forall i, j | 0 <= i < j < |mods| ensures mods[i].globals !! mods[j].globals {
        if j < n {
          assert init[i].globals !! init[j].globals;
        } else {
          assert forall s :: s in mods[i].globals ==> ExportedBy(init, i, s);
        }
      }
    }
  }

  /** A reference can be resolved: it is two bytes wide, and its name is the module's own or exported. */
  predicate Resolvable(mods: seq<ObjectFile>, o: ObjectFile, r: Reloc)
  {
    r.size == 2 && (r.symbol in o.symbols || ExportedSomewhere(mods, r.symbol))
  }

  /** The linker accepts exactly the modules with clean exports whose references all resolve, with an entry symbol,
      if one is given, that some module exports. */
  lemma LinkableExactly(mods: seq<ObjectFile>, entry: Option<string>)
    ensures Linkable(mods, entry) <==>
      && CleanExports(mods)
      && (forall k, i :: 0 <= k < |mods| && 0 <= i < |mods[k].relocs| ==>
            Resolvable(mods, mods[k], mods[k].relocs[i]))
      && (entry.Some? ==> ExportedSomewhere(mods, entry.value))
  {
    hide GlobalsOk, GlobalTable, CleanExports, ExportedSomewhere, TotalSize;
    GlobalsAre(mods);
    if CleanExports(mods) {
      forall k | 0 <= k < |mods|
        ensures ModuleResolves(mods[k], ModuleTable(mods[k], TotalSize(mods[..k]), GlobalTable(mods))) <==>
          forall i :: 0 <= i < |mods[k].relocs| ==> Resolvable(mods, mods[k], mods[k].relocs[i])
      {
      }
    }
  }

  // ----- Where names go -----

  /** The address a name has for a module: its own symbol first, otherwise that of the module which exports it. */
  predicate AddressIs(mods: seq<ObjectFile>, k: nat, name: string, address: int)
    requires k < |mods|
  {
    if name in mods[k].symbols then address == TotalSize(mods[..k]) + mods[k].symbols[name]
    else exists j :: 0 <= j < |mods| && ExportedBy(mods, j, name) && name in mods[j].symbols
                     && address == TotalSize(mods[..j]) + mods[j].symbols[name]
  }

  lemma TableIs(mods: seq<ObjectFile>, k: nat, name: string)
    requires CleanExports(mods) && k < |mods| && (name in mods[k].symbols || ExportedSomewhere(mods, name))
    ensures var tab := ModuleTable(mods[k], TotalSize(mods[..k]), GlobalTable(mods));
      name in tab && AddressIs(mods, k, name, tab[name])
  {
    hide GlobalTable, TotalSize;
    GlobalsAre(mods);
    if name !in mods[k].symbols {
      var j :| 0 <= j < |mods| && ExportedBy(mods, j, name);
      assert name in mods[j].symbols;
    }
  }

  // ----- What patching does -----

  predicate DisjointRelocs(relocs: seq<Reloc>)
  {
    forall i, j :: 0 <= i < j < |relocs| ==>
      relocs[i].offset + 2 <= relocs[j].offset || relocs[j].offset + 2 <= relocs[i].offset
  }

  predicate InReloc(relocs: seq<Reloc>, x: int)
  {
    exists i :: 0 <= i < |relocs| && relocs[i].offset <= x < relocs[i].offset + 2
  }

  lemma {:induction false} PatchedOutside(code: seq<Byte>, base: nat, relocs: seq<Reloc>, tab: SymTab, x: nat)
    requires WindowsIn(relocs, |code| - base) && x < |code| && !InReloc(relocs, x - base)
    ensures Patched(code, base, relocs, tab)[x] == code[x]
  {
    if relocs != [] {
      hide PatchU16, Target;
      var init, last := relocs[..|relocs| - 1], relocs[|relocs| - 1];
      assert forall i :: 0 <= i < |init| ==> init[i] == relocs[i];
      assert !InReloc(init, x - base);
      assert !(relocs[|relocs| - 1].offset <= x - base < relocs[|relocs| - 1].offset + 2);
      PatchedOutside(code, base, init, tab, x);
      PatchOutside(Patched(code, base, init, tab), base + last.offset, Target(last, tab), x);
    }
  }

  lemma {:induction false} PatchedInside(code: seq<Byte>, base: nat, relocs: seq<Reloc>, tab: SymTab, i: nat)
    requires WindowsIn(relocs, |code| - base) && DisjointRelocs(relocs) && i < |relocs|
    ensures InWindow(relocs[i], |code| - base)
    ensures ReadU16(Patched(code, base, relocs, tab), base + relocs[i].offset) == Target(relocs[i], tab) % 0x1_0000
  {
    hide PatchU16, Target;
    var n := |relocs| - 1;
    var init, last := relocs[..n], relocs[n];
    assert forall j :: 0 <= j < n ==> init[j] == relocs[j];
    var before := Patched(code, base, init, tab);
    if i == n {
      ReadPatched(before, base + last.offset, Target(last, tab));
    } else {
      assert InWindow(relocs[i], |code| - base);
      assert relocs[i].offset + 2 <= relocs[n].offset || relocs[n].offset + 2 <= relocs[i].offset;
      PatchedInside(code, base, init, tab, i);
      PatchOutside(before, base + last.offset, Target(last, tab), base + relocs[i].offset);
      PatchOutside(before, base + last.offset, Target(last, tab), base + relocs[i].offset + 1);
    }
  }

  // ----- Module by module -----

  lemma {:induction false} BasesOrdered(mods: seq<ObjectFile>, k: nat, m: nat)
    requires ValidObjects(mods) && k < m <= |mods|
    ensures 0 <= TotalSize(mods[..k]) && TotalSize(mods[..k]) + mods[k].size <= TotalSize(mods[..m]) <= TotalSize(mods)
    decreases m
  {
    hide TotalSize, ValidObject;
    ModuleBounds(mods, k);
    ModuleBounds(mods, m);
    if k < m - 1 {
      BasesOrdered(mods, k, m - 1);
      ModuleBounds(mods, m - 1);
      assert ValidObject(mods[m - 1]);
      SizeNotNegative(mods[m - 1]);
    }
  }

  lemma SizeNotNegative(o: ObjectFile)
    requires ValidObject(o)
    ensures o.size >= 0
  {
  }

  /** Byte `x` of module `k`, in the modules laid end to end. */
  lemma {:induction false} ConcatByte(mods: seq<ObjectFile>, k: nat, x: nat)
    requires ValidObjects(mods) && k < |mods| && x < mods[k].size
    ensures 0 <= TotalSize(mods[..k]) && TotalSize(mods[..k]) + x < |Concat(mods)|
    ensures Concat(mods)[TotalSize(mods[..k]) + x] == mods[k].code[x]
  {
    var n := |mods| - 1;
    var init := mods[..n];
    ModuleBounds(mods, k);
    ConcatLength(mods);
    ConcatLength(init);
    BasesOrdered(mods, k, n + 1);
    assert mods[..n + 1] == mods;
    assert forall j :: 0 <= j < n ==> init[j] == mods[j];
    if k < n {
      ConcatByte(init, k, x);
      assert init[..k] == mods[..k];
    }
  }

  /** Patching another module does not touch the bytes of this one. */
  lemma OtherModule(mods: seq<ObjectFile>, globals: SymTab, m: nat, k: nat, x: nat)
    requires ValidObjects(mods) && m < |mods| && k < |mods| && k != m && x < mods[k].size
    requires RelocsOk(mods, globals, m + 1)
    ensures var at := TotalSize(mods[..k]) + x;
      && RelocsOk(mods, globals, m)
      && 0 <= at < TotalSize(mods) && PatchModules(mods, globals, m + 1)[at] == PatchModules(mods, globals, m)[at]
  {
    hide TotalSize, Patched, PatchModules, ModuleTable;
    assert ModuleResolves(mods[m], ModuleTable(mods[m], TotalSize(mods[..m]), globals));
    var at := TotalSize(mods[..k]) + x;
    var base := TotalSize(mods[..m]);
    PatchStep(mods, globals, m);
    BasesOrdered(mods, k, |mods|);
    assert mods[..|mods|] == mods;
    ModuleBounds(mods, m);
    if k < m {
      BasesOrdered(mods, k, m);
    } else {
      BasesOrdered(mods, m, k);
    }
    WindowsInside(mods[m], mods, m);
    forall i | 0 <= i < |mods[m].relocs|
      ensures !(mods[m].relocs[i].offset <= at - base < mods[m].relocs[i].offset + 2)
    {
      assert InWindow(mods[m].relocs[i], mods[m].size);
    }
    PatchedOutside(PatchModules(mods, globals, m), base, mods[m].relocs, ModuleTable(mods[m], base, globals), at);
  }

  /** A module whose references all resolve has all its windows inside its own code. */
  lemma WindowsInside(o: ObjectFile, mods: seq<ObjectFile>, m: nat)
    requires ValidObjects(mods) && m < |mods| && o == mods[m]
    ensures forall i :: 0 <= i < |o.relocs| && o.relocs[i].size == 2 ==> InWindow(o.relocs[i], o.size)
  {
    assert ValidObject(mods[m]);
  }

  lemma {:induction false} BeforeItsTurn(mods: seq<ObjectFile>, globals: SymTab, n: nat, k: nat, x: nat)
    requires ValidObjects(mods) && n <= k < |mods| && x < mods[k].size && RelocsOk(mods, globals, n)
    ensures var at := TotalSize(mods[..k]) + x;
      0 <= at < TotalSize(mods) && PatchModules(mods, globals, n)[at] == mods[k].code[x]
    decreases n
  {
    hide TotalSize, PatchModules, ModuleResolves, Concat;
    ConcatByte(mods, k, x);
    ConcatLength(mods);
    if n == 0 {
      PatchStart(mods, globals);
    } else {
      BeforeItsTurn(mods, globals, n - 1, k, x);
      OtherModule(mods, globals, n - 1, k, x);
    }
  }

  lemma {:induction false} AfterItsTurn(mods: seq<ObjectFile>, globals: SymTab, n: nat, k: nat, x: nat)
    requires ValidObjects(mods) && k < n <= |mods| && x < mods[k].size && RelocsOk(mods, globals, n)
    ensures var at := TotalSize(mods[..k]) + x;
      && RelocsOk(mods, globals, k + 1)
      && 0 <= at < TotalSize(mods)
      && PatchModules(mods, globals, n)[at] == PatchModules(mods, globals, k + 1)[at]
    decreases n
  {
    hide TotalSize, PatchModules, ModuleResolves;
    BasesOrdered(mods, k, |mods|);
    assert mods[..|mods|] == mods;
    if n > k + 1 {
      OtherModule(mods, globals, n - 1, k, x);
      AfterItsTurn(mods, globals, n - 1, k, x);
    }
  }

  // ----- The linked code -----

  /** A byte of a module that no reference covers is linked as it is. */
  lemma LinkedByte(mods: seq<ObjectFile>, entry: Option<string>, k: nat, x: nat)
    requires ValidObjects(mods) && Linkable(mods, entry) && k < |mods| && x < mods[k].size
    requires !InReloc(mods[k].relocs, x)
    ensures var code := PatchModules(mods, GlobalTable(mods), |mods|);
      var at := TotalSize(mods[..k]) + x;
      0 <= at < |code| && code[at] == mods[k].code[x]
  {
    hide TotalSize, PatchModules, ModuleResolves, GlobalTable, GlobalsOk, ModuleTable, Patched, InReloc;
    var globals, base := GlobalTable(mods), TotalSize(mods[..k]);
    AfterItsTurn(mods, globals, |mods|, k, x);
    BeforeItsTurn(mods, globals, k, k, x);
    PatchStep(mods, globals, k);
    PatchedOutside(PatchModules(mods, globals, k), base, mods[k].relocs, ModuleTable(mods[k], base, globals), base + x);
  }

  /** A reference is linked to the address its name has for its module, plus the addend, modulo 2^16. */
  lemma LinkedWord(mods: seq<ObjectFile>, entry: Option<string>, k: nat, i: nat)
    requires ValidObjects(mods) && Linkable(mods, entry) && k < |mods| && i < |mods[k].relocs|
    requires DisjointRelocs(mods[k].relocs)
    ensures var code := PatchModules(mods, GlobalTable(mods), |mods|);
      var r := mods[k].relocs[i];
      var at := TotalSize(mods[..k]) + r.offset;
      && 0 <= at && at + 2 <= |code|
      && exists address :: AddressIs(mods, k, r.symbol, address) && ReadU16(code, at) == (address + r.addend) % 0x1_0000
  {
    hide TotalSize, PatchModules, GlobalTable, GlobalsOk, Patched, AddressIs, ModuleTable, Target, CleanExports,
         ExportedSomewhere;
    var globals, base := GlobalTable(mods), TotalSize(mods[..k]);
    var tab := ModuleTable(mods[k], base, globals);
    var r := mods[k].relocs[i];
    LinkableExactly(mods, entry);
    assert Resolvable(mods, mods[k], r);
    TableIs(mods, k, r.symbol);
    WindowsInside(mods[k], mods, k);
    AfterItsTurn(mods, globals, |mods|, k, r.offset);
    AfterItsTurn(mods, globals, |mods|, k, r.offset + 1);
    PatchStep(mods, globals, k);
    PatchedInside(PatchModules(mods, globals, k), base, mods[k].relocs, tab, i);
    TargetOf(r, tab);
  }

  /** The image's symbols are exactly the exported ones, at their addresses; an absolute image moves them, and its
      entry, to the load address. */
  lemma LinkedSymbols(mods: seq<ObjectFile>, mode: Mode, load: int, entry: Option<string>, name: string)
    requires ValidObjects(mods) && Linkable(mods, entry)
    ensures var image := LinkedImage(mods, mode, load, entry);
      var shift := if mode.Absolute? then load else 0;
      && image.mode == mode && image.loadAddress == shift
      && (name in image.symbols <==> ExportedSomewhere(mods, name))
      && (forall j :: 0 <= j < |mods| && ExportedBy(mods, j, name) ==>
            && name in mods[j].symbols
            && image.symbols[name] == TotalSize(mods[..j]) + mods[j].symbols[name] + shift)
      && (entry.None? ==> image.entry == (if mods == [] then 0 else mods[0].entry) + shift)
      && (entry == Some(name) ==> name in image.symbols && image.entry == image.symbols[name])
  {
    hide TotalSize, PatchModules, GlobalTable, GlobalsOk, RelocsOk, PendingOffsets, ExportedSomewhere;
    LinkableExactly(mods, entry);
    GlobalsAre(mods);
  }
}
