/** The two-pass linker over object files.

    The reference result concatenates the modules' code and then patches every
    relocation, module by module and in order, with the address its symbol
    resolves to: a module's own symbols first, then the exported ones. */
module Linker {
  import opened Bytes
  import opened Assembler

  datatype Mode = Absolute | Relocatable

  datatype Image = Image(
    mode: Mode, code: seq<Byte>, entry: int, loadAddress: int, relocs: seq<int>, symbols: SymTab)

  datatype LinkError =
    | UndefinedGlobal(name: string)
    | DuplicateGlobal(name: string)
    | UnsupportedReloc(size: int)
    | UnresolvedSymbol(symbol: string)
    | MissingEntry(entrySymbol: string)

  /** What an object file must satisfy for the linker's unchecked buffer accesses to be in range. */
  predicate ValidObject(o: ObjectFile)
  {
    && o.size == |o.code|
    && forall k :: 0 <= k < |o.relocs| && o.relocs[k].size == 2 ==> InWindow(o.relocs[k], o.size)
  }

  predicate InWindow(r: Reloc, size: int)
  {
    0 <= r.offset && r.offset + 2 <= size
  }

  predicate ValidObjects(mods: seq<ObjectFile>)
  {
    forall k :: 0 <= k < |mods| ==> ValidObject(mods[k])
  }

  function TotalSize(mods: seq<ObjectFile>): int
  {
    if mods == [] then 0 else TotalSize(mods[..|mods| - 1]) + mods[|mods| - 1].size
  }

  function Concat(mods: seq<ObjectFile>): seq<Byte>
  {
    if mods == [] then [] else Concat(mods[..|mods| - 1]) + mods[|mods| - 1].code
  }

  function Shift(tab: SymTab, d: int): (r: SymTab)
    ensures r.Keys == tab.Keys
  {
    map s | s in tab :: tab[s] + d
  }

  /** The symbols a module exports, at their addresses in the linked image. */
  function Exports(o: ObjectFile, base: int): SymTab
  {
    map s | s in o.symbols && s in o.globals :: o.symbols[s] + base
  }

  function GlobalTable(mods: seq<ObjectFile>): SymTab
  {
    if mods == [] then map[] else
      GlobalTable(mods[..|mods| - 1]) + Exports(mods[|mods| - 1], TotalSize(mods[..|mods| - 1]))
  }

  /** Every exported name is defined in its module and exported only once. */
  predicate GlobalsOk(mods: seq<ObjectFile>)
  {
    mods == [] ||
    var o := mods[|mods| - 1];
    && GlobalsOk(mods[..|mods| - 1])
    && o.globals <= o.symbols.Keys
    && o.globals !! GlobalTable(mods[..|mods| - 1]).Keys
  }

  /** How a module's references resolve: its own symbols hide the exported ones. */
  function ModuleTable(o: ObjectFile, base: int, globals: SymTab): SymTab
  {
    globals + Shift(o.symbols, base)
  }

  function Target(r: Reloc, tab: SymTab): int
  {
    (if r.symbol in tab then tab[r.symbol] else 0) + r.addend
  }

  predicate WindowsIn(relocs: seq<Reloc>, size: int)
  {
    forall k :: 0 <= k < |relocs| ==> InWindow(relocs[k], size)
  }

  /** `code` after patching the relocations in order, each at `base` plus its offset. */
  function Patched(code: seq<Byte>, base: nat, relocs: seq<Reloc>, tab: SymTab): (r: seq<Byte>)
    requires WindowsIn(relocs, |code| - base)
    ensures |r| == |code|
  {
    if relocs == [] then code else
      var last := relocs[|relocs| - 1];
      PatchU16(Patched(code, base, relocs[..|relocs| - 1], tab), base + last.offset, Target(last, tab))
  }

  predicate ModuleResolves(o: ObjectFile, tab: SymTab)
  {
    forall k :: 0 <= k < |o.relocs| ==> o.relocs[k].size == 2 && o.relocs[k].symbol in tab
  }

  /** The first `n` modules have only 16-bit relocations to symbols that resolve. */
  predicate RelocsOk(mods: seq<ObjectFile>, globals: SymTab, n: nat)
    requires n <= |mods|
  {
    forall k :: 0 <= k < n ==> ModuleResolves(mods[k], ModuleTable(mods[k], TotalSize(mods[..k]), globals))
  }

  predicate Linkable(mods: seq<ObjectFile>, entrySymbol: Option<string>)
  {
    && GlobalsOk(mods)
    && RelocsOk(mods, GlobalTable(mods), |mods|)
    && (entrySymbol.Some? ==> entrySymbol.value in GlobalTable(mods))
  }

  lemma {:induction false} ModuleBounds(mods: seq<ObjectFile>, k: nat)
    requires ValidObjects(mods) && k <= |mods|
    ensures |Concat(mods[..k])| == TotalSize(mods[..k]) <= TotalSize(mods)
    ensures k < |mods| ==> TotalSize(mods[..k + 1]) == TotalSize(mods[..k]) + mods[k].size
    decreases |mods| - k
  {
    ConcatLength(mods[..k]);
    if k < |mods| {
      assert mods[..k + 1][..k] == mods[..k];
      ModuleBounds(mods, k + 1);
    } else {
      assert mods[..k] == mods;
    }
  }

  lemma {:induction false} ConcatLength(mods: seq<ObjectFile>)
    requires ValidObjects(mods)
    ensures |Concat(mods)| == TotalSize(mods)
  {
    if mods != [] {
      ConcatLength(mods[..|mods| - 1]);
    }
  }

  /** The linked code after the relocations of the first `n` modules. */
  function PatchModules(mods: seq<ObjectFile>, globals: SymTab, n: nat): (code: seq<Byte>)
    requires ValidObjects(mods) && n <= |mods| && RelocsOk(mods, globals, n)
    ensures |code| == TotalSize(mods)
  {
    ConcatLength(mods);
    if n == 0 then Concat(mods) else
      ModuleBounds(mods, n);
      ModuleBounds(mods, n - 1);
      var base := TotalSize(mods[..n - 1]);
      Patched(PatchModules(mods, globals, n - 1), base, mods[n - 1].relocs, ModuleTable(mods[n - 1], base, globals))
  }

  function Offsets(relocs: seq<Reloc>, base: int): (r: seq<int>)
    ensures |r| == |relocs|
  {
    if relocs == [] then [] else
      Offsets(relocs[..|relocs| - 1], base) + [base + relocs[|relocs| - 1].offset]
  }

  lemma OffsetsSnoc(relocs: seq<Reloc>, r: Reloc, base: int)
    ensures Offsets(relocs + [r], base) == Offsets(relocs, base) + [base + r.offset]
  {
    var all := relocs + [r];
    assert all[..|all| - 1] == relocs;
  }

  /** Where the words left to the loader sit in the image. */
  function PendingOffsets(mods: seq<ObjectFile>): seq<int>
  {
    if mods == [] then [] else
      PendingOffsets(mods[..|mods| - 1]) + Offsets(mods[|mods| - 1].relocs, TotalSize(mods[..|mods| - 1]))
  }

  function LinkedEntry(mods: seq<ObjectFile>, entrySymbol: Option<string>): int
  {
    match entrySymbol
    case Some(s) => if s in GlobalTable(mods) then GlobalTable(mods)[s] else 0
    case None => if mods == [] then 0 else mods[0].entry
  }

  /** The image the linker promises.  In absolute mode the entry point and the
      symbols move to the load address, the patched words do not. */
  function LinkedImage(mods: seq<ObjectFile>, mode: Mode, load: int, entrySymbol: Option<string>): Image
    requires ValidObjects(mods) && Linkable(mods, entrySymbol)
  {
    var globals := GlobalTable(mods);
    var code := PatchModules(mods, globals, |mods|);
    var entry := LinkedEntry(mods, entrySymbol);
    match mode
    case Absolute => Image(mode, code, entry + load, load, [], Shift(globals, load))
    case Relocatable => Image(mode, code, entry, 0, PendingOffsets(mods), globals)
  }

  // ----- The linker -----

  /** Pass 1 over the exports of one module. */
  method ExportGlobals(o: ObjectFile, base: int, globals: SymTab) returns (r: Result<SymTab, LinkError>)
    ensures r.Ok? <==> o.globals <= o.symbols.Keys && o.globals !! globals.Keys
    ensures r.Ok? ==> r.value == globals + Exports(o, base)
  {
    var todo := o.globals;
    var out := globals;
    while todo != {}
      invariant todo <= o.globals
      invariant o.globals - todo <= o.symbols.Keys && (o.globals - todo) !! globals.Keys
      invariant out == globals + (map s | s in o.symbols && s in o.globals && s !in todo :: o.symbols[s] + base)
    {
      var name :| name in todo;
      if name !in o.symbols {
        return Err(UndefinedGlobal(name));
      }
      if name in out {
        return Err(DuplicateGlobal(name));
      }
      out := out[name := base + o.symbols[name]];
      todo := todo - {name};
    }
    assert (map s | s in o.symbols && s in o.globals && s !in todo :: o.symbols[s] + base) == Exports(o, base);
    return Ok(out);
  }

  method CollectGlobals(mods: seq<ObjectFile>) returns (r: Result<SymTab, LinkError>)
    ensures r.Ok? <==> GlobalsOk(mods)
    ensures r.Ok? ==> r.value == GlobalTable(mods)
  {
    var globals: SymTab := map[];
    var base := 0;
    for k := 0 to |mods|
      invariant globals == GlobalTable(mods[..k]) && GlobalsOk(mods[..k])
      invariant base == TotalSize(mods[..k])
    {
      assert mods[..k + 1][..k] == mods[..k];
      var e := ExportGlobals(mods[k], base, globals);
      if e.Err? {
        GlobalsOkPrefix(mods, k + 1);
        return e;
      }
      globals := e.value;
      base := base + mods[k].size;
    }
    assert mods[..|mods|] == mods;
    return Ok(globals);
  }

  lemma {:induction false} GlobalsOkPrefix(mods: seq<ObjectFile>, k: nat)
    requires k <= |mods|
    ensures GlobalsOk(mods) ==> GlobalsOk(mods[..k])
    decreases |mods| - k
  {
    if k < |mods| {
      assert mods[..k + 1][..k] == mods[..k];
      GlobalsOkPrefix(mods, k + 1);
    } else {
      assert mods[..k] == mods;
    }
  }

  method CopyModules(mods: seq<ObjectFile>) returns (linked: array<Byte>)
    requires ValidObjects(mods)
    ensures fresh(linked) && linked[..] == Concat(mods)
  {
    ModuleBounds(mods, |mods|);
    assert mods[..|mods|] == mods;
    var total := 0;
    for k := 0 to |mods|
      invariant total == TotalSize(mods[..k])
    {
      assert mods[..k + 1][..k] == mods[..k];
      total := total + mods[k].size;
    }
    ConcatLength(mods);
    linked := new Byte[total](_ => 0);
    var base := 0;
    for k := 0 to |mods|
      invariant base == TotalSize(mods[..k]) <= linked.Length
      invariant linked[..base] == Concat(mods[..k])
    {
      assert mods[..k + 1][..k] == mods[..k];
      ModuleBounds(mods, k);
      ModuleBounds(mods, k + 1);
      CopyBytes(linked, base, mods[k].code);
      base := base + mods[k].size;
      assert linked[..base] == linked[..][..base];
    }
    assert linked[..base] == linked[..];
  }

  lemma PatchedStep(code: seq<Byte>, base: nat, relocs: seq<Reloc>, k: nat, tab: SymTab)
    requires k < |relocs| && WindowsIn(relocs[..k], |code| - base) && InWindow(relocs[k], |code| - base)
    ensures WindowsIn(relocs[..k + 1], |code| - base)
    ensures Patched(code, base, relocs[..k + 1], tab)
         == PatchU16(Patched(code, base, relocs[..k], tab), base + relocs[k].offset, Target(relocs[k], tab))
  {
    hide PatchU16, Target, InWindow;
    var upto := relocs[..k + 1];
    assert upto[..|upto| - 1] == relocs[..k] && upto[|upto| - 1] == relocs[k];
  }

  lemma PatchNothing(code: seq<Byte>, base: nat, tab: SymTab)
    requires base <= |code|
    ensures WindowsIn([], |code| - base) && Patched(code, base, [], tab) == code && Offsets([], base) == []
  {
  }

  lemma TargetOf(r: Reloc, tab: SymTab)
    requires r.symbol in tab
    ensures Target(r, tab) == tab[r.symbol] + r.addend
  {
  }

  /** Pass 2 over the relocations of one module. */
  method PatchModule(linked: array<Byte>, o: ObjectFile, base: nat, tab: SymTab)
      returns (r: Result<seq<int>, LinkError>)
    requires ValidObject(o) && base + o.size <= linked.Length
    modifies linked
    ensures r.Ok? <==> ModuleResolves(o, tab)
    ensures r.Ok? ==> linked[..] == Patched(old(linked[..]), base, o.relocs, tab)
    ensures r.Ok? ==> r.value == Offsets(o.relocs, base)
  {
    hide PatchU16, Offsets, Patched, Target;
    PatchNothing(linked[..], base, tab);
    assert o.relocs[..0] == [];
    var pending: seq<int> := [];
    for k := 0 to |o.relocs|
      invariant forall j :: 0 <= j < k ==> o.relocs[j].size == 2 && o.relocs[j].symbol in tab
      invariant WindowsIn(o.relocs[..k], linked.Length - base)
      invariant linked[..] == Patched(old(linked[..]), base, o.relocs[..k], tab)
      invariant pending == Offsets(o.relocs[..k], base)
    {
      var reloc := o.relocs[k];
      if reloc.size != 2 {
        return Err(UnsupportedReloc(reloc.size));
      }
      if reloc.symbol !in tab {
        return Err(UnresolvedSymbol(reloc.symbol));
      }
      assert InWindow(reloc, o.size);
      PatchedStep(old(linked[..]), base, o.relocs, k, tab);
      TargetOf(reloc, tab);
      OffsetsSnoc(o.relocs[..k], reloc, base);
      assert o.relocs[..k + 1] == o.relocs[..k] + [reloc];
      StoreU16(linked, base + reloc.offset, tab[reloc.symbol] + reloc.addend);
      pending := pending + [base + reloc.offset];
    }
    assert o.relocs[..|o.relocs|] == o.relocs;
    return Ok(pending);
  }

  lemma PatchStart(mods: seq<ObjectFile>, globals: SymTab)
    requires ValidObjects(mods)
    ensures TotalSize(mods[..0]) == 0 && PendingOffsets(mods[..0]) == []
    ensures PatchModules(mods, globals, 0) == Concat(mods)
  {
    assert mods[..0] == [];
  }

  lemma PatchStep(mods: seq<ObjectFile>, globals: SymTab, k: nat)
    requires ValidObjects(mods) && k < |mods| && RelocsOk(mods, globals, k)
    ensures PendingOffsets(mods[..k + 1]) == PendingOffsets(mods[..k]) + Offsets(mods[k].relocs, TotalSize(mods[..k]))
    ensures RelocsOk(mods, globals, k + 1) ==>
      var base := TotalSize(mods[..k]);
      && base >= 0 && WindowsIn(mods[k].relocs, |PatchModules(mods, globals, k)| - base)
      && PatchModules(mods, globals, k + 1)
        == Patched(PatchModules(mods, globals, k), base, mods[k].relocs, ModuleTable(mods[k], base, globals))
  {
    hide Offsets, Patched, ModuleTable, Concat, Shift, TotalSize;
    ModuleBounds(mods, k);
    ModuleBounds(mods, k + 1);
    assert mods[..k + 1][..k] == mods[..k] && mods[..k + 1][k] == mods[k];
  }

  /** Pass 2 over all modules. */
  method PatchAll(linked: array<Byte>, mods: seq<ObjectFile>, globals: SymTab) returns (r: Result<seq<int>, LinkError>)
    requires ValidObjects(mods) && linked[..] == Concat(mods)
    modifies linked
    ensures r.Ok? <==> RelocsOk(mods, globals, |mods|)
    ensures r.Ok? ==> linked[..] == PatchModules(mods, globals, |mods|)
    ensures r.Ok? ==> r.value == PendingOffsets(mods)
  {
    hide Offsets, Patched, ModuleTable, ModuleResolves, Concat, ValidObject, Shift, InWindow, PatchModules, TotalSize,
      PendingOffsets;
    PatchStart(mods, globals);
    var pending: seq<int> := [];
    var base := 0;
    for k := 0 to |mods|
      invariant base == TotalSize(mods[..k])
      invariant RelocsOk(mods, globals, k)
      invariant linked[..] == PatchModules(mods, globals, k)
      invariant pending == PendingOffsets(mods[..k])
    {
      ModuleBounds(mods, k);
      ModuleBounds(mods, k + 1);
      PatchStep(mods, globals, k);
      var e := PatchModule(linked, mods[k], base, ModuleTable(mods[k], base, globals));
      if e.Err? {
        return e;
      }
      pending := pending + e.value;
      base := base + mods[k].size;
    }
    assert mods[..|mods|] == mods;
    return Ok(pending);
  }

  /** The linker succeeds exactly on linkable modules and then yields the promised image. */
  method LinkModules(mods: seq<ObjectFile>, mode: Mode, load: int, entrySymbol: Option<string>)
    returns (r: Result<Image, LinkError>)
    requires ValidObjects(mods)
    ensures r.Ok? <==> Linkable(mods, entrySymbol)
    ensures r.Ok? ==> r.value == LinkedImage(mods, mode, load, entrySymbol)
  {
    hide GlobalsOk, GlobalTable, RelocsOk, PatchModules, PendingOffsets, Concat, ValidObjects, Shift;
    var g := CollectGlobals(mods);
    if g.Err? {
      return Err(g.error);
    }
    var globals := g.value;
    var linked := CopyModules(mods);
    var pending := PatchAll(linked, mods, globals);
    if pending.Err? {
      return Err(pending.error);
    }
    var entry := 0;
    if entrySymbol.Some? {
      if entrySymbol.value !in globals {
        return Err(MissingEntry(entrySymbol.value));
      }
      entry := globals[entrySymbol.value];
    } else if mods != [] {
      entry := mods[0].entry;
    }
    match mode {
      case Absolute => return Ok(Image(mode, linked[..], entry + load, load, [], Shift(globals, load)));
      case Relocatable => return Ok(Image(mode, linked[..], entry, 0, pending.value, globals));
    }
  }
}
