/** Assembling modules separately and linking them gives the image that
    assembling their concatenation gives. */
module SeparateAssembly {
  import opened Bytes
  import opened Assembler
  import opened Linker
  import opened Layout

  function Flatten(ps: seq<Program>): Program
  {
    if ps == [] then [] else Flatten(ps[..|ps| - 1]) + ps[|ps| - 1]
  }

  function Objects(ps: seq<Program>): (r: seq<ObjectFile>)
    ensures |r| == |ps|
  {
    if ps == [] then [] else Objects(ps[..|ps| - 1]) + [ObjectOf(ps[|ps| - 1])]
  }

  predicate AllWellFormed(ps: seq<Program>)
  {
    forall k :: 0 <= k < |ps| ==> WellFormed(ps[k])
  }

  /** Each symbol a module refers to is its own or exported by some module. */
  predicate ExternsExported(ps: seq<Program>)
  {
    forall k :: 0 <= k < |ps| ==> LocalOrExported(ps[k], Globals(Flatten(ps)))
  }

  predicate LocalOrExported(p: Program, exported: set<string>)
  {
    forall j :: 0 <= j < |p| && SymRef(p[j].stmt).Some? ==>
      SymRef(p[j].stmt).value.1 in Symbols(p) || SymRef(p[j].stmt).value.1 in exported
  }

  /** Modules that may be assembled apart: each one assembles, no label is used twice
      and every extern is exported somewhere. */
  predicate Compatible(ps: seq<Program>)
  {
    AllWellFormed(ps) && DistinctLabels(Flatten(ps)) && ExternsExported(ps)
  }

  lemma FlattenStep(ps: seq<Program>, k: nat)
    requires k < |ps|
    ensures Flatten(ps[..k + 1]) == Flatten(ps[..k]) + ps[k]
    ensures Objects(ps[..k + 1]) == Objects(ps[..k]) + [ObjectOf(ps[k])]
  {
    var upto := ps[..k + 1];
    assert upto[..|upto| - 1] == ps[..k] && upto[|upto| - 1] == ps[k];
  }

  lemma {:induction false} ObjectsPrefix(ps: seq<Program>, k: nat)
    requires k <= |ps|
    ensures Objects(ps)[..k] == Objects(ps[..k])
    decreases |ps| - k
  {
    if k < |ps| {
      ObjectsPrefix(ps, k + 1);
      FlattenStep(ps, k);
      assert Objects(ps)[..k] == Objects(ps)[..k + 1][..k];
    } else {
      assert ps[..k] == ps;
      assert Objects(ps)[..k] == Objects(ps);
    }
  }

  lemma ObjectAt(ps: seq<Program>, k: nat)
    requires k < |ps|
    ensures Objects(ps)[k] == ObjectOf(ps[k])
    ensures Objects(ps)[..k] == Objects(ps[..k])
    ensures Objects(ps)[..k + 1] == Objects(ps[..k + 1])
  {
    ObjectsPrefix(ps, k);
    ObjectsPrefix(ps, k + 1);
    FlattenStep(ps, k);
    assert Objects(ps)[k] == Objects(ps)[..k + 1][k];
  }

  /** Bases are the offsets of the modules in the concatenated program. */
  lemma {:induction false} BaseIsOffset(ps: seq<Program>)
    ensures TotalSize(Objects(ps)) == Size(Flatten(ps))
  {
    if ps != [] {
      var init := ps[..|ps| - 1];
      BaseIsOffset(init);
      SizeAppend(Flatten(init), ps[|ps| - 1]);
      assert Objects(ps)[..|ps| - 1] == Objects(init);
    }
  }

  lemma {:induction false} FlattenPrefix(ps: seq<Program>, k: nat)
    requires k <= |ps|
    ensures DistinctLabels(Flatten(ps)) ==> DistinctLabels(Flatten(ps[..k]))
    ensures Symbols(Flatten(ps[..k])).Keys <= Symbols(Flatten(ps)).Keys
    ensures Globals(Flatten(ps[..k])) <= Globals(Flatten(ps))
    ensures DistinctLabels(Flatten(ps)) ==>
              forall s :: s in Symbols(Flatten(ps[..k])) ==> Symbols(Flatten(ps))[s] == Symbols(Flatten(ps[..k]))[s]
    decreases |ps| - k
  {
    if k < |ps| {
      FlattenPrefix(ps, k + 1);
      FlattenStep(ps, k);
      DistinctAppend(Flatten(ps[..k]), ps[k]);
      SymbolsAppend(Flatten(ps[..k]), ps[k]);
      DirectivesAppend(Flatten(ps[..k]), ps[k]);
    } else {
      assert ps[..k] == ps;
    }
  }

  /** A module's symbols sit at its base in the concatenated program. */
  lemma ModuleSymbols(ps: seq<Program>, k: nat)
    requires k < |ps| && DistinctLabels(Flatten(ps))
    ensures Symbols(ps[k]).Keys <= Symbols(Flatten(ps)).Keys
    ensures Globals(ps[k]) <= Globals(Flatten(ps))
    ensures forall s :: s in Symbols(ps[k]) ==>
              Symbols(Flatten(ps))[s] == Symbols(ps[k])[s] + Size(Flatten(ps[..k]))
  {
    FlattenPrefix(ps, k + 1);
    FlattenStep(ps, k);
    DistinctAppend(Flatten(ps[..k]), ps[k]);
    SymbolsAppend(Flatten(ps[..k]), ps[k]);
    DirectivesAppend(Flatten(ps[..k]), ps[k]);
  }

  // ----- Exports -----

  function Restrict(tab: SymTab, names: set<string>): SymTab
  {
    map s | s in tab && s in names :: tab[s]
  }

  lemma RestrictAppend(a: SymTab, b: SymTab, d: int, ga: set<string>, gb: set<string>)
    requires a.Keys !! b.Keys && ga <= a.Keys && gb <= b.Keys
    ensures Restrict(a + Shift(b, d), ga + gb)
         == Restrict(a, ga) + map s | s in b && s in gb :: b[s] + d
  {
  }

  /** The linker's global table is the part of the concatenated program's symbol table
      that some module exports, and no export clashes. */
  lemma {:induction false} ExportedTable(ps: seq<Program>)
    requires AllWellFormed(ps) && DistinctLabels(Flatten(ps))
    ensures Globals(Flatten(ps)) <= Symbols(Flatten(ps)).Keys
    ensures GlobalTable(Objects(ps)) == Restrict(Symbols(Flatten(ps)), Globals(Flatten(ps)))
    ensures GlobalsOk(Objects(ps))
  {
    if ps != [] {
      hide Restrict, Shift, Symbols, Globals;
      var n := |ps| - 1;
      var init, last := ps[..n], ps[n];
      DistinctAppend(Flatten(init), last);
      ExportedTable(init);
      assert Objects(ps)[..n] == Objects(init);
      BaseIsOffset(init);
      SymbolsAppend(Flatten(init), last);
      DirectivesAppend(Flatten(init), last);
      RestrictAppend(Symbols(Flatten(init)), Symbols(last), Size(Flatten(init)), Globals(Flatten(init)), Globals(last));
      RestrictKeys(Symbols(Flatten(init)), Globals(Flatten(init)));
    }
  }

  lemma RestrictKeys(tab: SymTab, names: set<string>)
    ensures Restrict(tab, names).Keys <= tab.Keys
    ensures forall s :: s in Restrict(tab, names) <==> s in tab && s in names
    ensures forall s :: s in Restrict(tab, names) ==> Restrict(tab, names)[s] == tab[s]
  {
  }

  /** How a module resolves its references is how the concatenated program does. */
  lemma ModuleAgrees(ps: seq<Program>, k: nat)
    requires Compatible(ps) && k < |ps|
    ensures Refs(ps[k], Symbols(Flatten(ps)))
    ensures var tab := ModuleTable(Objects(ps)[k], TotalSize(Objects(ps)[..k]), GlobalTable(Objects(ps)));
      Refs(ps[k], tab) && Agree(ps[k], tab, Symbols(Flatten(ps)))
  {
    hide SymRef, Symbols, Globals, Flatten, Restrict, DistinctLabels, GlobalTable, TotalSize, ObjectOf, GlobalsOk;
    var objs, all := Objects(ps), Symbols(Flatten(ps));
    var tab := ModuleTable(objs[k], TotalSize(objs[..k]), GlobalTable(objs));
    assert objs[k].symbols == Symbols(ps[k]) && TotalSize(objs[..k]) == Size(Flatten(ps[..k])) by {
      ObjectAt(ps, k);
      BaseIsOffset(ps[..k]);
      ObjectSymbols(ps[k]);
    }
    assert LocalOrExported(ps[k], Globals(Flatten(ps)));
    forall j | 0 <= j < |ps[k]| && SymRef(ps[k][j].stmt).Some?
      ensures var name := SymRef(ps[k][j].stmt).value.1; name in all && name in tab && tab[name] == all[name]
    {
      ResolvesAlike(ps, k, SymRef(ps[k][j].stmt).value.1);
    }
  }

  lemma ObjectSymbols(p: Program)
    ensures ObjectOf(p).symbols == Symbols(p)
  {
  }

  lemma ResolvesAlike(ps: seq<Program>, k: nat, name: string)
    requires AllWellFormed(ps) && DistinctLabels(Flatten(ps)) && k < |ps|
    requires name in Symbols(ps[k]) || name in Globals(Flatten(ps))
    ensures name in Symbols(Flatten(ps))
    ensures var tab := GlobalTable(Objects(ps)) + Shift(Symbols(ps[k]), Size(Flatten(ps[..k])));
      name in tab && tab[name] == Symbols(Flatten(ps))[name]
  {
    hide Symbols, Globals, Flatten, Restrict, DistinctLabels, GlobalTable, AllWellFormed, Size, GlobalsOk;
    ModuleSymbols(ps, k);
    ExportedTable(ps);
    RestrictKeys(Symbols(Flatten(ps)), Globals(Flatten(ps)));
  }

  lemma ModuleAccepted(ps: seq<Program>, k: nat)
    requires Compatible(ps) && k < |ps|
    ensures ValidObject(Objects(ps)[k])
    ensures ModuleResolves(Objects(ps)[k],
              ModuleTable(Objects(ps)[k], TotalSize(Objects(ps)[..k]), GlobalTable(Objects(ps))))
  {
    hide Symbols, Globals, Flatten, DistinctLabels, Shift, GlobalTable, TotalSize, Relocs, Code, WellFormed, Agree;
    ObjectAt(ps, k);
    ModuleAgrees(ps, k);
    RelocShape(ps[k], ModuleTable(Objects(ps)[k], TotalSize(Objects(ps)[..k]), GlobalTable(Objects(ps))));
  }

  /** The linker accepts compatible modules. */
  lemma CompatibleLinks(ps: seq<Program>)
    requires Compatible(ps)
    ensures ValidObjects(Objects(ps)) && Linkable(Objects(ps), None)
  {
    hide Compatible, ModuleResolves, ModuleTable, ValidObject, GlobalTable, TotalSize, GlobalsOk;
    assert GlobalsOk(Objects(ps)) by {
      assert AllWellFormed(ps) && DistinctLabels(Flatten(ps)) by {
        CompatibleParts(ps);
      }
      ExportedTable(ps);
    }
    forall k | 0 <= k < |ps|
      ensures ValidObject(Objects(ps)[k])
      ensures ModuleResolves(Objects(ps)[k],
                ModuleTable(Objects(ps)[k], TotalSize(Objects(ps)[..k]), GlobalTable(Objects(ps))))
    {
      ModuleAccepted(ps, k);
    }
  }

  lemma CompatibleParts(ps: seq<Program>)
    requires Compatible(ps)
    ensures AllWellFormed(ps) && DistinctLabels(Flatten(ps))
  {
  }

  // ----- Linked code -----

  lemma {:induction false} ConcatPrefix(objs: seq<ObjectFile>, k: nat)
    requires ValidObjects(objs) && k <= |objs|
    ensures 0 <= TotalSize(objs[..k]) <= |Concat(objs)|
    ensures Concat(objs)[..TotalSize(objs[..k])] == Concat(objs[..k])
    decreases |objs| - k
  {
    ModuleBounds(objs, k);
    ConcatLength(objs);
    if k < |objs| {
      ConcatPrefix(objs, k + 1);
      ModuleBounds(objs, k + 1);
      assert objs[..k + 1][..k] == objs[..k];
      assert Concat(objs[..k + 1]) == Concat(objs[..k]) + objs[k].code;
    } else {
      assert objs[..k] == objs;
    }
  }

  /** What follows the first `k` modules begins with module `k`. */
  lemma ConcatSplit(objs: seq<ObjectFile>, k: nat)
    requires ValidObjects(objs) && k < |objs|
    ensures 0 <= TotalSize(objs[..k]) <= TotalSize(objs[..k + 1]) <= |Concat(objs)|
    ensures Concat(objs)[TotalSize(objs[..k])..] == objs[k].code + Concat(objs)[TotalSize(objs[..k + 1])..]
  {
    ConcatPrefix(objs, k);
    ConcatPrefix(objs, k + 1);
    ModuleBounds(objs, k);
    assert objs[..k + 1][..k] == objs[..k];
    assert ValidObject(objs[k]);
    TailOf(Concat(objs), TotalSize(objs[..k]), TotalSize(objs[..k + 1]), objs[k].code);
  }

  lemma TailOf(all: seq<Byte>, b: nat, e: nat, middle: seq<Byte>)
    requires b <= e <= |all| && all[..e] == all[..b] + middle
    ensures all[b..] == middle + all[e..]
  {
    assert all[b..] == all[..e][b..] + all[e..];
  }

  lemma PatchedMiddle(a: seq<Byte>, b: seq<Byte>, c: seq<Byte>, relocs: seq<Reloc>, tab: SymTab)
    requires WindowsIn(relocs, |b|)
    ensures WindowsIn(relocs, |a + (b + c)| - |a|)
    ensures Patched(a + (b + c), |a|, relocs, tab) == a + (Patched(b, 0, relocs, tab) + c)
  {
    hide Patched;
    PatchedLeft(b, c, relocs, tab);
    PatchedRight(a, b + c, relocs, tab);
  }

  /** Linking one module turns its object code into its code in the concatenated program. */
  lemma PatchedModule(ps: seq<Program>, k: nat)
    requires Compatible(ps) && k < |ps|
    ensures WindowsIn(Relocs(ps[k]), Size(ps[k]))
    ensures Patched(ObjectOf(ps[k]).code, 0, Relocs(ps[k]),
              ModuleTable(Objects(ps)[k], TotalSize(Objects(ps)[..k]), GlobalTable(Objects(ps))))
         == Code(ps[k], Symbols(Flatten(ps)))
  {
    hide Compatible, Patched, Code, GlobalTable, TotalSize, ModuleTable, Symbols, Relocs;
    ModuleAgrees(ps, k);
    var tab := ModuleTable(Objects(ps)[k], TotalSize(Objects(ps)[..k]), GlobalTable(Objects(ps)));
    PatchProgram(ps[k], Symbols(ps[k]), tab);
    CodeCongruent(ps[k], tab, Symbols(Flatten(ps)));
  }

  /** After patching the first `n` modules their bytes are final and the rest is still object code. */
  lemma {:induction false} PatchedPrefix(ps: seq<Program>, n: nat)
    requires Compatible(ps) && n <= |ps|
    requires ValidObjects(Objects(ps)) && RelocsOk(Objects(ps), GlobalTable(Objects(ps)), n)
    ensures 0 <= TotalSize(Objects(ps)[..n]) <= |Concat(Objects(ps))|
    ensures PatchModules(Objects(ps), GlobalTable(Objects(ps)), n)
         == Code(Flatten(ps[..n]), Symbols(Flatten(ps))) + Concat(Objects(ps))[TotalSize(Objects(ps)[..n])..]
  {
    hide Compatible, Patched, Code, GlobalTable, ModuleTable, Symbols, Relocs, Concat, RelocsOk, ValidObjects;
    var objs := Objects(ps);
    var all := Symbols(Flatten(ps));
    ConcatPrefix(objs, n);
    if n > 0 {
      var k := n - 1;
      assert RelocsOk(objs, GlobalTable(objs), k) by { RelocsOkPrefix(objs, GlobalTable(objs), k); }
      PatchedPrefix(ps, k);
      ObjectAt(ps, k);
      ConcatSplit(objs, k);
      FlattenStep(ps, k);
      BaseIsOffset(ps[..k]);
      PatchedModule(ps, k);
      var tab := ModuleTable(objs[k], TotalSize(objs[..k]), GlobalTable(objs));
      PatchedMiddle(Code(Flatten(ps[..k]), all), objs[k].code, Concat(objs)[TotalSize(objs[..n])..], Relocs(ps[k]),
                    tab);
      CodeAppend(Flatten(ps[..k]), ps[k], all);
    } else {
      CodeNothing(all);
      assert Flatten(ps[..0]) == [];
      assert Concat(objs)[0..] == Concat(objs);
    }
  }

  lemma CodeNothing(tab: SymTab)
    ensures Code([], tab) == []
  {
  }

  lemma RelocsOkPrefix(mods: seq<ObjectFile>, globals: SymTab, k: nat)
    requires k < |mods| && RelocsOk(mods, globals, k + 1)
    ensures RelocsOk(mods, globals, k)
  {
  }

  lemma RelocsLast(p: Program)
    requires p != []
    ensures Relocs(p) == Relocs(p[..|p| - 1]) + StmtRelocs(p[|p| - 1].stmt, Size(p[..|p| - 1]))
  {
  }

  lemma AppendNothing(a: seq<Reloc>)
    ensures a + [] == a
  {
  }

  lemma OffsetsOfReloc(all: seq<Reloc>, front: seq<Reloc>, back: seq<Reloc>, base: int, r: Reloc, r': Reloc)
    requires Offsets(all, 0) == Offsets(front, 0) + Offsets(back, base)
    requires r'.offset == base + r.offset
    ensures Offsets(all + [r'], 0) == Offsets(front, 0) + Offsets(back + [r], base)
  {
    hide Offsets;
    OffsetsSnoc(all, r', 0);
    OffsetsSnoc(back, r, base);
    Associative(Offsets(front, 0), Offsets(back, base), [base + r.offset]);
  }

  lemma OffsetsOfTail(all: seq<Reloc>, front: seq<Reloc>, back: seq<Reloc>, base: int, x: seq<Reloc>, x': seq<Reloc>)
    requires Offsets(all, 0) == Offsets(front, 0) + Offsets(back, base)
    requires |x| == |x'| <= 1 && (|x| == 1 ==> x'[0].offset == base + x[0].offset)
    ensures Offsets(all + x', 0) == Offsets(front, 0) + Offsets(back + x, base)
  {
    hide Offsets;
    if |x| == 0 {
      AppendNothing(all);
      AppendNothing(back);
      assert x == x' == [];
    } else {
      OffsetsOfReloc(all, front, back, base, x[0], x'[0]);
      assert x == [x[0]] && x' == [x'[0]];
    }
  }

  lemma NoRelocs(base: int)
    ensures Offsets(Relocs([]), base) == []
  {
  }

  lemma {:induction false} RelocsAppend(a: Program, b: Program)
    ensures Offsets(Relocs(a + b), 0) == Offsets(Relocs(a), 0) + Offsets(Relocs(b), Size(a))
  {
    hide Relocs, StmtRelocs, Offsets, Size, SymRef;
    if b == [] {
      assert a + b == a;
      NoRelocs(Size(a));
      assert Offsets(Relocs(a), 0) + [] == Offsets(Relocs(a), 0);
    } else {
      var init := b[..|b| - 1];
      AppendInit(a, b);
      RelocsAppend(a, init);
      SizeAppend(a, init);
      RelocsLast(a + b);
      RelocsLast(b);
      var s := b[|b| - 1].stmt;
      StmtRelocShape(s, Size(init));
      StmtRelocShape(s, Size(a) + Size(init));
      OffsetsOfTail(Relocs(a + init), Relocs(a), Relocs(init), Size(a),
                    StmtRelocs(s, Size(init)), StmtRelocs(s, Size(a) + Size(init)));
    }
  }

  lemma {:induction false} PendingAppend(ps: seq<Program>)
    ensures PendingOffsets(Objects(ps)) == Offsets(Relocs(Flatten(ps)), 0)
  {
    if ps != [] {
      hide Relocs;
      var init := ps[..|ps| - 1];
      PendingAppend(init);
      assert Objects(ps)[..|ps| - 1] == Objects(init);
      BaseIsOffset(init);
      RelocsAppend(Flatten(init), ps[|ps| - 1]);
    }
  }

  // ----- The concatenated program -----

  predicate EntriesIn(p: Program, tab: SymTab)
  {
    forall j :: 0 <= j < |p| && p[j].stmt.Entry? ==> p[j].stmt.name in tab
  }

  lemma RefsAppend(a: Program, b: Program, tab: SymTab)
    requires Refs(a, tab) && Refs(b, tab) && EntriesIn(a, tab) && EntriesIn(b, tab)
    ensures Refs(a + b, tab) && EntriesIn(a + b, tab)
  {
    hide SymRef;
    var c := a + b;
    forall k | 0 <= k < |c|
      ensures SymRef(c[k].stmt).Some? ==> SymRef(c[k].stmt).value.1 in tab
      ensures c[k].stmt.Entry? ==> c[k].stmt.name in tab
    {
      assert c[k] == if k < |a| then a[k] else b[k - |a|];
    }
  }

  lemma {:induction false} FlattenRefs(ps: seq<Program>, tab: SymTab)
    requires forall k :: 0 <= k < |ps| ==> Refs(ps[k], tab) && EntriesIn(ps[k], tab)
    ensures Refs(Flatten(ps), tab) && EntriesIn(Flatten(ps), tab)
  {
    hide Refs, EntriesIn;
    if ps == [] {
      NoRefs(tab);
    } else {
      var init := ps[..|ps| - 1];
      assert forall k :: 0 <= k < |init| ==> init[k] == ps[k];
      FlattenRefs(init, tab);
      RefsAppend(Flatten(init), ps[|ps| - 1], tab);
    }
  }

  lemma NoRefs(tab: SymTab)
    ensures Refs([], tab) && EntriesIn([], tab)
  {
  }

  lemma ResolvedIsWellFormed(p: Program)
    requires DistinctLabels(p) && Globals(p) <= Symbols(p).Keys
    requires Refs(p, Symbols(p)) && EntriesIn(p, Symbols(p))
    ensures WellFormed(p)
  {
    hide Symbols, Globals, DistinctLabels, Externs;
    forall k | 0 <= k < |p| ensures StmtResolves(p[k].stmt, Symbols(p), Externs(p)) {
      assert SymRef(p[k].stmt).Some? ==> SymRef(p[k].stmt).value.1 in Symbols(p);
    }
  }

  lemma ModuleEntries(ps: seq<Program>, k: nat)
    requires Compatible(ps) && k < |ps|
    ensures EntriesIn(ps[k], Symbols(Flatten(ps)))
  {
    hide Symbols, DistinctLabels, Flatten, Globals, Externs;
    ModuleSymbols(ps, k);
    assert WellFormed(ps[k]);
    forall j | 0 <= j < |ps[k]| && ps[k][j].stmt.Entry? ensures ps[k][j].stmt.name in Symbols(Flatten(ps)) {
      assert StmtResolves(ps[k][j].stmt, Symbols(ps[k]), Externs(ps[k]));
    }
  }

  /** The assembler accepts the concatenation, with no reference left open. */
  lemma FlattenAccepted(ps: seq<Program>)
    requires Compatible(ps)
    ensures WellFormed(Flatten(ps)) && Refs(Flatten(ps), Symbols(Flatten(ps)))
  {
    hide Symbols, DistinctLabels, Flatten, Globals, Refs, EntriesIn;
    forall k | 0 <= k < |ps|
      ensures Refs(ps[k], Symbols(Flatten(ps))) && EntriesIn(ps[k], Symbols(Flatten(ps)))
    {
      ModuleAgrees(ps, k);
      ModuleEntries(ps, k);
    }
    FlattenRefs(ps, Symbols(Flatten(ps)));
    ExportedTable(ps);
    ResolvedIsWellFormed(Flatten(ps));
  }

  /** Linked code, pending relocations and exported symbols depend only on the concatenated program. */
  lemma LinkedIsAssembled(ps: seq<Program>)
    requires Compatible(ps)
    ensures ValidObjects(Objects(ps)) && Linkable(Objects(ps), None)
    ensures PatchModules(Objects(ps), GlobalTable(Objects(ps)), |ps|) == ObjectOf(Flatten(ps)).code
    ensures PendingOffsets(Objects(ps)) == Offsets(Relocs(Flatten(ps)), 0)
    ensures GlobalTable(Objects(ps)) == Restrict(Symbols(Flatten(ps)), Globals(Flatten(ps)))
  {
    hide Symbols, DistinctLabels, Globals, Refs, GlobalTable, Relocs, PendingOffsets, Code, PatchModules, Concat,
         ValidObjects, RelocsOk, GlobalsOk, Offsets, Externs, AllWellFormed, ExternsExported;
    CompatibleLinks(ps);
    PatchedPrefix(ps, |ps|);
    PendingAppend(ps);
    ExportedTable(ps);
    assert ps[..|ps|] == ps;
    assert Objects(ps)[..|ps|] == Objects(ps);
    ConcatLength(Objects(ps));
  }

  lemma AloneIsCompatible(p: Program)
    requires WellFormed(p) && Refs(p, Symbols(p))
    ensures Compatible([p]) && Flatten([p]) == p && Objects([p]) == [ObjectOf(p)]
  {
    hide Symbols, DistinctLabels, Globals, ObjectOf, Externs, Resolves, SymRef;
    var ps := [p];
    FlattenStep(ps, 0);
    assert ps[..1] == ps && ps[..0] == [];
    assert Flatten([]) + p == p;
    assert forall j :: 0 <= j < |p| && SymRef(p[j].stmt).Some? ==> SymRef(p[j].stmt).value.1 in Symbols(p);
  }

  // ----- Entry -----

  predicate EntryOnlyFirst(ps: seq<Program>)
  {
    forall k :: 1 <= k < |ps| ==> !HasEntry(ps[k])
  }

  lemma {:induction false} EntryOfFirst(ps: seq<Program>, tab: SymTab)
    requires ps != [] && EntryOnlyFirst(ps)
    ensures EntryOf(Flatten(ps), tab) == EntryOf(ps[0], tab)
  {
    var n := |ps| - 1;
    var init := ps[..n];
    EntryAppend(Flatten(init), ps[n], tab);
    if n == 0 {
      assert Flatten(init) + ps[0] == ps[0];
    } else {
      assert forall k :: 0 <= k < n ==> init[k] == ps[k];
      EntryOfFirst(init, tab);
    }
  }

  lemma {:induction false} EntrySameTable(p: Program, t1: SymTab, t2: SymTab)
    requires EntriesIn(p, t1) && forall s :: s in t1 ==> s in t2 && t2[s] == t1[s]
    ensures EntryOf(p, t1) == EntryOf(p, t2)
  {
    if p != [] && !p[|p| - 1].stmt.Entry? {
      var init := p[..|p| - 1];
      assert forall j :: 0 <= j < |init| ==> init[j] == p[j];
      EntrySameTable(init, t1, t2);
    }
  }

  lemma EntriesLocal(p: Program)
    requires WellFormed(p)
    ensures EntriesIn(p, Symbols(p))
  {
    hide Symbols, Externs, Globals, DistinctLabels;
    forall j | 0 <= j < |p| && p[j].stmt.Entry? ensures p[j].stmt.name in Symbols(p) {
      assert StmtResolves(p[j].stmt, Symbols(p), Externs(p));
    }
  }

  /** The default entry point: that of the first module, which is the concatenation's
      when only the first module has an `.ENTRY`. */
  lemma LinkedDefaultEntry(ps: seq<Program>)
    requires Compatible(ps) && EntryOnlyFirst(ps)
    ensures LinkedEntry(Objects(ps), None) == ObjectOf(Flatten(ps)).entry
  {
    hide Symbols, DistinctLabels, Globals, Code, Relocs, Externs;
    if ps != [] {
      var all := Symbols(Flatten(ps));
      ObjectAt(ps, 0);
      EntryOfFirst(ps, all);
      ModuleSymbols(ps, 0);
      assert ps[..0] == [];
      EntriesLocal(ps[0]);
      EntrySameTable(ps[0], Symbols(ps[0]), all);
    }
  }

  /** Separate assembly.  Linking the separately assembled modules, in either mode, gives the image
      that linking the one object of the concatenated source gives.  The only thing that can differ is
      the default entry point, when a later module has an `.ENTRY` of its own. */
  lemma SeparateAssemblyCorrect(ps: seq<Program>, mode: Mode, load: int, entrySymbol: Option<string>)
    requires Compatible(ps)
    requires entrySymbol.Some? ==> entrySymbol.value in Globals(Flatten(ps))
    requires entrySymbol.None? ==> EntryOnlyFirst(ps)
    ensures WellFormed(Flatten(ps))
    ensures ValidObjects(Objects(ps)) && Linkable(Objects(ps), entrySymbol)
    ensures var whole := [ObjectOf(Flatten(ps))];
      && ValidObjects(whole) && Linkable(whole, entrySymbol)
      && LinkedImage(Objects(ps), mode, load, entrySymbol) == LinkedImage(whole, mode, load, entrySymbol)
  {
    hide Symbols, DistinctLabels, Globals, Relocs, PendingOffsets, Code, PatchModules, Concat, Compatible, Flatten,
         GlobalTable, ValidObjects, GlobalsOk, RelocsOk, Offsets, Shift, WellFormed, Refs, Restrict, EntryOnlyFirst,
         Objects,
         ObjectOf;
    var p := Flatten(ps);
    FlattenAccepted(ps);
    LinkedIsAssembled(ps);
    AloneIsCompatible(p);
    LinkedIsAssembled([p]);
    CompatibleParts(ps);
    ExportedTable(ps);
    RestrictKeys(Symbols(p), Globals(p));
    if entrySymbol.None? {
      LinkedDefaultEntry(ps);
    }
  }
}
