/** Relocatable images do not depend on where they are loaded, and what the
    absolute mode does instead. */
module PositionIndependence {
  import opened Bytes
  import opened Assembler
  import opened Linker
  import opened Vm
  import opened Layout
  import opened SourceMachine
  import opened SeparateAssembly
  import opened Simulation

  /** An offset range that touches no relocated word. */
  predicate ClearOfWindows(p: Program, off: int)
  {
    forall i :: off <= i < off + 2 ==> !InSomeWindow(Offsets(Relocs(p), 0), i)
  }

  /** Position-independent lines name every address by a symbol inside the image, and load
      no word the loader rewrites. */
  predicate PositionFree(p: Program, s: Stmt)
  {
    match s
    case Op(Load(_, o)) => o.Symbol? && DataSymbol(p, o.name) && ClearOfWindows(p, Symbols(p)[o.name])
    case Op(Store(_, o)) => o.Symbol? && DataSymbol(p, o.name)
    case Op(Jmp(o)) => o.Symbol?
    case Op(Jz(_, o)) => o.Symbol?
    case Op(Jnz(_, o)) => o.Symbol?
    case _ => true
  }

  /** A symbol with a whole word of the image behind it. */
  predicate DataSymbol(p: Program, name: string)
  {
    name in Symbols(p) && 0 <= Symbols(p)[name] && Symbols(p)[name] + 2 <= Size(p)
  }

  predicate PositionIndependent(p: Program)
  {
    forall k :: 0 <= k < |p| ==> PositionFree(p, p[k].stmt)
  }

  /** The image parts of two memories, one loaded at `base` and one at 0, agree outside the windows. */
  ghost predicate SameImage(p: Program, base: nat, m: Memory, m0: Memory)
    requires base + Size(p) <= MEMORY_SIZE
  {
    forall i :: 0 <= i < Size(p) && !InSomeWindow(Offsets(Relocs(p), 0), i) ==> m[base + i] == m0[i]
  }

  ghost predicate Shifted(p: Program, base: nat, c: Config, c0: Config)
    requires base + Size(p) <= MEMORY_SIZE
  {
    c.line == c0.line && c.regs == c0.regs && c.out == c0.out && SameImage(p, base, c.mem, c0.mem)
  }

  ghost predicate SameBehaviour(p: Program, base: nat, r: Behaviour, r0: Behaviour)
    requires base + Size(p) <= MEMORY_SIZE
  {
    match (r, r0)
    case (Running(c), Running(c0)) => Shifted(p, base, c, c0)
    case (Exited(code, c), Exited(code0, c0)) => code == code0 && Shifted(p, base, c, c0)
    case (DividedByZero, DividedByZero) => true
    case (Wrong, Wrong) => true
    case _ => false
  }

  lemma {:induction false} DataAddress(p: Program, base: nat, o: Operand)
    requires base + Size(p) <= MEMORY_SIZE && o.Symbol? && DataSymbol(p, o.name)
    ensures Address(p, base, o) == base + Symbols(p)[o.name]
    ensures Readable(Address(p, base, o), 2)
  {
    hide Symbols, Size;
  }

  lemma SparesCodeShifts(p: Program, base: nat, off: nat)
    ensures SparesCode(p, base, base + off) <==> SparesCode(p, 0, off)
  {
    hide PcAt;
    forall j | 0 <= j < |p| && p[j].stmt.Op?
      ensures (base + off + 2 <= base + PcAt(p, j) || base + PcAt(p, j) + InstrSize(p[j].stmt.i) <= base + off)
              <==> (off + 2 <= 0 + PcAt(p, j) || 0 + PcAt(p, j) + InstrSize(p[j].stmt.i) <= off)
    {
    }
  }

  lemma LoadAgrees(p: Program, base: nat, m: Memory, m0: Memory, off: nat)
    requires base + Size(p) <= MEMORY_SIZE && SameImage(p, base, m, m0)
    requires off + 2 <= Size(p) && ClearOfWindows(p, off)
    ensures ReadU16(m, base + off) == ReadU16(m0, off)
  {
    assert m[base + off] == m0[off];
    assert m[base + (off + 1)] == m0[off + 1];
  }

  lemma StoreAgrees(p: Program, base: nat, m: Memory, m0: Memory, off: nat, v: int)
    requires base + Size(p) <= MEMORY_SIZE && SameImage(p, base, m, m0) && off + 2 <= Size(p)
    ensures SameImage(p, base, PatchU16(m, base + off, v), PatchU16(m0, off, v))
  {
    hide PatchU16, Relocs, Size;
    forall i | 0 <= i < Size(p) && !InSomeWindow(Offsets(Relocs(p), 0), i)
      ensures PatchU16(m, base + off, v)[base + i] == PatchU16(m0, off, v)[i]
    {
      if off <= i < off + 2 {
        PatchInside(m, base + off, v, i - off);
        PatchInside(m0, off, v, i - off);
      } else {
        PatchOutside(m, base + off, v, base + i);
        PatchOutside(m0, off, v, i);
      }
    }
  }

  lemma PatchInside(s: seq<Byte>, off: nat, v: int, k: nat)
    requires off + 1 < |s| && k < 2
    ensures PatchU16(s, off, v)[off + k] == WordBytes(v)[k]
  {
  }

  lemma SymbolicJump(p: Program, base: nat, o: Operand)
    requires o.Symbol?
    ensures JumpLine(p, base, o) == JumpLine(p, 0, o)
  {
  }

  lemma AccessLockstep(p: Program, base: nat, c: Config, c0: Config)
    requires base + Size(p) <= MEMORY_SIZE && PositionIndependent(p) && Shifted(p, base, c, c0) && IsOp(p, c.line)
    requires p[c.line].stmt.i.Load? || p[c.line].stmt.i.Store?
    ensures SameBehaviour(p, base, SourceStep(p, base, c), SourceStep(p, 0, c0))
  {
    hide PatchU16, ReadU16, SameImage, Size, Symbols, PcAt, SparesCode, ClearOfWindows, Address, Skip;
    var i := p[c.line].stmt.i;
    assert PositionFree(p, p[c.line].stmt);
    var off := Symbols(p)[i.addr.name];
    DataAddress(p, base, i.addr);
    DataAddress(p, 0, i.addr);
    if i.Load? {
      LoadAgrees(p, base, c.mem, c0.mem, off);
    } else {
      SparesCodeShifts(p, base, off);
      StoreAgrees(p, base, c.mem, c0.mem, off, c.regs[i.r]);
    }
  }

  lemma PlainLockstep(p: Program, base: nat, c: Config, c0: Config)
    requires base + Size(p) <= MEMORY_SIZE && Shifted(p, base, c, c0) && IsOp(p, c.line)
    requires PositionFree(p, p[c.line].stmt) && !p[c.line].stmt.i.Load? && !p[c.line].stmt.i.Store?
    ensures SameBehaviour(p, base, SourceStep(p, base, c), SourceStep(p, 0, c0))
  {
    hide PatchU16, ReadU16, SameImage, Size, Symbols, SparesCode, ClearOfWindows, Address, JumpLine, Skip, AluResult,
         DataSymbol;
    var i := p[c.line].stmt.i;
    if i.Jmp? || i.Jz? || i.Jnz? {
      SymbolicJump(p, base, i.target);
    }
  }

  lemma StepLockstep(p: Program, base: nat, c: Config, c0: Config)
    requires base + Size(p) <= MEMORY_SIZE && PositionIndependent(p) && Shifted(p, base, c, c0)
    ensures SameBehaviour(p, base, SourceStep(p, base, c), SourceStep(p, 0, c0))
  {
    hide SameImage, Size, PositionFree;
    if IsOp(p, c.line) {
      hide SourceStep, SameBehaviour;
      assert PositionFree(p, p[c.line].stmt);
      var i := p[c.line].stmt.i;
      if i.Load? || i.Store? {
        AccessLockstep(p, base, c, c0);
      } else {
        PlainLockstep(p, base, c, c0);
      }
    }
  }

  lemma {:induction false} RunLockstep(p: Program, base: nat, c: Config, c0: Config, n: nat)
    requires base + Size(p) <= MEMORY_SIZE && PositionIndependent(p) && Shifted(p, base, c, c0)
    ensures SameBehaviour(p, base, SourceRun(p, base, c, n), SourceRun(p, 0, c0, n))
    decreases n
  {
    hide SourceStep, Shifted, PositionIndependent, Size;
    if n > 0 {
      StepLockstep(p, base, c, c0);
      var r, r0 := SourceStep(p, base, c), SourceStep(p, 0, c0);
      if r.Running? {
        RunLockstep(p, base, r.next, r0.next, n - 1);
      }
    }
  }

  // ----- Loaded images -----

  lemma OrderedAreDisjoint(offs: seq<int>, size: int)
    requires OrderedWindows(offs, size)
    ensures DisjointWindows(offs)
  {
  }

  /** The relocation windows of a linked image are those of the concatenated program: in range and disjoint. */
  lemma ImageWindows(ps: seq<Program>, entry: Option<string>)
    requires Compatible(ps) && Exported(ps, entry)
    ensures ValidObjects(Objects(ps)) && Linkable(Objects(ps), entry)
    ensures ImageOf(ps, entry).relocs == Offsets(Relocs(Flatten(ps)), 0)
    ensures |ImageOf(ps, entry).code| == Size(Flatten(ps))
    ensures OffsetsIn(ImageOf(ps, entry).relocs, |ImageOf(ps, entry).code|)
    ensures DisjointWindows(ImageOf(ps, entry).relocs)
  {
    hide Symbols, Code, Relocs, Offsets, Size, Compatible, ValidObjects, GlobalsOk, RelocsOk, PatchModules, GlobalTable,
         PendingOffsets, Shift, LinkedEntry, DisjointWindows;
    EntryLinks(ps, entry);
    LinkedIsAssembled(ps);
    RelocWindows(Flatten(ps));
    OrderedAreDisjoint(Offsets(Relocs(Flatten(ps)), 0), Size(Flatten(ps)));
  }

  /** Loading at `base` changes exactly the windows, each by `base` modulo 2^16. */
  lemma LoadAtBase(ps: seq<Program>, entry: Option<string>, base: int)
    requires Compatible(ps) && Exported(ps, entry)
    ensures ValidObjects(Objects(ps)) && Linkable(Objects(ps), entry)
    ensures var image := ImageOf(ps, entry);
      OffsetsIn(image.relocs, |image.code|) && Moved(image.code, LoadedCode(image, Some(base)), image.relocs, base)
  {
    hide Compatible, ValidObjects, Linkable, Relocated, Relocs, Offsets, DisjointWindows, OffsetsIn, Moved;
    ImageWindows(ps, entry);
    RelocatedWindows(ImageOf(ps, entry).code, ImageOf(ps, entry).relocs, base);
  }

  lemma SpliceAt(s: seq<Byte>, off: nat, b: seq<Byte>, i: nat)
    requires off + |b| <= |s| && i < |b|
    ensures Splice(s, off, b)[off + i] == b[i]
  {
  }

  lemma LoadedShifted(ps: seq<Program>, entry: Option<string>, base: nat)
    requires Compatible(ps) && Exported(ps, entry) && base + Size(Flatten(ps)) <= MEMORY_SIZE
    ensures ValidObjects(Objects(ps)) && Linkable(Objects(ps), entry)
    ensures var image := ImageOf(ps, entry);
      && OffsetsIn(image.relocs, |image.code|) && Fits(image, Some(base)) && Fits(image, Some(0))
      && SameImage(Flatten(ps), base, LoadedMemory(image, Some(base)), LoadedMemory(image, Some(0)))
  {
    hide Compatible, ValidObjects, Linkable, Relocated, Relocs, Offsets, DisjointWindows, InSomeWindow, OffsetsIn,
         Splice,
         ZeroMemory, Size, LoadedCode;
    ImageWindows(ps, entry);
    LoadAtBase(ps, entry, base);
    LoadAtBase(ps, entry, 0);
    var image := ImageOf(ps, entry);
    var m, m0 := LoadedMemory(image, Some(base)), LoadedMemory(image, Some(0));
    forall i | 0 <= i < |image.code| && !InSomeWindow(image.relocs, i) ensures m[base + i] == m0[i] {
      SpliceAt(ZeroMemory(), base, LoadedCode(image, Some(base)), i);
      SpliceAt(ZeroMemory(), 0, LoadedCode(image, Some(0)), i);
    }
  }

  /** What one can see of a machine outcome: registers, output, exit code; a running or final
      program counter is compared relative to the base. */
  ghost predicate SameOutcome(base: nat, o: Outcome, o0: Outcome)
  {
    match (o, o0)
    case (Continue(s), Continue(s0)) => s.regs == s0.regs && s.out == s0.out && s.pc == s0.pc + base
    case (Exit(code, s), Exit(code0, s0)) =>
      code == code0 && s.regs == s0.regs && s.out == s0.out && s.pc == s0.pc + base
    case (DivByZero, DivByZero) => true
    case _ => false
  }

  lemma MatchedOutcomes(p: Program, base: nat, r: Behaviour, r0: Behaviour, o: Outcome, o0: Outcome)
    requires base + Size(p) <= MEMORY_SIZE && SameBehaviour(p, base, r, r0) && r != Wrong
    requires Matches(p, base, r, o) && Matches(p, 0, r0, o0)
    ensures SameOutcome(base, o, o0)
  {
    hide SameImage, CodeIntact, Size, PcAt;
  }

  /** Position independence.  A program that names its addresses by symbols and loads no relocated word
      runs at any base as it runs at 0: same registers, same output, same exit, program counter moved by
      the base, after any number of steps, unless the source itself goes wrong. */
  lemma RunsAnywhere(ps: seq<Program>, entry: Option<string>, base: nat, n: nat)
    requires Compatible(ps) && Exported(ps, entry) && base + Size(Flatten(ps)) <= MEMORY_SIZE
    requires PositionIndependent(Flatten(ps))
    ensures ValidObjects(Objects(ps)) && Linkable(Objects(ps), entry)
    ensures var image := ImageOf(ps, entry);
      && OffsetsIn(image.relocs, |image.code|) && Fits(image, Some(base)) && Fits(image, Some(0))
      && (SourceProgram(Flatten(ps), EntryName(ps, entry), base, LoadedMemory(image, Some(base)), n) != Wrong ==>
            SameOutcome(base, Run(InitialState(image, Some(base)), n), Run(InitialState(image, Some(0)), n)))
  {
    hide Compatible, ValidObjects, Linkable, OffsetsIn, Fits, Size, LoadedMemory, InitialState, Run, SourceRun,
         EntryLine, EntryName, Exported,
         PositionIndependent, SameImage, Matches, SameOutcome, ImageOf, SameBehaviour;
    var p := Flatten(ps);
    LoadedShifted(ps, entry, base);
    SemanticPreservation(ps, entry, base, n);
    SemanticPreservation(ps, entry, 0, n);
    var image := ImageOf(ps, entry);
    var m, m0 := LoadedMemory(image, Some(base)), LoadedMemory(image, Some(0));
    var name := EntryName(ps, entry);
    var start := EntryLine(p, name);
    if IsOp(p, start) {
      var zero: Registers := [0, 0, 0, 0, 0, 0, 0, 0];
      RunLockstep(p, base, Config(start, zero, m, []), Config(start, zero, m0, []), n);
      if SourceProgram(p, name, base, m, n) != Wrong {
        MatchedOutcomes(p, base, SourceProgram(p, name, base, m, n), SourceProgram(p, name, 0, m0, n),
                        Run(InitialState(image, Some(base)), n), Run(InitialState(image, Some(0)), n));
      }
    }
  }

  // ----- Absolute mode -----

  function AbsoluteImage(ps: seq<Program>, entry: Option<string>, load: int): Image
    requires Compatible(ps) && ValidObjects(Objects(ps)) && Linkable(Objects(ps), entry)
  {
    LinkedImage(Objects(ps), Absolute, load, entry)
  }

  /** Absolute mode moves the entry point and the symbols to the load address but leaves every patched word
      as linked for 0.  So it loads the same bytes as the relocating loader exactly when the load address is
      a multiple of 2^16 or there is nothing to relocate.  A base asked for at load time changes nothing. */
  lemma AbsoluteVersusRelocated(ps: seq<Program>, entry: Option<string>, load: int, at: Option<int>)
    requires Compatible(ps) && Exported(ps, entry)
    ensures ValidObjects(Objects(ps)) && Linkable(Objects(ps), entry)
    ensures var abs := AbsoluteImage(ps, entry, load);
      var rel := ImageOf(ps, entry);
      && BaseOf(abs, at) == load && EntryPc(abs, at) == EntryPc(abs, None)
      && abs.relocs == [] && LoadedCode(abs, at) == LoadedCode(abs, None)
      && OffsetsIn(rel.relocs, |rel.code|)
      && BaseOf(abs, None) == BaseOf(rel, Some(load)) == load
      && EntryPc(abs, None) == EntryPc(rel, Some(load))
      && |LoadedCode(abs, None)| == |rel.code|
      && Moved(LoadedCode(abs, None), LoadedCode(rel, Some(load)), rel.relocs, load)
      && (LoadedCode(abs, None) == LoadedCode(rel, Some(load)) <==> load % 0x1_0000 == 0 || rel.relocs == [])
  {
    hide Compatible, ValidObjects, Linkable, Relocated, OffsetsIn, Moved, PatchModules, GlobalTable, PendingOffsets,
         Shift, LinkedEntry;
    LoadAtBase(ps, entry, load);
    var rel := ImageOf(ps, entry);
    MovedNothing(rel.code, LoadedCode(rel, Some(load)), rel.relocs, load);
  }

  /** A jump to itself: one module, one relocation. */
  function Loop(name: string): Program
  {
    [Line(Some(name), Op(Jmp(Symbol(name))))]
  }

  lemma LoopIsCompatible(name: string)
    ensures Compatible([Loop(name)]) && Flatten([Loop(name)]) == Loop(name)
    ensures Relocs(Loop(name)) == [Reloc(1, 2, name, 0)]
  {
    var p := Loop(name);
    assert p[..|p| - 1] == [];
    assert Symbols(p) == map[name := 0];
    assert Globals([]) == {} && !p[0].stmt.Global?;
    assert DistinctLabels(p);
    AloneIsCompatible(p);
  }

  /** Linked in absolute mode for an address such as 0x100, the loop jumps out of itself. */
  lemma AbsoluteExample(name: string, load: int)
    requires 0 < load < 0x1_0000
    ensures Compatible([Loop(name)]) && ValidObjects(Objects([Loop(name)])) && Linkable(Objects([Loop(name)]), None)
    ensures OffsetsIn(ImageOf([Loop(name)], None).relocs, |ImageOf([Loop(name)], None).code|)
    ensures LoadedCode(AbsoluteImage([Loop(name)], None, load), None)
      != LoadedCode(ImageOf([Loop(name)], None), Some(load))
  {
    hide Compatible, ValidObjects, Linkable, Relocated, OffsetsIn, Moved, PatchModules, GlobalTable, PendingOffsets,
         Shift, LinkedEntry, Objects, Flatten, Relocs, LoadedCode;
    LoopIsCompatible(name);
    AbsoluteVersusRelocated([Loop(name)], None, load, None);
    LinkedIsAssembled([Loop(name)]);
    assert |Offsets(Relocs(Loop(name)), 0)| == 1;
  }
}
