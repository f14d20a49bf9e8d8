/** Semantic preservation: the virtual machine, run on assembled, linked and
    relocated bytes, does step by step what the source machine does. */
module Simulation {
  import opened Bytes
  import opened Assembler
  import opened Linker
  import opened Vm
  import opened Layout
  import opened SourceMachine
  import opened SeparateAssembly

  // ----- Pass 1 and pass 2 agree on every offset -----

  lemma {:induction false} SkipKeepsPc(p: Program, k: nat)
    requires k <= |p|
    ensures PcAt(p, Skip(p, k)) == PcAt(p, k)
    decreases |p| - k
  {
    if k < |p| && StmtSize(p[k].stmt) == 0 {
      Extend(p, k, map[]);
      SkipKeepsPc(p, k + 1);
    }
  }

  lemma NextPc(p: Program, k: nat)
    requires IsOp(p, k)
    ensures PcAt(p, Skip(p, k + 1)) == PcAt(p, k) + InstrSize(p[k].stmt.i)
  {
    Extend(p, k, map[]);
    SkipKeepsPc(p, k + 1);
  }

  /** A label's line is where pass 1 put the label. */
  lemma {:induction false} LabelPc(p: Program, name: string)
    requires DistinctLabels(p) && name in Symbols(p)
    ensures LabelLine(p, name) < |p|
    ensures PcAt(p, LabelLine(p, name)) == Symbols(p)[name]
  {
    var n := |p| - 1;
    var init := p[..n];
    if p[n].lab != Some(name) {
      LabelPc(init, name);
      var k := LabelLine(init, name);
      assert init[..k] == p[..k];
    }
  }

  lemma PcFits(p: Program, k: nat)
    requires IsOp(p, k)
    ensures PcAt(p, k) + InstrSize(p[k].stmt.i) <= Size(p)
  {
    hide Size, InstrSize, EncodeStmt, Code;
    Extend(p, k, map[]);
    PrefixBounds(p, k + 1);
  }

  /** Jumping to an operand's address is jumping to the line it names. */
  lemma JumpPc(p: Program, base: nat, o: Operand)
    requires DistinctLabels(p) && base + Size(p) <= MEMORY_SIZE
    requires o.Symbol? ==> o.name in Symbols(p)
    requires IsOp(p, JumpLine(p, base, o))
    ensures Address(p, base, o) == base + PcAt(p, JumpLine(p, base, o))
  {
    hide Symbols, Size, DistinctLabels;
    var k := JumpLine(p, base, o);
    PcFits(p, k);
    match o {
      case Symbol(name) =>
        LabelPc(p, name);
        SkipKeepsPc(p, LabelLine(p, name));
      case Number(n) =>
    }
  }

  // ----- Fetching -----

  /** Memory still holds the encoding of every instruction. */
  ghost predicate CodeIntact(p: Program, base: nat, mem: Memory)
  {
    forall k :: 0 <= k < |p| && p[k].stmt.Op? ==> InstrIntact(p, base, mem, k)
  }

  ghost predicate InstrIntact(p: Program, base: nat, mem: Memory, k: nat)
    requires IsOp(p, k)
  {
    var i := p[k].stmt.i;
    var pc := base + PcAt(p, k);
    && pc + InstrSize(i) <= MEMORY_SIZE
    && mem[pc..pc + InstrSize(i)] == EncodeInstr(i, Shift(Symbols(p), base))
  }

  /** The bytes at `pc` are those of instruction `i` under `tab`. */
  ghost predicate Fetched(mem: Memory, pc: nat, i: Instr, tab: SymTab)
  {
    && pc + InstrSize(i) <= MEMORY_SIZE
    && mem[pc] == Opcode(i)
    && match i
       case LoadImm(r, imm) => mem[pc + 1] == r && ReadU16(mem, pc + 2) == imm % 0x1_0000
       case Load(r, o) => mem[pc + 1] == r && ReadU16(mem, pc + 2) == Value(o, tab) % 0x1_0000
       case Store(r, o) => mem[pc + 1] == r && ReadU16(mem, pc + 2) == Value(o, tab) % 0x1_0000
       case Jz(r, o) => mem[pc + 1] == r && ReadU16(mem, pc + 2) == Value(o, tab) % 0x1_0000
       case Jnz(r, o) => mem[pc + 1] == r && ReadU16(mem, pc + 2) == Value(o, tab) % 0x1_0000
       case Jmp(o) => ReadU16(mem, pc + 1) == Value(o, tab) % 0x1_0000
       case Alu(_, a, b) => mem[pc + 1] == a && mem[pc + 2] == b
       case Print(r) => mem[pc + 1] == r
       case _ => true
  }

  lemma SliceAt(mem: seq<Byte>, pc: nat, code: seq<Byte>, k: nat)
    requires pc + |code| <= |mem| && mem[pc..pc + |code|] == code && k < |code|
    ensures mem[pc + k] == code[k]
  {
    assert mem[pc + k] == mem[pc..pc + |code|][k];
  }

  lemma SliceWord(mem: seq<Byte>, pc: nat, code: seq<Byte>, k: nat, v: int)
    requires pc + |code| <= |mem| && mem[pc..pc + |code|] == code
    requires k + 2 <= |code| && code[k] == v % 256 && code[k + 1] == (v / 256) % 256
    ensures ReadU16(mem, pc + k) == v % 0x1_0000
  {
    SliceAt(mem, pc, code, k);
    SliceAt(mem, pc, code, k + 1);
  }

  lemma FetchOne(mem: Memory, pc: nat, i: Instr, tab: SymTab)
    requires pc + InstrSize(i) <= MEMORY_SIZE && mem[pc..pc + InstrSize(i)] == EncodeInstr(i, tab)
    ensures Fetched(mem, pc, i, tab)
  {
    hide Opcode, ReadU16, Value;
    var code := EncodeInstr(i, tab);
    SliceAt(mem, pc, code, 0);
    if InstrSize(i) > 1 {
      SliceAt(mem, pc, code, 1);
    }
    match i {
      case LoadImm(r, imm) => SliceWord(mem, pc, code, 2, imm);
      case Load(r, o) => SliceWord(mem, pc, code, 2, Value(o, tab));
      case Store(r, o) => SliceWord(mem, pc, code, 2, Value(o, tab));
      case Jz(r, o) => SliceWord(mem, pc, code, 2, Value(o, tab));
      case Jnz(r, o) => SliceWord(mem, pc, code, 2, Value(o, tab));
      case Jmp(o) => SliceWord(mem, pc, code, 1, Value(o, tab));
      case Alu(_, a, b) => SliceAt(mem, pc, code, 2);
      case _ =>
    }
  }

  /** A store that spares the code leaves every instruction in place. */
  lemma StoreKeepsCode(p: Program, base: nat, mem: Memory, addr: nat, v: int)
    requires CodeIntact(p, base, mem) && addr + 2 <= MEMORY_SIZE && SparesCode(p, base, addr)
    ensures CodeIntact(p, base, PatchU16(mem, addr, v))
  {
    hide PatchU16, EncodeInstr, Symbols, PcAt;
    var mem' := PatchU16(mem, addr, v);
    forall k | 0 <= k < |p| && p[k].stmt.Op? ensures InstrIntact(p, base, mem', k) {
      var pc := base + PcAt(p, k);
      var n := InstrSize(p[k].stmt.i);
      assert InstrIntact(p, base, mem, k);
      SlicePatched(mem, addr, v, pc, n);
    }
  }

  lemma SlicePatched(mem: seq<Byte>, addr: nat, v: int, pc: nat, n: nat)
    requires addr + 2 <= |mem| && pc + n <= |mem| && (addr + 2 <= pc || pc + n <= addr)
    ensures PatchU16(mem, addr, v)[pc..pc + n] == mem[pc..pc + n]
  {
    hide PatchU16;
    forall i | pc <= i < pc + n ensures PatchU16(mem, addr, v)[i] == mem[i] {
      PatchOutside(mem, addr, v, i);
    }
  }

  // ----- One step -----

  ghost predicate Match(p: Program, base: nat, c: Config, s: State)
  {
    && IsOp(p, c.line)
    && s == State(c.mem, c.regs, base + PcAt(p, c.line), c.out)
    && CodeIntact(p, base, c.mem)
  }

  ghost predicate Matches(p: Program, base: nat, r: Behaviour, o: Outcome)
  {
    match r
    case Running(c) => o.Continue? && Match(p, base, c, o.next)
    case Exited(code, c) => o.Exit? && o.code == code && Match(p, base, c, o.final)
    case DividedByZero => o == DivByZero
    case Wrong => true
  }

  /** Loaded programs: labels are distinct, no reference is open, and the image fits in memory. */
  predicate Loadable(p: Program, base: nat)
  {
    DistinctLabels(p) && Refs(p, Symbols(p)) && base + Size(p) <= MEMORY_SIZE
  }

  lemma FetchAt(p: Program, base: nat, c: Config)
    requires IsOp(p, c.line) && CodeIntact(p, base, c.mem)
    ensures Fetched(c.mem, base + PcAt(p, c.line), p[c.line].stmt.i, Shift(Symbols(p), base))
  {
    hide EncodeInstr, Symbols, Shift;
    assert InstrIntact(p, base, c.mem, c.line);
    FetchOne(c.mem, base + PcAt(p, c.line), p[c.line].stmt.i, Shift(Symbols(p), base));
  }

  /** Memory instructions and jumps. */
  lemma WordStep(p: Program, base: nat, c: Config, s: State)
    requires Loadable(p, base) && Match(p, base, c, s)
    requires var i := p[c.line].stmt.i; i.LoadImm? || i.Load? || i.Store?
    ensures Matches(p, base, SourceStep(p, base, c), Step(s))
  {
    hide EncodeInstr, Symbols, PatchU16, ReadU16, CodeIntact, SparesCode, PcAt, Shift, Loadable, Value;
    FetchAt(p, base, c);
    NextPc(p, c.line);
    var i := p[c.line].stmt.i;
    if i.Store? {
      var addr := Address(p, base, i.addr);
      if Readable(addr, 2) && SparesCode(p, base, addr) {
        StoreKeepsCode(p, base, c.mem, addr, c.regs[i.r]);
      }
    }
  }

  lemma JumpStep(p: Program, base: nat, c: Config, s: State)
    requires Loadable(p, base) && Match(p, base, c, s)
    requires var i := p[c.line].stmt.i; i.Jmp? || i.Jz? || i.Jnz?
    ensures Matches(p, base, SourceStep(p, base, c), Step(s))
  {
    hide EncodeInstr, Symbols, PatchU16, ReadU16, CodeIntact, SparesCode, PcAt, Shift, JumpLine, Value, Size,
         DistinctLabels;
    FetchAt(p, base, c);
    NextPc(p, c.line);
    var i := p[c.line].stmt.i;
    assert SymRef(p[c.line].stmt).Some? ==> SymRef(p[c.line].stmt).value.1 in Symbols(p);
    if IsOp(p, JumpLine(p, base, i.target)) {
      JumpPc(p, base, i.target);
    }
  }

  lemma PlainStep(p: Program, base: nat, c: Config, s: State)
    requires Loadable(p, base) && Match(p, base, c, s)
    requires var i := p[c.line].stmt.i; i.Nop? || i.Halt? || i.Ret? || i.Alu? || i.Print?
    ensures Matches(p, base, SourceStep(p, base, c), Step(s))
  {
    hide EncodeInstr, Symbols, PatchU16, ReadU16, CodeIntact, SparesCode, PcAt, Shift, Value, Loadable, StepWord;
    FetchAt(p, base, c);
    NextPc(p, c.line);
  }

  /** Each machine step simulates one source step. */
  lemma StepSimulates(p: Program, base: nat, c: Config, s: State)
    requires Loadable(p, base) && Match(p, base, c, s)
    ensures Matches(p, base, SourceStep(p, base, c), Step(s))
  {
    hide Loadable, CodeIntact, PcAt, SourceStep, Step, Matches;
    var i := p[c.line].stmt.i;
    if i.LoadImm? || i.Load? || i.Store? {
      WordStep(p, base, c, s);
    } else if i.Jmp? || i.Jz? || i.Jnz? {
      JumpStep(p, base, c, s);
    } else {
      PlainStep(p, base, c, s);
    }
  }

  lemma {:induction false} RunSimulates(p: Program, base: nat, c: Config, s: State, n: nat)
    requires Loadable(p, base) && Match(p, base, c, s)
    ensures Matches(p, base, SourceRun(p, base, c, n), Run(s, n))
    decreases n
  {
    hide Loadable, Match, SourceStep, Step;
    if n > 0 {
      StepSimulates(p, base, c, s);
      var r := SourceStep(p, base, c);
      if r.Running? {
        RunSimulates(p, base, r.next, Step(s).next, n - 1);
      }
    }
  }

  // ----- Loading -----

  /** Code is made of the encodings of its statements, each at its offset. */
  lemma {:induction false} CodeAt(p: Program, tab: SymTab, k: nat, n: nat)
    requires k < n <= |p|
    ensures PcAt(p, k) + StmtSize(p[k].stmt) <= |Code(p[..n], tab)|
    ensures Code(p[..n], tab)[PcAt(p, k)..PcAt(p, k) + StmtSize(p[k].stmt)] == EncodeStmt(p[k].stmt, tab)
  {
    hide EncodeStmt, StmtSize, Code, Size;
    Extend(p, n - 1, tab);
    if k < n - 1 {
      CodeAt(p, tab, k, n - 1);
      SliceLeft(Code(p[..n - 1], tab), EncodeStmt(p[n - 1].stmt, tab), PcAt(p, k), PcAt(p, k) + StmtSize(p[k].stmt));
    } else {
      SliceRight(Code(p[..k], tab), EncodeStmt(p[k].stmt, tab));
    }
  }

  lemma SliceLeft(a: seq<Byte>, b: seq<Byte>, i: nat, j: nat)
    requires i <= j <= |a|
    ensures (a + b)[i..j] == a[i..j]
  {
  }

  lemma SliceRight(a: seq<Byte>, b: seq<Byte>)
    ensures (a + b)[|a|..|a| + |b|] == b
  {
  }

  lemma SpliceSlice(s: seq<Byte>, off: nat, b: seq<Byte>, i: nat, n: nat)
    requires off + |b| <= |s| && i + n <= |b|
    ensures Splice(s, off, b)[off + i..off + i + n] == b[i..i + n]
  {
  }

  /** A freshly loaded program is intact. */
  lemma LoadedIntact(p: Program, base: nat)
    requires base + Size(p) <= MEMORY_SIZE
    ensures CodeIntact(p, base, Splice(ZeroMemory(), base, Code(p, Shift(Symbols(p), base))))
  {
    hide Splice, ZeroMemory, EncodeInstr, Shift, Symbols, Code, Size;
    var tab := Shift(Symbols(p), base);
    var mem := Splice(ZeroMemory(), base, Code(p, tab));
    forall k | 0 <= k < |p| && p[k].stmt.Op? ensures InstrIntact(p, base, mem, k) {
      CodeAt(p, tab, k, |p|);
      assert p[..|p|] == p;
      SpliceSlice(ZeroMemory(), base, Code(p, tab), PcAt(p, k), StmtSize(p[k].stmt));
    }
  }

  lemma EntryLinePc(p: Program, entry: Option<string>)
    requires DistinctLabels(p) && (entry.Some? ==> entry.value in Symbols(p))
    ensures PcAt(p, EntryLine(p, entry)) == match entry case None => 0 case Some(name) => Symbols(p)[name]
  {
    hide Symbols, DistinctLabels, Size;
    match entry {
      case None =>
        SkipKeepsPc(p, 0);
        assert p[..0] == [];
        NothingBefore();
      case Some(name) =>
        LabelPc(p, name);
        SkipKeepsPc(p, LabelLine(p, name));
    }
  }

  lemma NothingBefore()
    ensures Size([]) == 0
  {
  }

  lemma {:induction false} LastEntryOf(p: Program, tab: SymTab)
    requires LastEntry(p).Some? ==> LastEntry(p).value in tab
    ensures EntryOf(p, tab) == match LastEntry(p) case None => 0 case Some(name) => tab[name]
  {
    if p != [] && !p[|p| - 1].stmt.Entry? {
      LastEntryOf(p[..|p| - 1], tab);
    }
  }

  lemma {:induction false} LastEntryDefined(p: Program, tab: SymTab)
    requires EntriesIn(p, tab)
    ensures LastEntry(p).Some? ==> LastEntry(p).value in tab
  {
    if p != [] && !p[|p| - 1].stmt.Entry? {
      var init := p[..|p| - 1];
      assert forall j :: 0 <= j < |init| ==> init[j] == p[j];
      LastEntryDefined(init, tab);
    }
  }

  // ----- The toolchain -----

  /** The entry symbol given to the linker, if any, is one that some module exports. */
  predicate Exported(ps: seq<Program>, entry: Option<string>)
  {
    entry.Some? ==> entry.value in Globals(Flatten(ps))
  }

  /** Where execution starts: at the given symbol, otherwise at the first module's entry. */
  function EntryName(ps: seq<Program>, entry: Option<string>): Option<string>
  {
    if entry.Some? then entry else if ps == [] then None else LastEntry(ps[0])
  }

  lemma EntryLinks(ps: seq<Program>, entry: Option<string>)
    requires Compatible(ps) && Exported(ps, entry)
    ensures ValidObjects(Objects(ps)) && Linkable(Objects(ps), entry)
    ensures entry.Some? ==>
      entry.value in GlobalTable(Objects(ps)) && entry.value in Symbols(Flatten(ps)) &&
      GlobalTable(Objects(ps))[entry.value] == Symbols(Flatten(ps))[entry.value]
  {
    hide Symbols, Globals, GlobalTable, GlobalsOk, RelocsOk, ValidObjects, Compatible, Restrict, PatchModules,
         PendingOffsets;
    LinkedIsAssembled(ps);
    CompatibleParts(ps);
    ExportedTable(ps);
    RestrictKeys(Symbols(Flatten(ps)), Globals(Flatten(ps)));
  }

  /** The first module's symbols are the concatenation's. */
  lemma FirstModule(ps: seq<Program>)
    requires Compatible(ps) && ps != []
    ensures var entry := LastEntry(ps[0]);
      && (entry.Some? ==> entry.value in Symbols(Flatten(ps)))
      && Objects(ps)[0].entry == match entry case None => 0 case Some(name) => Symbols(Flatten(ps))[name]
  {
    hide Symbols, DistinctLabels, Globals, Code, Relocs, Externs;
    ObjectAt(ps, 0);
    ModuleSymbols(ps, 0);
    assert ps[..0] == [];
    EntriesLocal(ps[0]);
    LastEntryDefined(ps[0], Symbols(ps[0]));
    LastEntryOf(ps[0], Symbols(ps[0]));
  }

  /** The linked entry point is the address of the line execution starts at. */
  lemma LinkedEntryPc(ps: seq<Program>, entry: Option<string>)
    requires Compatible(ps) && Exported(ps, entry)
    ensures LinkedEntry(Objects(ps), entry) == PcAt(Flatten(ps), EntryLine(Flatten(ps), EntryName(ps, entry)))
  {
    hide Symbols, DistinctLabels, GlobalTable, Compatible, Exported, EntryLine, LastEntry, PcAt, Objects, WellFormed;
    var p := Flatten(ps);
    EntryLinks(ps, entry);
    FlattenAccepted(ps);
    WellFormedLabels(p);
    if entry.None? && ps != [] {
      FirstModule(ps);
    }
    EntryLinePc(p, EntryName(ps, entry));
  }

  /** The relocatable image of compatible modules. */
  function ImageOf(ps: seq<Program>, entry: Option<string>): Image
    requires Compatible(ps) && ValidObjects(Objects(ps)) && Linkable(Objects(ps), entry)
  {
    LinkedImage(Objects(ps), Relocatable, 0, entry)
  }

  /** What the loader makes of it: the concatenated program's code with every symbol moved to the base. */
  lemma ImageLoads(ps: seq<Program>, entry: Option<string>, base: nat)
    requires Compatible(ps) && Exported(ps, entry) && base + Size(Flatten(ps)) <= MEMORY_SIZE
    ensures ValidObjects(Objects(ps)) && Linkable(Objects(ps), entry)
    ensures var p := Flatten(ps);
      var image := ImageOf(ps, entry);
      && OffsetsIn(image.relocs, |image.code|) && Fits(image, Some(base))
      && LoadedMemory(image, Some(base)) == Splice(ZeroMemory(), base, Code(p, Shift(Symbols(p), base)))
      && EntryPc(image, Some(base)) == base + PcAt(p, EntryLine(p, EntryName(ps, entry)))
  {
    hide Symbols, DistinctLabels, Code, Relocs, Offsets, Relocated, Splice, ZeroMemory, Size, Compatible,
         ValidObjects, GlobalsOk, RelocsOk, PatchModules, GlobalTable, PendingOffsets, Shift, WellFormed, Refs,
         EntryLine, LinkedEntry, EntryName, Exported, PcAt;
    var p := Flatten(ps);
    EntryLinks(ps, entry);
    LinkedIsAssembled(ps);
    FlattenAccepted(ps);
    RelocateProgram(p, Symbols(p), base);
    LinkedEntryPc(ps, entry);
  }

  lemma WellFormedLabels(p: Program)
    requires WellFormed(p)
    ensures DistinctLabels(p)
  {
  }

  /** Semantic preservation for the whole toolchain.  Modules are assembled apart, linked, loaded at any
      base where they fit, and run for any number of steps: as long as the source machine, run on the
      concatenated source, has not gone wrong, the virtual machine is in the matching state.  Every fetch
      is then in range, since an out-of-range access is no matching outcome. */
  lemma SemanticPreservation(ps: seq<Program>, entry: Option<string>, base: nat, n: nat)
    requires Compatible(ps) && Exported(ps, entry) && base + Size(Flatten(ps)) <= MEMORY_SIZE
    ensures ValidObjects(Objects(ps)) && Linkable(Objects(ps), entry)
    ensures var image := ImageOf(ps, entry);
      && OffsetsIn(image.relocs, |image.code|) && Fits(image, Some(base))
      && Matches(Flatten(ps), base,
           SourceProgram(Flatten(ps), EntryName(ps, entry), base, LoadedMemory(image, Some(base)), n),
           Run(InitialState(image, Some(base)), n))
  {
    hide Symbols, DistinctLabels, Code, Size, Compatible, ValidObjects, Linkable, Shift, WellFormed, Refs, Exported,
         EntryLine, EntryName, PcAt, SourceRun, Run, CodeIntact, LoadedMemory, Matches, EntryPc, ImageOf, OffsetsIn,
         Fits;
    var p := Flatten(ps);
    ImageLoads(ps, entry, base);
    FlattenAccepted(ps);
    WellFormedLabels(p);
    LoadedIntact(p, base);
    var image := ImageOf(ps, entry);
    var mem := LoadedMemory(image, Some(base));
    var start := EntryLine(p, EntryName(ps, entry));
    if IsOp(p, start) {
      var c := Config(start, [0, 0, 0, 0, 0, 0, 0, 0], mem, []);
      RunSimulates(p, base, c, InitialState(image, Some(base)), n);
    } else {
      WrongMatches(p, base, Run(InitialState(image, Some(base)), n));
    }
  }

  lemma WrongMatches(p: Program, base: nat, o: Outcome)
    ensures Matches(p, base, Wrong, o)
  {
  }

  /** For a statically safe program the machine never faults and never meets a bad opcode. */
  lemma SafeProgramsNeverFault(ps: seq<Program>, entry: Option<string>, base: nat, n: nat)
    requires Compatible(ps) && Exported(ps, entry) && base + Size(Flatten(ps)) <= MEMORY_SIZE
    requires StaticallySafe(Flatten(ps), base) && IsOp(Flatten(ps), EntryLine(Flatten(ps), EntryName(ps, entry)))
    ensures ValidObjects(Objects(ps)) && Linkable(Objects(ps), entry)
    ensures var image := ImageOf(ps, entry);
      && OffsetsIn(image.relocs, |image.code|) && Fits(image, Some(base))
      && var o := Run(InitialState(image, Some(base)), n); o.Continue? || o.Exit? || o == DivByZero
  {
    hide Compatible, StaticallySafe, ValidObjects, Linkable, Run, SourceProgram, LoadedMemory, ImageOf, Fits, OffsetsIn,
         InitialState, Match, Exported, EntryLine, EntryName;
    SemanticPreservation(ps, entry, base, n);
    SafeNeverWrong(Flatten(ps), EntryName(ps, entry), base, LoadedMemory(ImageOf(ps, entry), Some(base)), n);
  }
}
