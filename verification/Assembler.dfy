/** The two-pass assembler, from parsed lines upward.

    The reference meaning of a program is the concatenation of the encodings
    of its statements (`Code`), with the statements' relocations at their
    running offsets (`Relocs`).  `AssembleLines` is the assembler itself: one
    pass that only counts, then one pass that patches a zeroed buffer of the
    counted size in place. */
module Assembler {
  import opened Bytes

  type Reg = r: int | 0 <= r < 8

  datatype Operand = Number(n: int) | Symbol(name: string)

  datatype AluOp = Add | Sub | Mul | Div | Mov

  datatype Instr =
    | Nop
    | Halt
    | Ret
    | LoadImm(r: Reg, imm: int)
    | Load(r: Reg, addr: Operand)
    | Store(r: Reg, addr: Operand)
    | Alu(op: AluOp, a: Reg, b: Reg)
    | Jmp(target: Operand)
    | Jz(r: Reg, target: Operand)
    | Jnz(r: Reg, target: Operand)
    | Print(r: Reg)

  datatype Stmt =
    | Blank
    | Global(name: string)
    | Extern(name: string)
    | Entry(name: string)
    | ByteLit(v: int)
    | WordLit(w: Operand)
    | Space(n: nat)
    | Op(i: Instr)

  datatype Line = Line(lab: Option<string>, stmt: Stmt)

  type Program = seq<Line>

  type SymTab = map<string, int>

  datatype Reloc = Reloc(offset: int, size: int, symbol: string, addend: int)

  datatype ObjectFile = ObjectFile(
    size: int, code: seq<Byte>, symbols: SymTab, globals: set<string>,
    externs: set<string>, entry: int, relocs: seq<Reloc>)

  datatype AsmError =
    | DuplicateSymbol(name: string)
    | UndefinedSymbol(name: string)
    | UndefinedEntry(name: string)
    | UndefinedGlobals(names: set<string>)

  // ----- Pass 1: sizes, labels and directives -----

  /** The size table pass 1 counts with. */
  function InstrSize(i: Instr): (n: nat)
  {
    match i
    case Nop => 1
    case Halt => 1
    case Ret => 1
    case LoadImm(_, _) => 4
    case Load(_, _) => 4
    case Store(_, _) => 4
    case Alu(_, _, _) => 3
    case Jmp(_) => 3
    case Jz(_, _) => 4
    case Jnz(_, _) => 4
    case Print(_) => 2
  }

  function StmtSize(s: Stmt): nat
  {
    match s
    case Blank => 0
    case Global(_) => 0
    case Extern(_) => 0
    case Entry(_) => 0
    case ByteLit(_) => 1
    case WordLit(_) => 2
    case Space(n) => n
    case Op(i) => InstrSize(i)
  }

  function Size(p: Program): nat
  {
    if p == [] then 0 else Size(p[..|p| - 1]) + StmtSize(p[|p| - 1].stmt)
  }

  function Symbols(p: Program): SymTab
  {
    if p == [] then map[] else
      var tab := Symbols(p[..|p| - 1]);
      match p[|p| - 1].lab
      case None => tab
      case Some(l) => tab[l := Size(p[..|p| - 1])]
  }

  predicate DistinctLabels(p: Program)
  {
    p == [] ||
    (DistinctLabels(p[..|p| - 1]) &&
     (p[|p| - 1].lab.Some? ==> p[|p| - 1].lab.value !in Symbols(p[..|p| - 1])))
  }

  function Globals(p: Program): set<string>
  {
    if p == [] then {} else
      Globals(p[..|p| - 1]) + (if p[|p| - 1].stmt.Global? then {p[|p| - 1].stmt.name} else {})
  }

  function Externs(p: Program): set<string>
  {
    if p == [] then {} else
      Externs(p[..|p| - 1]) + (if p[|p| - 1].stmt.Extern? then {p[|p| - 1].stmt.name} else {})
  }

  // ----- Reference encoding -----

  function Opcode(i: Instr): Byte
  {
    match i
    case Nop => 0x00
    case Halt => 0x01
    case Ret => 0x02
    case LoadImm(_, _) => 0x10
    case Load(_, _) => 0x11
    case Store(_, _) => 0x12
    case Alu(Add, _, _) => 0x20
    case Alu(Sub, _, _) => 0x21
    case Alu(Mul, _, _) => 0x22
    case Alu(Div, _, _) => 0x23
    case Alu(Mov, _, _) => 0x24
    case Jmp(_) => 0x30
    case Jz(_, _) => 0x31
    case Jnz(_, _) => 0x32
    case Print(_) => 0x40
  }

  /** An operand as a number; a symbol missing from the table is an extern and reads as 0. */
  function Value(o: Operand, tab: SymTab): int
  {
    match o
    case Number(n) => n
    case Symbol(s) => if s in tab then tab[s] else 0
  }

  /** The bytes after the opcode. */
  function Operands(i: Instr, tab: SymTab): (code: seq<Byte>)
    ensures |code| == InstrSize(i) - 1
  {
    match i
    case Nop => []
    case Halt => []
    case Ret => []
    case LoadImm(r, imm) => [r] + WordBytes(imm)
    case Load(r, addr) => [r] + WordBytes(Value(addr, tab))
    case Store(r, addr) => [r] + WordBytes(Value(addr, tab))
    case Alu(_, a, b) => [a] + [b]
    case Jmp(t) => WordBytes(Value(t, tab))
    case Jz(r, t) => [r] + WordBytes(Value(t, tab))
    case Jnz(r, t) => [r] + WordBytes(Value(t, tab))
    case Print(r) => [r]
  }

  function EncodeInstr(i: Instr, tab: SymTab): (code: seq<Byte>)
    ensures |code| == InstrSize(i)
  {
    [Opcode(i)] + Operands(i, tab)
  }

  function EncodeStmt(s: Stmt, tab: SymTab): (code: seq<Byte>)
    ensures |code| == StmtSize(s)
  {
    match s
    case Blank => []
    case Global(_) => []
    case Extern(_) => []
    case Entry(_) => []
    case ByteLit(v) => [v % 256]
    case WordLit(w) => WordBytes(Value(w, tab))
    case Space(n) => Zeros(n)
    case Op(i) => EncodeInstr(i, tab)
  }

  function Code(p: Program, tab: SymTab): (code: seq<Byte>)
    ensures |code| == Size(p)
  {
    if p == [] then [] else Code(p[..|p| - 1], tab) + EncodeStmt(p[|p| - 1].stmt, tab)
  }

  /** Every statement holds at most one 16-bit operand; this is where it sits. */
  function OperandOf(s: Stmt): Option<(nat, Operand)>
  {
    match s
    case WordLit(w) => Some((0, w))
    case Op(Load(_, o)) => Some((2, o))
    case Op(Store(_, o)) => Some((2, o))
    case Op(Jmp(o)) => Some((1, o))
    case Op(Jz(_, o)) => Some((2, o))
    case Op(Jnz(_, o)) => Some((2, o))
    case _ => None
  }

  /** The symbol a statement refers to, with the offset of its word in the statement. */
  function SymRef(s: Stmt): (r: Option<(nat, string)>)
    ensures r.Some? ==> r.value.0 + 2 <= StmtSize(s)
  {
    match OperandOf(s)
    case Some((o, Symbol(name))) => Some((o, name))
    case _ => None
  }

  /** A symbolic operand word at `off` needs a relocation, a number does not. */
  function OperandRelocs(o: Operand, off: int): seq<Reloc>
  {
    match o
    case Number(_) => []
    case Symbol(name) => [Reloc(off, 2, name, 0)]
  }

  function StmtRelocs(s: Stmt, pc: int): seq<Reloc>
  {
    match OperandOf(s)
    case None => []
    case Some((o, operand)) => OperandRelocs(operand, pc + o)
  }

  function Relocs(p: Program): seq<Reloc>
  {
    if p == [] then [] else
      Relocs(p[..|p| - 1]) + StmtRelocs(p[|p| - 1].stmt, Size(p[..|p| - 1]))
  }

  /** The last `.ENTRY` wins; without one execution starts at offset 0. */
  function EntryOf(p: Program, tab: SymTab): int
  {
    if p == [] then 0
    else match p[|p| - 1].stmt
      case Entry(name) => if name in tab then tab[name] else 0
      case _ => EntryOf(p[..|p| - 1], tab)
  }

  predicate OperandResolves(o: Operand, tab: SymTab, externs: set<string>)
  {
    o.Symbol? ==> o.name in tab || o.name in externs
  }

  predicate StmtResolves(s: Stmt, tab: SymTab, externs: set<string>)
  {
    && (OperandOf(s).Some? ==> OperandResolves(OperandOf(s).value.1, tab, externs))
    && (s.Entry? ==> s.name in tab)
  }

  predicate Resolves(p: Program, tab: SymTab, externs: set<string>)
  {
    forall k :: 0 <= k < |p| ==> StmtResolves(p[k].stmt, tab, externs)
  }

  /** Exactly the programs the assembler accepts. */
  predicate WellFormed(p: Program)
  {
    && DistinctLabels(p)
    && Resolves(p, Symbols(p), Externs(p))
    && Globals(p) <= Symbols(p).Keys
  }

  /** The object file a program denotes. */
  function ObjectOf(p: Program): ObjectFile
  {
    var tab := Symbols(p);
    ObjectFile(Size(p), Code(p, tab), tab, Globals(p), Externs(p), EntryOf(p, tab), Relocs(p))
  }

  // ----- The assembler -----

  /** The operand word of a statement: a number is emitted as it is, a known symbol with its
      value and a relocation, an extern as 0 with a relocation, anything else is an error. */
  method EmitOperand(code: array<Byte>, off: nat, o: Operand, tab: SymTab, externs: set<string>, relocs: seq<Reloc>)
    returns (r: Result<seq<Reloc>, AsmError>)
    requires off + 1 < code.Length
    modifies code
    ensures r.Ok? <==> OperandResolves(o, tab, externs)
    ensures r.Ok? ==> code[..] == Splice(old(code[..]), off, WordBytes(Value(o, tab)))
    ensures r.Ok? ==> r.value == relocs + OperandRelocs(o, off)
    ensures r.Err? ==> r.error.UndefinedSymbol?
  {
    match o {
      case Number(n) =>
        StoreU16(code, off, n);
        return Ok(relocs);
      case Symbol(name) =>
        if name in tab {
          StoreU16(code, off, tab[name]);
          return Ok(relocs + [Reloc(off, 2, name, 0)]);
        }
        if name in externs {
          StoreU16(code, off, 0);
          return Ok(relocs + [Reloc(off, 2, name, 0)]);
        }
        return Err(UndefinedSymbol(name));
    }
  }

  /** A register byte followed by an operand word. */
  method EmitRegisterOperand(code: array<Byte>, off: nat, x: Reg, o: Operand, tab: SymTab, externs: set<string>,
                             relocs: seq<Reloc>)
    returns (r: Result<seq<Reloc>, AsmError>)
    requires off + 2 < code.Length
    modifies code
    ensures r.Ok? <==> OperandResolves(o, tab, externs)
    ensures r.Ok? ==> code[..] == Splice(old(code[..]), off, [x] + WordBytes(Value(o, tab)))
    ensures r.Ok? ==> r.value == relocs + OperandRelocs(o, off + 1)
    ensures r.Err? ==> r.error.UndefinedSymbol?
  {
    SpliceTwice(code[..], off, [x], WordBytes(Value(o, tab)));
    StoreByte(code, off, x);
    r := EmitOperand(code, off + 1, o, tab, externs, relocs);
  }

  /** Pass 2 on the bytes after an opcode. */
  method EncodeOperands(code: array<Byte>, off: nat, i: Instr, tab: SymTab, externs: set<string>, relocs: seq<Reloc>)
    returns (r: Result<seq<Reloc>, AsmError>)
    requires 1 <= off && off + InstrSize(i) - 1 <= code.Length
    modifies code
    ensures r.Ok? <==> StmtResolves(Op(i), tab, externs)
    ensures r.Ok? ==> code[..] == Splice(old(code[..]), off, Operands(i, tab))
    ensures r.Ok? ==> r.value == relocs + StmtRelocs(Op(i), off - 1)
    ensures r.Err? ==> r.error.UndefinedSymbol?
  {
    hide Splice, WordBytes, Value, OperandRelocs, OperandResolves;
    r := Ok(relocs);
    match i {
      case Nop | Halt | Ret =>
        SpliceNothing(code[..], off);
      case Print(x) =>
        StoreByte(code, off, x);
      case Alu(_, a, b) =>
        SpliceTwice(code[..], off, [a], [b]);
        StoreByte(code, off, a);
        StoreByte(code, off + 1, b);
      case LoadImm(x, imm) =>
        SpliceTwice(code[..], off, [x], WordBytes(imm));
        StoreByte(code, off, x);
        StoreU16(code, off + 1, imm);
      case Load(x, o) =>
        r := EmitRegisterOperand(code, off, x, o, tab, externs, relocs);
      case Store(x, o) =>
        r := EmitRegisterOperand(code, off, x, o, tab, externs, relocs);
      case Jz(x, o) =>
        r := EmitRegisterOperand(code, off, x, o, tab, externs, relocs);
      case Jnz(x, o) =>
        r := EmitRegisterOperand(code, off, x, o, tab, externs, relocs);
      case Jmp(o) =>
        r := EmitOperand(code, off, o, tab, externs, relocs);
    }
  }

  /** Pass 2 on one instruction: writes it at `pc` and nowhere else. */
  method EncodeInstruction(code: array<Byte>, pc: nat, i: Instr, tab: SymTab, externs: set<string>, relocs: seq<Reloc>)
    returns (r: Result<seq<Reloc>, AsmError>, next: nat)
    requires pc + InstrSize(i) <= code.Length
    modifies code
    ensures r.Ok? <==> StmtResolves(Op(i), tab, externs)
    ensures r.Ok? ==> next == pc + InstrSize(i)
    ensures r.Ok? ==> code[..] == Splice(old(code[..]), pc, EncodeInstr(i, tab))
    ensures r.Ok? ==> r.value == relocs + StmtRelocs(Op(i), pc)
    ensures r.Err? ==> r.error.UndefinedSymbol?
  {
    hide Splice, Operands, Opcode, StmtResolves, StmtRelocs;
    SpliceTwice(code[..], pc, [Opcode(i)], Operands(i, tab));
    StoreByte(code, pc, Opcode(i));
    r := EncodeOperands(code, pc + 1, i, tab, externs, relocs);
    next := pc + InstrSize(i);
  }

  /** Pass 2 on one statement. */
  method EncodeStatement(code: array<Byte>, pc: nat, s: Stmt, tab: SymTab, externs: set<string>, relocs: seq<Reloc>)
    returns (r: Result<seq<Reloc>, AsmError>, next: nat)
    requires pc + StmtSize(s) <= code.Length
    requires !s.Entry?
    modifies code
    ensures r.Ok? <==> StmtResolves(s, tab, externs)
    ensures r.Ok? ==> next == pc + StmtSize(s)
    ensures r.Ok? ==> code[..] == Splice(old(code[..]), pc, EncodeStmt(s, tab))
    ensures r.Ok? ==> r.value == relocs + StmtRelocs(s, pc)
    ensures r.Err? ==> r.error.UndefinedSymbol?
  {
    hide Splice, EncodeInstr, WordBytes, Value, OperandRelocs, OperandResolves;
    next := pc;
    r := Ok(relocs);
    match s {
      case Blank | Global(_) | Extern(_) =>
        SpliceNothing(code[..], pc);
      case ByteLit(v) =>
        StoreByte(code, pc, v % 256);
        next := pc + 1;
      case WordLit(w) =>
        r := EmitOperand(code, pc, w, tab, externs, relocs);
        next := pc + 2;
      case Space(n) =>
        SpliceNothing(code[..], pc);
        for j := 0 to n
          invariant code[..] == Splice(old(code[..]), pc, Zeros(j))
        {
          assert Zeros(j + 1) == Zeros(j) + [0];
          SpliceTwice(old(code[..]), pc, Zeros(j), [0]);
          StoreByte(code, pc + j, 0);
        }
        next := pc + n;
      case Op(i) =>
        r, next := EncodeInstruction(code, pc, i, tab, externs, relocs);
    }
  }

  lemma PrefixStep(p: Program, k: nat)
    requires k < |p|
    ensures p[..k + 1][..k] == p[..k]
    ensures p[..k + 1][k] == p[k]
  {
  }

  /** What one more line adds. */
  lemma Extend(p: Program, k: nat, tab: SymTab)
    requires k < |p|
    ensures Size(p[..k + 1]) == Size(p[..k]) + StmtSize(p[k].stmt)
    ensures Code(p[..k + 1], tab) == Code(p[..k], tab) + EncodeStmt(p[k].stmt, tab)
    ensures Relocs(p[..k + 1]) == Relocs(p[..k]) + StmtRelocs(p[k].stmt, Size(p[..k]))
    ensures !p[k].stmt.Entry? ==> EntryOf(p[..k + 1], tab) == EntryOf(p[..k], tab)
    ensures p[k].stmt.Entry? && p[k].stmt.name in tab ==> EntryOf(p[..k + 1], tab) == tab[p[k].stmt.name]
  {
    var q := p[..k + 1];
    assert q[..|q| - 1] == p[..k] && q[|q| - 1] == p[k];
  }

  lemma ExtendResolves(p: Program, k: nat, tab: SymTab, externs: set<string>)
    requires k < |p|
    ensures Resolves(p[..k + 1], tab, externs) <==>
              Resolves(p[..k], tab, externs) && StmtResolves(p[k].stmt, tab, externs)
    ensures Resolves(p, tab, externs) ==> Resolves(p[..k + 1], tab, externs)
  {
    assert p[..k + 1] == p[..k] + [p[k]];
  }

  /** A prefix never defines more, needs more room or holds a label the whole does not. */
  lemma {:induction false} PrefixBounds(p: Program, k: nat)
    requires k <= |p|
    ensures Size(p[..k]) <= Size(p)
    ensures DistinctLabels(p) ==> DistinctLabels(p[..k])
    decreases |p| - k
  {
    if k < |p| {
      PrefixStep(p, k);
      PrefixBounds(p, k + 1);
    } else {
      assert p[..k] == p;
    }
  }

  method CollectLabels(p: Program)
    returns (dup: Option<string>, tab: SymTab, globals: set<string>, externs: set<string>, pc: nat)
    ensures dup.None? <==> DistinctLabels(p)
    ensures dup.None? ==> tab == Symbols(p) && globals == Globals(p) && externs == Externs(p) && pc == Size(p)
  {
    dup, tab, globals, externs, pc := None, map[], {}, {}, 0;
    for k := 0 to |p|
      invariant dup.None? && DistinctLabels(p[..k])
      invariant tab == Symbols(p[..k])
      invariant globals == Globals(p[..k])
      invariant externs == Externs(p[..k])
      invariant pc == Size(p[..k])
    {
      PrefixStep(p, k);
      if p[k].lab.Some? {
        if p[k].lab.value in tab {
          PrefixBounds(p, k + 1);
          dup := p[k].lab;
          return;
        }
        tab := tab[p[k].lab.value := pc];
      }
      match p[k].stmt {
        case Global(name) => globals := globals + {name};
        case Extern(name) => externs := externs + {name};
        case _ => pc := pc + StmtSize(p[k].stmt);
      }
    }
    assert p[..|p|] == p;
  }

  method EncodeProgram(p: Program, tab: SymTab, externs: set<string>, size: nat)
    returns (r: Result<seq<Reloc>, AsmError>, code: array<Byte>, entry: int)
    requires size == Size(p)
    ensures fresh(code)
    ensures r.Ok? <==> Resolves(p, tab, externs)
    ensures r.Ok? ==> code[..] == Code(p, tab) && r.value == Relocs(p) && entry == EntryOf(p, tab)
    ensures r.Err? ==> r.error.UndefinedSymbol? || r.error.UndefinedEntry?
  {
    code := new Byte[size](_ => 0);
    var relocs: seq<Reloc> := [];
    var pc: nat := 0;
    entry := 0;
    for k := 0 to |p|
      invariant pc == Size(p[..k]) <= code.Length == size
      invariant code[..pc] == Code(p[..k], tab)
      invariant relocs == Relocs(p[..k])
      invariant entry == EntryOf(p[..k], tab)
      invariant Resolves(p[..k], tab, externs)
    {
      Extend(p, k, tab);
      ExtendResolves(p, k, tab, externs);
      PrefixBounds(p, k + 1);
      var s := p[k].stmt;
      if s.Entry? {
        if s.name !in tab {
          r := Err(UndefinedEntry(s.name));
          return;
        }
        entry := tab[s.name];
      } else {
        ghost var done := code[..pc];
        var e, next := EncodeStatement(code, pc, s, tab, externs, relocs);
        if e.Err? {
          r := Err(e.error);
          return;
        }
        assert code[..next] == code[..][..next] == done + EncodeStmt(s, tab);
        relocs, pc := e.value, next;
      }
    }
    assert p[..|p|] == p;
    assert code[..pc] == code[..];
    r := Ok(relocs);
  }

  /** The assembler accepts exactly the well-formed programs and then yields
      the object file the program denotes; each error names its cause. */
  method AssembleLines(p: Program) returns (r: Result<ObjectFile, AsmError>)
    ensures r.Ok? <==> WellFormed(p)
    ensures r.Ok? ==> r.value == ObjectOf(p)
    ensures (r.Err? && r.error.DuplicateSymbol?) <==> !DistinctLabels(p)
    ensures r.Err? && r.error.UndefinedGlobals? ==>
              r.error.names == Globals(p) - Symbols(p).Keys != {} && Resolves(p, Symbols(p), Externs(p))
    ensures r.Err? && (r.error.UndefinedSymbol? || r.error.UndefinedEntry?) ==>
              !Resolves(p, Symbols(p), Externs(p))
  {
    var dup, tab, globals, externs, size := CollectLabels(p);
    if dup.Some? {
      return Err(DuplicateSymbol(dup.value));
    }
    var relocs, code, entry := EncodeProgram(p, tab, externs, size);
    if relocs.Err? {
      return Err(relocs.error);
    }
    var undefined := globals - tab.Keys;
    if undefined != {} {
      return Err(UndefinedGlobals(undefined));
    }
    return Ok(ObjectFile(code.Length, code[..], tab, globals, externs, entry, relocs.value));
  }
}
