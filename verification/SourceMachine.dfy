/** A machine that runs the assembly source itself.

    Control is a line number: a jump to a symbol goes to the labelled line and
    a fall through goes to the next line that emits something.  Nothing is
    decoded from memory.  The machine goes `Wrong` when control would reach
    data or the end of the program, when a store would overwrite an
    instruction, and when an access leaves the memory. */
module SourceMachine {
  import opened Bytes
  import opened Assembler
  import opened Linker
  import opened Vm

  datatype Config = Config(line: nat, regs: Registers, mem: Memory, out: seq<Word>)

  datatype Behaviour =
    | Running(next: Config)
    | Exited(code: int, final: Config)
    | DividedByZero
    | Wrong

  function PcAt(p: Program, k: nat): nat
    requires k <= |p|
  {
    Size(p[..k])
  }

  predicate IsOp(p: Program, k: nat)
  {
    k < |p| && p[k].stmt.Op?
  }

  /** The first line from `k` on that emits bytes. */
  function Skip(p: Program, k: nat): (j: nat)
    requires k <= |p|
    ensures k <= j <= |p|
    decreases |p| - k
  {
    if k == |p| || StmtSize(p[k].stmt) > 0 then k else Skip(p, k + 1)
  }

  /** The line that carries a label. */
  function LabelLine(p: Program, name: string): (k: nat)
    ensures k <= |p|
    ensures k < |p| ==> p[k].lab == Some(name)
  {
    if p == [] then 0
    else if p[|p| - 1].lab == Some(name) then |p| - 1
    else
      var k := LabelLine(p[..|p| - 1], name);
      if k == |p| - 1 then |p| else k
  }

  /** The instruction that starts at an offset, for jumps to plain numbers. */
  function LineAt(p: Program, off: int, k: nat): (j: nat)
    requires k <= |p|
    ensures k <= j <= |p|
    ensures j < |p| ==> p[j].stmt.Op? && PcAt(p, j) == off
    decreases |p| - k
  {
    if k == |p| || (p[k].stmt.Op? && PcAt(p, k) == off) then k else LineAt(p, off, k + 1)
  }

  /** The 16-bit address an operand denotes in a program loaded at `base`. */
  function Address(p: Program, base: int, o: Operand): Word
  {
    Value(o, Shift(Symbols(p), base)) % 0x1_0000
  }

  function JumpLine(p: Program, base: int, o: Operand): (k: nat)
    ensures k <= |p|
  {
    match o
    case Symbol(name) => Skip(p, LabelLine(p, name))
    case Number(n) => LineAt(p, n % 0x1_0000 - base, 0)
  }

  predicate SparesCode(p: Program, base: int, addr: int)
  {
    forall j :: 0 <= j < |p| && p[j].stmt.Op? ==>
      addr + 2 <= base + PcAt(p, j) || base + PcAt(p, j) + InstrSize(p[j].stmt.i) <= addr
  }

  function GoTo(p: Program, c: Config, k: nat): Behaviour
  {
    if IsOp(p, k) then Running(c.(line := k)) else Wrong
  }

  function AluResult(op: AluOp, x: Word, y: Word): Option<Word>
  {
    match op
    case Add => Some((x as int + y as int) % 0x1_0000)
    case Sub => Some((x as int - y as int) % 0x1_0000)
    case Mul => Some((x as int * y as int) % 0x1_0000)
    case Div => if y == 0 then None else Some((x as int / y as int) % 0x1_0000)
    case Mov => Some(y)
  }

  function SourceStep(p: Program, base: int, c: Config): Behaviour
  {
    if !IsOp(p, c.line) then Wrong else
      var next := Skip(p, c.line + 1);
      match p[c.line].stmt.i
      case Nop => GoTo(p, c, next)
      case Halt => Exited(0, c)
      case Ret => Exited(c.regs[0] % 256, c)
      case LoadImm(r, imm) => GoTo(p, c.(regs := c.regs[r := imm % 0x1_0000]), next)
      case Load(r, o) =>
        var addr := Address(p, base, o);
        if !Readable(addr, 2) then Wrong else GoTo(p, c.(regs := c.regs[r := ReadU16(c.mem, addr)]), next)
      case Store(r, o) =>
        var addr := Address(p, base, o);
        if !Readable(addr, 2) || !SparesCode(p, base, addr) then Wrong
        else GoTo(p, c.(mem := PatchU16(c.mem, addr, c.regs[r])), next)
      case Alu(op, a, b) =>
        (match AluResult(op, c.regs[a], c.regs[b])
         case None => DividedByZero
         case Some(v) => GoTo(p, c.(regs := c.regs[a := v]), next))
      case Jmp(o) => GoTo(p, c, JumpLine(p, base, o))
      case Jz(r, o) => GoTo(p, c, if c.regs[r] == 0 then JumpLine(p, base, o) else next)
      case Jnz(r, o) => GoTo(p, c, if c.regs[r] != 0 then JumpLine(p, base, o) else next)
      case Print(r) => GoTo(p, c.(out := c.out + [c.regs[r]]), next)
  }

  /** At most `n` steps from a configuration. */
  function SourceRun(p: Program, base: int, c: Config, n: nat): Behaviour
    decreases n
  {
    if n == 0 then Running(c) else
      var r := SourceStep(p, base, c);
      if r.Running? then SourceRun(p, base, r.next, n - 1) else r
  }

  /** The line execution starts at: that of the entry symbol, or without one the first that emits bytes. */
  function EntryLine(p: Program, entry: Option<string>): (k: nat)
    ensures k <= |p|
  {
    match entry
    case None => Skip(p, 0)
    case Some(name) => Skip(p, LabelLine(p, name))
  }

  /** The symbol of the last `.ENTRY`. */
  function LastEntry(p: Program): Option<string>
  {
    if p == [] then None
    else if p[|p| - 1].stmt.Entry? then Some(p[|p| - 1].stmt.name)
    else LastEntry(p[..|p| - 1])
  }

  /** A whole run of a program loaded at `base` into the memory `mem`. */
  function SourceProgram(p: Program, entry: Option<string>, base: int, mem: Memory, n: nat): Behaviour
  {
    if !IsOp(p, EntryLine(p, entry)) then Wrong
    else SourceRun(p, base, Config(EntryLine(p, entry), [0, 0, 0, 0, 0, 0, 0, 0], mem, []), n)
  }

  // ----- Static safety -----

  /** The conditions one can read off the source: control stays among instructions,
      accesses stay in memory and stores spare the code. */
  predicate SafeLine(p: Program, base: int, k: nat)
    requires IsOp(p, k)
  {
    var next := Skip(p, k + 1);
    match p[k].stmt.i
    case Halt => true
    case Ret => true
    case Jmp(o) => IsOp(p, JumpLine(p, base, o))
    case Jz(_, o) => IsOp(p, next) && IsOp(p, JumpLine(p, base, o))
    case Jnz(_, o) => IsOp(p, next) && IsOp(p, JumpLine(p, base, o))
    case Load(_, o) => IsOp(p, next) && Readable(Address(p, base, o), 2)
    case Store(_, o) =>
      IsOp(p, next) && Readable(Address(p, base, o), 2) && SparesCode(p, base, Address(p, base, o))
    case _ => IsOp(p, next)
  }

  predicate StaticallySafe(p: Program, base: int)
  {
    forall k :: 0 <= k < |p| && p[k].stmt.Op? ==> SafeLine(p, base, k)
  }

  lemma SafeStep(p: Program, base: int, c: Config)
    requires IsOp(p, c.line) && SafeLine(p, base, c.line)
    ensures var r := SourceStep(p, base, c); r != Wrong && (r.Running? ==> IsOp(p, r.next.line))
  {
    hide PatchU16, ReadU16, SparesCode, Address, JumpLine, AluResult, Skip;
  }

  lemma {:induction false} SafeRun(p: Program, base: int, c: Config, n: nat)
    requires StaticallySafe(p, base) && IsOp(p, c.line)
    ensures SourceRun(p, base, c, n) != Wrong
    decreases n
  {
    hide SafeLine, SourceStep;
    if n > 0 {
      assert SafeLine(p, base, c.line);
      SafeStep(p, base, c);
      var r := SourceStep(p, base, c);
      if r.Running? {
        SafeRun(p, base, r.next, n - 1);
      }
    }
  }

  /** A statically safe program never goes wrong, however long it runs. */
  lemma SafeNeverWrong(p: Program, entry: Option<string>, base: int, mem: Memory, n: nat)
    requires StaticallySafe(p, base) && IsOp(p, EntryLine(p, entry))
    ensures SourceProgram(p, entry, base, mem, n) != Wrong
  {
    SafeRun(p, base, Config(EntryLine(p, entry), [0, 0, 0, 0, 0, 0, 0, 0], mem, []), n);
  }
}
