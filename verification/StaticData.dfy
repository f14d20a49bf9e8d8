/** What data directives put in memory: in the assembled code, in the loaded image, and in the register that
    loads a labelled word. */
module StaticData {
  import opened Bytes
  import opened Assembler
  import opened Linker
  import opened Vm
  import opened Layout
  import opened SourceMachine
  import opened SeparateAssembly
  import opened Simulation

  /** The bytes from `off` on are what the directive asks for: a number modulo its width, the address of a symbol
      modulo 2^16 (0 when the symbol is defined elsewhere), and zeros for reserved space. */
  predicate Laid(bytes: seq<Byte>, off: nat, s: Stmt, tab: SymTab)
    requires off + StmtSize(s) <= |bytes|
  {
    match s
    case ByteLit(v) => (bytes[off] as int - v) % 256 == 0
    case WordLit(Number(n)) => (bytes[off] as int + 256 * bytes[off + 1] as int - n) % 0x1_0000 == 0
    case WordLit(Symbol(name)) =>
      bytes[off] as int + 256 * bytes[off + 1] as int == if name in tab then tab[name] % 0x1_0000 else 0
    case Space(n) => forall i :: off <= i < off + n ==> bytes[i] == 0
    case _ => true
  }

  lemma WordRead(bytes: seq<Byte>, off: nat, v: int)
    requires off + 2 <= |bytes| && bytes[off..off + 2] == WordBytes(v)
    ensures ReadU16(bytes, off) == v % 0x1_0000
  {
    assert bytes[off] == bytes[off..off + 2][0] && bytes[off + 1] == bytes[off..off + 2][1];
    assert v % 0x1_0000 == v % 256 + 256 * (v / 256 % 256);
  }

  /** A statement's encoding, found at `off`, is the data it asks for. */
  lemma EncodedIsLaid(bytes: seq<Byte>, off: nat, s: Stmt, tab: SymTab)
    requires off + StmtSize(s) <= |bytes| && bytes[off..off + StmtSize(s)] == EncodeStmt(s, tab)
    ensures Laid(bytes, off, s, tab)
  {
    match s {
      case ByteLit(v) =>
        assert bytes[off] == bytes[off..off + 1][0];
      case WordLit(w) =>
        WordRead(bytes, off, Value(w, tab));
      case Space(n) =>
        assert forall i :: off <= i < off + n ==> bytes[i] == bytes[off..off + n][i - off];
      case _ =>
    }
  }

  /** In the code the assembler returns, every data directive has left its data at its own offset. */
  lemma AssembledData(p: Program, k: nat)
    requires k < |p|
    ensures Size(p[..k]) + StmtSize(p[k].stmt) <= |ObjectOf(p).code|
    ensures Laid(ObjectOf(p).code, Size(p[..k]), p[k].stmt, Symbols(p))
  {
    hide EncodeStmt, Laid, Symbols, Code, Size;
    CodeAt(p, Symbols(p), k, |p|);
    assert p[..|p|] == p;
    EncodedIsLaid(Code(p, Symbols(p)), PcAt(p, k), p[k].stmt, Symbols(p));
  }

  /** A word directive's label, in the code: the address pass 1 gave it. */
  lemma AssembledAddress(p: Program, k: nat, j: nat)
    requires WellFormed(p) && k < |p| && j < |p| && p[j].lab.Some? && p[k].stmt == WordLit(Symbol(p[j].lab.value))
    ensures Size(p[..k]) + 2 <= |ObjectOf(p).code|
    ensures ReadU16(ObjectOf(p).code, Size(p[..k])) == Size(p[..j]) % 0x1_0000
  {
    hide Symbols, Code, Size;
    AssembledData(p, k);
    WellFormedLabels(p);
    LabelAddress(p, j);
  }

  lemma {:induction false} LabelAddress(p: Program, j: nat)
    requires DistinctLabels(p) && j < |p| && p[j].lab.Some?
    ensures p[j].lab.value in Symbols(p) && Symbols(p)[p[j].lab.value] == Size(p[..j])
  {
    var n := |p| - 1;
    if j < n {
      LabelAddress(p[..n], j);
      assert p[..n][..j] == p[..j];
    }
  }

  /** In the loaded memory the same holds, with every symbol moved to the base. */
  lemma LoadedData(ps: seq<Program>, entry: Option<string>, base: nat, k: nat)
    requires Compatible(ps) && Exported(ps, entry) && base + Size(Flatten(ps)) <= MEMORY_SIZE && k < |Flatten(ps)|
    ensures ValidObjects(Objects(ps)) && Linkable(Objects(ps), entry)
    ensures var p := Flatten(ps);
      var image := ImageOf(ps, entry);
      && OffsetsIn(image.relocs, |image.code|) && Fits(image, Some(base))
      && base + Size(p[..k]) + StmtSize(p[k].stmt) <= MEMORY_SIZE
      && Laid(LoadedMemory(image, Some(base)), base + Size(p[..k]), p[k].stmt, Shift(Symbols(p), base))
  {
    hide EncodeStmt, Laid, Symbols, Code, Size, Compatible, Exported, ValidObjects, Linkable, Shift, Splice, ZeroMemory,
         OffsetsIn, Fits, LoadedMemory, EntryLine, EntryName, ImageOf, EntryPc;
    var p := Flatten(ps);
    ImageLoads(ps, entry, base);
    var tab := Shift(Symbols(p), base);
    CodeAt(p, tab, k, |p|);
    assert p[..|p|] == p;
    SpliceSlice(ZeroMemory(), base, Code(p, tab), PcAt(p, k), StmtSize(p[k].stmt));
    EncodedIsLaid(LoadedMemory(ImageOf(ps, entry), Some(base)), base + PcAt(p, k), p[k].stmt, tab);
  }

  /** Outside the image the memory is zero. */
  lemma LoadedElsewhere(image: Image, at: Option<int>, i: nat)
    requires OffsetsIn(image.relocs, |image.code|) && Fits(image, at) && i < MEMORY_SIZE
    requires i < BaseOf(image, at) || BaseOf(image, at) + |image.code| <= i
    ensures LoadedMemory(image, at)[i] == 0
  {
    hide LoadedCode;
  }

  /** As long as a labelled word still holds what was loaded there, loading it by its label gives the number
      written in the source. */
  lemma LoadReadsWord(ps: seq<Program>, entry: Option<string>, base: nat, k: nat, n: int, c: Config)
    requires Compatible(ps) && Exported(ps, entry) && base + Size(Flatten(ps)) <= MEMORY_SIZE
    requires var p := Flatten(ps);
      && k < |p| && p[k].lab.Some? && p[k].stmt == WordLit(Number(n))
      && IsOp(p, c.line) && p[c.line].stmt.i.Load? && p[c.line].stmt.i.addr == Symbol(p[k].lab.value)
    ensures ValidObjects(Objects(ps)) && Linkable(Objects(ps), entry)
    ensures var p := Flatten(ps);
      var image := ImageOf(ps, entry);
      var at := base + Size(p[..k]);
      && OffsetsIn(image.relocs, |image.code|) && Fits(image, Some(base)) && at + 2 <= MEMORY_SIZE
      && (c.mem[at..at + 2] == LoadedMemory(image, Some(base))[at..at + 2] ==>
            SourceStep(p, base, c) ==
              GoTo(p, c.(regs := c.regs[p[c.line].stmt.i.r := n % 0x1_0000]), Skip(p, c.line + 1)))
  {
    hide Symbols, Code, Size, Compatible, Exported, ValidObjects, Linkable, OffsetsIn, Fits, LoadedMemory, EntryLine,
         EntryName, ImageOf, EntryPc, WellFormed, DistinctLabels, GoTo, Skip;
    var p := Flatten(ps);
    LoadedData(ps, entry, base, k);
    FlattenAccepted(ps);
    WellFormedLabels(p);
    LabelAddress(p, k);
    var at := base + Size(p[..k]);
    var m := LoadedMemory(ImageOf(ps, entry), Some(base));
    assert Address(p, base, Symbol(p[k].lab.value)) == at;
    if c.mem[at..at + 2] == m[at..at + 2] {
      SameWord(c.mem, m, at);
      Congruent(ReadU16(m, at), n);
    }
  }

  lemma SameWord(a: seq<Byte>, b: seq<Byte>, off: nat)
    requires off + 2 <= |a| && off + 2 <= |b| && a[off..off + 2] == b[off..off + 2]
    ensures ReadU16(a, off) == ReadU16(b, off)
  {
    assert a[off] == a[off..off + 2][0] == b[off] && a[off + 1] == a[off..off + 2][1] == b[off + 1];
  }

  lemma Congruent(w: Word, n: int)
    requires (w as int - n) % 0x1_0000 == 0
    ensures w == n % 0x1_0000
  {
  }

  // ----- What is accepted -----

  predicate IsLabel(p: Program, name: string)
  {
    exists k :: 0 <= k < |p| && p[k].lab == Some(name)
  }

  predicate IsDirective(p: Program, s: Stmt)
  {
    exists k :: 0 <= k < |p| && p[k].stmt == s
  }

  predicate NoLabelTwice(p: Program)
  {
    forall i, j :: 0 <= i < j < |p| && p[i].lab.Some? ==> p[i].lab != p[j].lab
  }

  lemma {:induction false} TablesAre(p: Program, name: string)
    ensures name in Symbols(p) <==> IsLabel(p, name)
    ensures name in Globals(p) <==> IsDirective(p, Global(name))
    ensures name in Externs(p) <==> IsDirective(p, Extern(name))
  {
    if p != [] {
      var n := |p| - 1;
      var init := p[..n];
      TablesAre(init, name);
      assert forall k :: 0 <= k < n ==> init[k] == p[k];
      assert p[n].lab == Some(name) ==> IsLabel(p, name);
      assert forall s :: p[n].stmt == s ==> IsDirective(p, s);
      assert forall k, s :: 0 <= k < n && init[k].stmt == s ==> IsDirective(p, s);
      assert forall k :: 0 <= k < n && init[k].lab == Some(name) ==> IsLabel(p, name);
    }
  }

  lemma {:induction false} DistinctIs(p: Program)
    ensures DistinctLabels(p) <==> NoLabelTwice(p)
  {
    if p != [] {
      var n := |p| - 1;
      var init := p[..n];
      DistinctIs(init);
      assert forall k :: 0 <= k < n ==> init[k] == p[k];
      if p[n].lab.Some? {
        TablesAre(init, p[n].lab.value);
      }
    }
  }

  /** The assembler accepts a program exactly when no label stands twice, every name used as an operand is a label or
      declared extern, and every entry and every global names a label. */
  lemma AcceptedExactly(p: Program)
    ensures WellFormed(p) <==>
      && NoLabelTwice(p)
      && (forall k :: 0 <= k < |p| ==>
            && (OperandOf(p[k].stmt).Some? && OperandOf(p[k].stmt).value.1.Symbol? ==>
                  var name := OperandOf(p[k].stmt).value.1.name;
                  IsLabel(p, name) || IsDirective(p, Extern(name)))
            && (p[k].stmt.Entry? ==> IsLabel(p, p[k].stmt.name))
            && (p[k].stmt.Global? ==> IsLabel(p, p[k].stmt.name)))
  {
    hide Symbols, Globals, Externs, DistinctLabels, NoLabelTwice, IsLabel, OperandOf;
    DistinctIs(p);
    forall name ensures (name in Symbols(p) <==> IsLabel(p, name))
      && (name in Globals(p) <==> IsDirective(p, Global(name)))
      && (name in Externs(p) <==> IsDirective(p, Extern(name)))
    {
      TablesAre(p, name);
    }
    if WellFormed(p) {
      forall k | 0 <= k < |p| && p[k].stmt.Global? ensures IsLabel(p, p[k].stmt.name) {
        assert IsDirective(p, Global(p[k].stmt.name));
      }
    }
  }

  // ----- A whole program -----

  /** Prints the number it carries. */
  function Printer(name: string, n: int): Program
  {
    [Line(None, Op(Load(0, Symbol(name)))), Line(None, Op(Print(0))), Line(None, Op(Halt)),
     Line(Some(name), WordLit(Number(n)))]
  }

  lemma OneMore(p: Program, l: Line)
    ensures Size(p + [l]) == Size(p) + StmtSize(l.stmt)
    ensures Symbols(p + [l]) == if l.lab.Some? then Symbols(p)[l.lab.value := Size(p)] else Symbols(p)
    ensures !l.stmt.Global? ==> Globals(p + [l]) == Globals(p)
    ensures !l.stmt.Entry? ==> LastEntry(p + [l]) == LastEntry(p)
    ensures DistinctLabels(p + [l]) <==> DistinctLabels(p) && (l.lab.Some? ==> l.lab.value !in Symbols(p))
  {
    var q := p + [l];
    assert q[..|q| - 1] == p && q[|q| - 1] == l;
  }

  lemma NothingYet()
    ensures Size([]) == 0 && Symbols([]) == map[] && Globals([]) == {} && LastEntry([]).None? && DistinctLabels([])
  {
  }

  lemma PrinterLayout(name: string, n: int)
    ensures var p := Printer(name, n);
      && Size(p) == 9 && Size(p[..3]) == 7 && LastEntry(p).None?
      && Symbols(p) == map[name := 7] && Globals(p) == {} && DistinctLabels(p)
  {
    hide Size, Symbols, Globals, LastEntry, DistinctLabels;
    var p := Printer(name, n);
    NothingYet();
    OneMore([], p[0]);
    OneMore([] + [p[0]], p[1]);
    OneMore([] + [p[0]] + [p[1]], p[2]);
    OneMore([] + [p[0]] + [p[1]] + [p[2]], p[3]);
    assert p[..3] == [] + [p[0]] + [p[1]] + [p[2]];
    assert p == [] + [p[0]] + [p[1]] + [p[2]] + [p[3]];
  }

  lemma PrinterCompatible(name: string, n: int)
    ensures Compatible([Printer(name, n)]) && Flatten([Printer(name, n)]) == Printer(name, n)
  {
    hide Symbols, Globals, Size, DistinctLabels;
    PrinterLayout(name, n);
    AloneIsCompatible(Printer(name, n));
  }

  /** The source machine prints the number and halts. */
  lemma PrinterRuns(name: string, n: int, base: nat, mem: Memory)
    requires base + 9 <= MEMORY_SIZE && ReadU16(mem, base + 7) == n % 0x1_0000
    ensures var zero: Registers := [0, 0, 0, 0, 0, 0, 0, 0];
      var r := SourceProgram(Printer(name, n), None, base, mem, 3);
      r == Exited(0, Config(2, zero[0 := n % 0x1_0000], mem, [n % 0x1_0000]))
  {
    hide Symbols;
    var p := Printer(name, n);
    var zero: Registers := [0, 0, 0, 0, 0, 0, 0, 0];
    PrinterLayout(name, n);
    assert Address(p, base, Symbol(name)) == base + 7;
    var c0 := Config(0, zero, mem, []);
    var c1 := Config(1, zero[0 := n % 0x1_0000], mem, []);
    var c2 := Config(2, zero[0 := n % 0x1_0000], mem, [n % 0x1_0000]);
    assert SourceStep(p, base, c0) == Running(c1);
    assert SourceStep(p, base, c1) == Running(c2);
    assert SourceStep(p, base, c2) == Exited(0, c2);
    assert SourceRun(p, base, c2, 1) == Exited(0, c2);
    assert SourceRun(p, base, c1, 2) == Exited(0, c2);
  }

  /** Assembled, linked, loaded anywhere and run, it prints its number modulo 2^16 and exits with 0. */
  lemma PrinterPrints(name: string, n: int, base: nat)
    requires base + 9 <= MEMORY_SIZE
    ensures Compatible([Printer(name, n)]) && ValidObjects(Objects([Printer(name, n)]))
    ensures Linkable(Objects([Printer(name, n)]), None)
    ensures var image := ImageOf([Printer(name, n)], None);
      && OffsetsIn(image.relocs, |image.code|) && Fits(image, Some(base))
      && var o := Run(InitialState(image, Some(base)), 3);
      o.Exit? && o.code == 0 && o.final.out == [n % 0x1_0000]
  {
    hide Symbols, Code, Size, Compatible, ValidObjects, Linkable, OffsetsIn, Fits, LoadedMemory, ImageOf, Run,
         InitialState, SourceRun, Shift, Flatten, Objects, Globals, Printer, SourceProgram;
    var ps := [Printer(name, n)];
    PrinterCompatible(name, n);
    PrinterLayout(name, n);
    PrinterShape(name, n);
    LoadedData(ps, None, base, 3);
    var m := LoadedMemory(ImageOf(ps, None), Some(base));
    Congruent(ReadU16(m, base + 7), n);
    PrinterRuns(name, n, base, m);
    SemanticPreservation(ps, None, base, 3);
  }

  lemma PrinterShape(name: string, n: int)
    ensures |Printer(name, n)| == 4 && Printer(name, n)[3].stmt == WordLit(Number(n))
  {
  }
}
