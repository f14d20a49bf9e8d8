/** What patching and relocating do to assembled code.

    Relocation windows are in range, ordered and disjoint, so patching the
    object code of a program with new symbol addresses gives the code the
    program has under those addresses, and loading it at a base gives the code
    it has with every symbol moved by that base. */
module Layout {
  import opened Bytes
  import opened Assembler
  import opened Linker
  import opened Vm

  /** Every symbol the program refers to is in `tab`. */
  predicate Refs(p: Program, tab: SymTab)
  {
    forall k :: 0 <= k < |p| && SymRef(p[k].stmt).Some? ==> SymRef(p[k].stmt).value.1 in tab
  }

  /** The two tables give every symbol the program refers to the same 16-bit address. */
  predicate Agree(p: Program, t1: SymTab, t2: SymTab)
    requires Refs(p, t1) && Refs(p, t2)
  {
    forall k :: 0 <= k < |p| && SymRef(p[k].stmt).Some? ==>
      var name := SymRef(p[k].stmt).value.1; (t1[name] - t2[name]) % 0x1_0000 == 0
  }

  lemma PrefixRefs(p: Program, tab: SymTab, k: nat)
    requires Refs(p, tab) && k <= |p|
    ensures Refs(p[..k], tab)
  {
    forall j | 0 <= j < k && SymRef(p[..k][j].stmt).Some? ensures SymRef(p[..k][j].stmt).value.1 in tab {
      assert p[..k][j] == p[j];
    }
  }

  lemma StmtCongruent(s: Stmt, t1: SymTab, t2: SymTab)
    requires SymRef(s).Some? ==>
      var name := SymRef(s).value.1; name in t1 && name in t2 && (t1[name] - t2[name]) % 0x1_0000 == 0
    ensures EncodeStmt(s, t1) == EncodeStmt(s, t2)
  {
    if SymRef(s).Some? {
      var name := SymRef(s).value.1;
      WordBytesCongruent(t1[name], t2[name]);
    }
  }

  lemma {:induction false} CodeCongruent(p: Program, t1: SymTab, t2: SymTab)
    requires Refs(p, t1) && Refs(p, t2) && Agree(p, t1, t2)
    ensures Code(p, t1) == Code(p, t2)
  {
    hide EncodeStmt, SymRef;
    if p != [] {
      var init := p[..|p| - 1];
      PrefixRefs(p, t1, |init|);
      PrefixRefs(p, t2, |init|);
      assert forall j :: 0 <= j < |init| ==> init[j] == p[j];
      CodeCongruent(init, t1, t2);
      StmtCongruent(p[|p| - 1].stmt, t1, t2);
    }
  }

  // ----- Appending programs -----

  lemma AppendInit(a: Program, b: Program)
    requires b != []
    ensures (a + b)[..|a + b| - 1] == a + b[..|b| - 1]
    ensures (a + b)[|a + b| - 1] == b[|b| - 1]
  {
  }

  lemma {:induction false} SizeAppend(a: Program, b: Program)
    ensures Size(a + b) == Size(a) + Size(b)
  {
    if b == [] {
      assert a + b == a;
    } else {
      AppendInit(a, b);
      SizeAppend(a, b[..|b| - 1]);
    }
  }

  lemma {:induction false} CodeAppend(a: Program, b: Program, tab: SymTab)
    ensures Code(a + b, tab) == Code(a, tab) + Code(b, tab)
  {
    hide EncodeStmt;
    if b == [] {
      assert a + b == a;
    } else {
      AppendInit(a, b);
      CodeAppend(a, b[..|b| - 1], tab);
    }
  }

  lemma ShiftUpdate(tab: SymTab, l: string, v: int, d: int, front: SymTab)
    ensures front + Shift(tab[l := v], d) == (front + Shift(tab, d))[l := v + d]
  {
  }

  lemma {:induction false} SymbolsAppend(a: Program, b: Program)
    ensures Symbols(a + b) == Symbols(a) + Shift(Symbols(b), Size(a))
  {
    if b == [] {
      assert a + b == a;
    } else {
      hide Shift, StmtSize;
      var init := b[..|b| - 1];
      AppendInit(a, b);
      SymbolsAppend(a, init);
      SizeAppend(a, init);
      if b[|b| - 1].lab.Some? {
        ShiftUpdate(Symbols(init), b[|b| - 1].lab.value, Size(init), Size(a), Symbols(a));
      }
    }
  }

  lemma {:induction false} DistinctAppend(a: Program, b: Program)
    ensures DistinctLabels(a + b) <==>
              DistinctLabels(a) && DistinctLabels(b) && Symbols(a).Keys !! Symbols(b).Keys
  {
    if b == [] {
      assert a + b == a;
    } else {
      var init := b[..|b| - 1];
      AppendInit(a, b);
      DistinctAppend(a, init);
      SymbolsAppend(a, init);
    }
  }

  lemma {:induction false} DirectivesAppend(a: Program, b: Program)
    ensures Globals(a + b) == Globals(a) + Globals(b)
    ensures Externs(a + b) == Externs(a) + Externs(b)
  {
    if b == [] {
      assert a + b == a;
    } else {
      AppendInit(a, b);
      DirectivesAppend(a, b[..|b| - 1]);
    }
  }

  predicate HasEntry(p: Program)
  {
    exists k :: 0 <= k < |p| && p[k].stmt.Entry?
  }

  lemma {:induction false} EntryAppend(a: Program, b: Program, tab: SymTab)
    ensures EntryOf(a + b, tab) == if HasEntry(b) then EntryOf(b, tab) else EntryOf(a, tab)
  {
    if b == [] {
      assert a + b == a;
    } else {
      var init := b[..|b| - 1];
      AppendInit(a, b);
      EntryAppend(a, init, tab);
      assert forall j :: 0 <= j < |init| ==> init[j] == b[j];
      assert HasEntry(b) <==> HasEntry(init) || b[|b| - 1].stmt.Entry?;
    }
  }

  // ----- Relocation windows -----

  /** Windows are in range and each ends before the next begins. */
  predicate OrderedWindows(offs: seq<int>, size: int)
  {
    && OffsetsIn(offs, size)
    && forall j, k :: 0 <= j < k < |offs| ==> offs[j] + 2 <= offs[k]
  }

  lemma StmtRelocShape(s: Stmt, pc: int)
    ensures SymRef(s).None? ==> StmtRelocs(s, pc) == []
    ensures SymRef(s).Some? ==> StmtRelocs(s, pc) == [Reloc(pc + SymRef(s).value.0, 2, SymRef(s).value.1, 0)]
  {
  }

  lemma OrderedSnoc(offs: seq<int>, off: int, from: nat, to: nat)
    requires OrderedWindows(offs, from) && from <= off && off + 2 <= to
    ensures OrderedWindows(offs + [off], to)
  {
  }

  lemma OrderedWiden(offs: seq<int>, from: nat, to: nat)
    requires OrderedWindows(offs, from) && from <= to
    ensures OrderedWindows(offs, to)
  {
  }

  /** The assembler's relocation windows are in range, in order and disjoint. */
  lemma {:induction false} RelocWindows(p: Program)
    ensures OrderedWindows(Offsets(Relocs(p), 0), Size(p))
  {
    hide StmtRelocs, SymRef, StmtSize, OrderedWindows;
    if p == [] {
      NoWindows();
    } else {
      hide Offsets;
      var init := p[..|p| - 1];
      var s := p[|p| - 1].stmt;
      var offs := Offsets(Relocs(init), 0);
      RelocWindows(init);
      StmtRelocShape(s, Size(init));
      if SymRef(s).Some? {
        var (o, name) := SymRef(s).value;
        OffsetsSnoc(Relocs(init), Reloc(Size(init) + o, 2, name, 0), 0);
        OrderedSnoc(offs, Size(init) + o, Size(init), Size(p));
      } else {
        assert Relocs(p) == Relocs(init);
        OrderedWiden(offs, Size(init), Size(p));
      }
    }
  }

  lemma NoWindows()
    ensures Offsets([], 0) == [] && OrderedWindows([], 0)
  {
  }

  predicate PlainReloc(r: Reloc, tab: SymTab, size: int)
  {
    r.size == 2 && r.addend == 0 && r.symbol in tab && InWindow(r, size)
  }

  /** The assembler emits in-range 16-bit relocations without addend, only to symbols the program refers to. */
  lemma {:induction false} RelocShape(p: Program, tab: SymTab)
    requires Refs(p, tab)
    ensures forall k :: 0 <= k < |Relocs(p)| ==> PlainReloc(Relocs(p)[k], tab, Size(p))
  {
    if p != [] {
      hide StmtRelocs, SymRef, StmtSize;
      var init := p[..|p| - 1];
      PrefixRefs(p, tab, |init|);
      RelocShape(init, tab);
      StmtRelocShape(p[|p| - 1].stmt, Size(init));
    }
  }

  // ----- Patching -----

  lemma {:induction false} PatchedLeft(a: seq<Byte>, b: seq<Byte>, relocs: seq<Reloc>, tab: SymTab)
    requires WindowsIn(relocs, |a|)
    ensures WindowsIn(relocs, |a + b|)
    ensures Patched(a + b, 0, relocs, tab) == Patched(a, 0, relocs, tab) + b
  {
    hide Splice, Target;
    if relocs != [] {
      var init := relocs[..|relocs| - 1];
      var last := relocs[|relocs| - 1];
      PatchedLeft(a, b, init, tab);
      SpliceLeft(Patched(a, 0, init, tab), b, last.offset, WordBytes(Target(last, tab)));
    }
  }

  lemma {:induction false} PatchedRight(a: seq<Byte>, b: seq<Byte>, relocs: seq<Reloc>, tab: SymTab)
    requires WindowsIn(relocs, |b|)
    ensures Patched(a + b, |a|, relocs, tab) == a + Patched(b, 0, relocs, tab)
  {
    hide Splice, Target;
    if relocs != [] {
      var init := relocs[..|relocs| - 1];
      var last := relocs[|relocs| - 1];
      PatchedRight(a, b, init, tab);
      SpliceRight(a, Patched(b, 0, init, tab), last.offset, WordBytes(Target(last, tab)));
    }
  }

  lemma PatchStmt(s: Stmt, t1: SymTab, t2: SymTab)
    requires SymRef(s).Some? && SymRef(s).value.1 in t2
    ensures PatchU16(EncodeStmt(s, t1), SymRef(s).value.0, t2[SymRef(s).value.1]) == EncodeStmt(s, t2)
  {
  }

  lemma NoSymbolNoTable(s: Stmt, t1: SymTab, t2: SymTab)
    requires SymRef(s).None?
    ensures EncodeStmt(s, t1) == EncodeStmt(s, t2)
  {
  }

  lemma PatchedSnoc(a: seq<Byte>, b: seq<Byte>, relocs: seq<Reloc>, r: Reloc, tab: SymTab)
    requires WindowsIn(relocs, |a|) && InWindow(r, |a| + |b|)
    ensures WindowsIn(relocs + [r], |a + b|)
    ensures Patched(a + b, 0, relocs + [r], tab) == PatchU16(Patched(a, 0, relocs, tab) + b, r.offset, Target(r, tab))
  {
    hide PatchU16, Target;
    PatchedLeft(a, b, relocs, tab);
    var all := relocs + [r];
    assert all[..|all| - 1] == relocs && all[|all| - 1] == r;
  }

  /** Patching a program's own code with the addresses of `t2` gives its code under `t2`. */
  lemma {:induction false} PatchProgram(p: Program, t1: SymTab, t2: SymTab)
    requires Refs(p, t2)
    ensures WindowsIn(Relocs(p), Size(p))
    ensures Patched(Code(p, t1), 0, Relocs(p), t2) == Code(p, t2)
  {
    hide EncodeStmt, StmtRelocs, SymRef, PatchU16, Target;
    if p != [] {
      hide Patched;
      var init := p[..|p| - 1];
      var s := p[|p| - 1].stmt;
      PrefixRefs(p, t2, |init|);
      PatchProgram(init, t1, t2);
      StmtRelocShape(s, Size(init));
      if SymRef(s).Some? {
        var r := Reloc(Size(init) + SymRef(s).value.0, 2, SymRef(s).value.1, 0);
        PatchedSnoc(Code(init, t1), EncodeStmt(s, t1), Relocs(init), r, t2);
        PatchLast(init, s, t1, t2);
      } else {
        PatchedLeft(Code(init, t1), EncodeStmt(s, t1), Relocs(init), t2);
        NoSymbolNoTable(s, t1, t2);
        assert Relocs(p) == Relocs(init);
      }
    }
  }

  lemma PatchLast(init: Program, s: Stmt, t1: SymTab, t2: SymTab)
    requires SymRef(s).Some? && SymRef(s).value.1 in t2
    ensures var (o, name) := SymRef(s).value;
      PatchU16(Code(init, t2) + EncodeStmt(s, t1), Size(init) + o, Target(Reloc(Size(init) + o, 2, name, 0), t2))
      == Code(init, t2) + EncodeStmt(s, t2)
  {
    hide EncodeStmt, Splice, Code;
    var (o, name) := SymRef(s).value;
    PatchStmt(s, t1, t2);
    SpliceRight(Code(init, t2), EncodeStmt(s, t1), o, WordBytes(t2[name]));
  }

  // ----- Loading at a base -----

  lemma ReadLeft(a: seq<Byte>, b: seq<Byte>, off: nat)
    requires off + 1 < |a|
    ensures ReadU16(a + b, off) == ReadU16(a, off)
  {
  }

  lemma {:induction false} RelocatedLeft(a: seq<Byte>, b: seq<Byte>, offs: seq<int>, base: int)
    requires OffsetsIn(offs, |a|)
    ensures OffsetsIn(offs, |a + b|)
    ensures Relocated(a + b, offs, base) == Relocated(a, offs, base) + b
  {
    hide Splice, ReadU16;
    if offs != [] {
      var init := offs[..|offs| - 1];
      var off := offs[|offs| - 1];
      RelocatedLeft(a, b, init, base);
      var before := Relocated(a, init, base);
      ReadLeft(before, b, off);
      SpliceLeft(before, b, off, WordBytes(ReadU16(before, off) + base));
    }
  }

  lemma ReadWordBytes(s: seq<Byte>, off: nat, v: int)
    requires off + 1 < |s| && s[off..off + 2] == WordBytes(v)
    ensures ReadU16(s, off) == v % 0x1_0000
  {
    assert s[off] == s[off..off + 2][0] && s[off + 1] == s[off..off + 2][1];
  }

  lemma ReadStmt(s: Stmt, tab: SymTab)
    requires SymRef(s).Some? && SymRef(s).value.1 in tab
    ensures ReadU16(EncodeStmt(s, tab), SymRef(s).value.0) == tab[SymRef(s).value.1] % 0x1_0000
  {
    var (o, name) := SymRef(s).value;
    assert EncodeStmt(s, tab)[o..o + 2] == WordBytes(tab[name]);
    ReadWordBytes(EncodeStmt(s, tab), o, tab[name]);
  }

  lemma RelocatedSnoc(a: seq<Byte>, b: seq<Byte>, offs: seq<int>, off: int, base: int)
    requires OffsetsIn(offs, |a|) && 0 <= off && off + 2 <= |a| + |b|
    ensures OffsetsIn(offs + [off], |a + b|)
    ensures var before := Relocated(a, offs, base) + b;
      Relocated(a + b, offs + [off], base) == PatchU16(before, off, ReadU16(before, off) + base)
  {
    hide PatchU16, ReadU16;
    RelocatedLeft(a, b, offs, base);
    var all := offs + [off];
    assert all[..|all| - 1] == offs && all[|all| - 1] == off;
  }

  lemma RelocateStmt(init: Program, s: Stmt, tab: SymTab, base: int)
    requires SymRef(s).Some? ==> SymRef(s).value.1 in tab
    requires OffsetsIn(Offsets(Relocs(init), 0), Size(init))
    requires Relocated(Code(init, tab), Offsets(Relocs(init), 0), base) == Code(init, Shift(tab, base))
    ensures var relocs := Relocs(init) + StmtRelocs(s, Size(init));
      && OffsetsIn(Offsets(relocs, 0), Size(init) + StmtSize(s))
      && Relocated(Code(init, tab) + EncodeStmt(s, tab), Offsets(relocs, 0), base)
         == Code(init, Shift(tab, base)) + EncodeStmt(s, Shift(tab, base))
  {
    hide Code, EncodeStmt, Relocs, StmtRelocs, PatchU16, ReadU16, Shift, Relocated, Offsets, Size;
    StmtRelocShape(s, Size(init));
    if SymRef(s).Some? {
      var r := Reloc(Size(init) + SymRef(s).value.0, 2, SymRef(s).value.1, 0);
      OffsetsSnoc(Relocs(init), r, 0);
      RelocatedSnoc(Code(init, tab), EncodeStmt(s, tab), Offsets(Relocs(init), 0), r.offset, base);
      LastWindow(init, s, tab, base);
    } else {
      RelocatedLeft(Code(init, tab), EncodeStmt(s, tab), Offsets(Relocs(init), 0), base);
      NoSymbolNoTable(s, tab, Shift(tab, base));
      assert Relocs(init) + StmtRelocs(s, Size(init)) == Relocs(init);
    }
  }

  lemma RelocateNothing(tab: SymTab, base: int)
    ensures Offsets([], 0) == [] && OffsetsIn([], 0) && Relocated([], [], base) == []
  {
  }

  /** Loading a program's code at `base` gives its code with every symbol moved by `base`. */
  lemma {:induction false} RelocateProgram(p: Program, tab: SymTab, base: int)
    requires Refs(p, tab)
    ensures OffsetsIn(Offsets(Relocs(p), 0), Size(p))
    ensures Relocated(Code(p, tab), Offsets(Relocs(p), 0), base) == Code(p, Shift(tab, base))
  {
    hide EncodeStmt, StmtRelocs, SymRef, PatchU16, ReadU16, Shift, Offsets, Relocated;
    if p == [] {
      RelocateNothing(tab, base);
    } else {
      var init := p[..|p| - 1];
      PrefixRefs(p, tab, |init|);
      RelocateProgram(init, tab, base);
      RelocateStmt(init, p[|p| - 1].stmt, tab, base);
    }
  }

  lemma LastWindow(init: Program, s: Stmt, tab: SymTab, base: int)
    requires SymRef(s).Some? && SymRef(s).value.1 in tab
    ensures var (o, name) := SymRef(s).value;
      var before := Code(init, Shift(tab, base)) + EncodeStmt(s, tab);
      PatchU16(before, Size(init) + o, ReadU16(before, Size(init) + o) + base)
      == Code(init, Shift(tab, base)) + EncodeStmt(s, Shift(tab, base))
  {
    hide EncodeStmt, Splice, Code;
    var (o, name) := SymRef(s).value;
    var moved := Shift(tab, base);
    var front := Code(init, moved);
    var v := ReadU16(EncodeStmt(s, tab), o);
    assert ReadU16(front + EncodeStmt(s, tab), Size(init) + o) == v;
    ReadStmt(s, tab);
    WordBytesCongruent(v + base, moved[name]);
    PatchStmt(s, tab, moved);
    SpliceRight(front, EncodeStmt(s, tab), o, WordBytes(v + base));
  }

  // ----- Single windows -----

  predicate InSomeWindow(offs: seq<int>, i: int)
  {
    exists k :: 0 <= k < |offs| && offs[k] <= i < offs[k] + 2
  }

  predicate DisjointWindows(offs: seq<int>)
  {
    forall j, k :: 0 <= j < |offs| && 0 <= k < |offs| && j != k ==> offs[j] + 2 <= offs[k] || offs[k] + 2 <= offs[j]
  }

  lemma WindowPrefix(offs: seq<int>, i: int)
    requires offs != [] && !InSomeWindow(offs, i)
    ensures !InSomeWindow(offs[..|offs| - 1], i)
  {
    var init := offs[..|offs| - 1];
    forall k | 0 <= k < |init| ensures !(init[k] <= i < init[k] + 2) {
      assert offs[k] == init[k];
    }
  }

  lemma {:induction false} RelocatedOutside(code: seq<Byte>, offs: seq<int>, base: int, i: nat)
    requires OffsetsIn(offs, |code|) && i < |code| && !InSomeWindow(offs, i)
    ensures Relocated(code, offs, base)[i] == code[i]
  {
    if offs != [] {
      hide PatchU16;
      var init := offs[..|offs| - 1];
      var off := offs[|offs| - 1];
      WindowPrefix(offs, i);
      RelocatedOutside(code, init, base, i);
      var before := Relocated(code, init, base);
      assert !(offs[|offs| - 1] <= i < offs[|offs| - 1] + 2);
      PatchOutside(before, off, ReadU16(before, off) + base, i);
    }
  }

  lemma {:induction false} RelocatedInside(code: seq<Byte>, offs: seq<int>, base: int, k: nat)
    requires OffsetsIn(offs, |code|) && DisjointWindows(offs) && k < |offs|
    ensures ReadU16(Relocated(code, offs, base), offs[k]) == (ReadU16(code, offs[k]) + base) % 0x1_0000
  {
    hide PatchU16;
    var n := |offs| - 1;
    var init := offs[..n];
    var off := offs[n];
    var before := Relocated(code, init, base);
    if k == n {
      forall j | 0 <= j < n ensures !(init[j] <= off < init[j] + 2) && !(init[j] <= off + 1 < init[j] + 2) {
        assert init[j] == offs[j];
      }
      RelocatedOutside(code, init, base, off);
      RelocatedOutside(code, init, base, off + 1);
      ReadPatched(before, off, ReadU16(before, off) + base);
    } else {
      assert init[k] == offs[k];
      RelocatedInside(code, init, base, k);
      PatchOutside(before, off, ReadU16(before, off) + base, offs[k]);
      PatchOutside(before, off, ReadU16(before, off) + base, offs[k] + 1);
    }
  }

  /** `after` is `before` with `d` added, modulo 2^16, to every window and no other byte changed. */
  ghost predicate Moved(before: seq<Byte>, after: seq<Byte>, offs: seq<int>, d: int)
    requires |after| == |before| && OffsetsIn(offs, |before|)
  {
    && (forall k :: 0 <= k < |offs| ==> ReadU16(after, offs[k]) == (ReadU16(before, offs[k]) + d) % 0x1_0000)
    && (forall i :: 0 <= i < |before| && !InSomeWindow(offs, i) ==> after[i] == before[i])
  }

  /** The loader adds the base to every window exactly once and touches no other byte. */
  lemma RelocatedWindows(code: seq<Byte>, offs: seq<int>, base: int)
    requires OffsetsIn(offs, |code|) && DisjointWindows(offs)
    ensures Moved(code, Relocated(code, offs, base), offs, base)
  {
    hide ReadU16, Relocated;
    forall k | 0 <= k < |offs|
      ensures ReadU16(Relocated(code, offs, base), offs[k]) == (ReadU16(code, offs[k]) + base) % 0x1_0000
    {
      RelocatedInside(code, offs, base, k);
    }
    forall i | 0 <= i < |code| && !InSomeWindow(offs, i) ensures Relocated(code, offs, base)[i] == code[i] {
      RelocatedOutside(code, offs, base, i);
    }
  }

  lemma EqualWords(r: seq<Byte>, r': seq<Byte>, off: nat)
    requires off + 1 < |r| == |r'| && ReadU16(r, off) == ReadU16(r', off)
    ensures r[off] == r'[off] && r[off + 1] == r'[off + 1]
  {
  }

  /** Disjoint windows make the order of relocation irrelevant. */
  lemma RelocationOrder(code: seq<Byte>, offs: seq<int>, offs': seq<int>, base: int)
    requires OffsetsIn(offs, |code|) && DisjointWindows(offs)
    requires OffsetsIn(offs', |code|) && DisjointWindows(offs')
    requires forall x :: x in offs <==> x in offs'
    ensures Relocated(code, offs, base) == Relocated(code, offs', base)
  {
    hide Relocated, ReadU16, DisjointWindows;
    var r, r' := Relocated(code, offs, base), Relocated(code, offs', base);
    forall i | 0 <= i < |code| ensures r[i] == r'[i] {
      if InSomeWindow(offs, i) {
        var k :| 0 <= k < |offs| && offs[k] <= i < offs[k] + 2;
        assert offs[k] in offs';
        var k' :| 0 <= k' < |offs'| && offs'[k'] == offs[k];
        RelocatedInside(code, offs, base, k);
        RelocatedInside(code, offs', base, k');
        EqualWords(r, r', offs[k]);
      } else {
        forall k | 0 <= k < |offs'| ensures !(offs'[k] <= i < offs'[k] + 2) {
          assert offs'[k] in offs;
        }
        RelocatedOutside(code, offs, base, i);
        RelocatedOutside(code, offs', base, i);
      }
    }
  }

  lemma UnmovedByte(before: seq<Byte>, after: seq<Byte>, offs: seq<int>, d: int, i: nat)
    requires |after| == |before| && OffsetsIn(offs, |before|) && Moved(before, after, offs, d)
    requires i < |before| && d % 0x1_0000 == 0
    ensures after[i] == before[i]
  {
    hide ReadU16;
    if InSomeWindow(offs, i) {
      var k :| 0 <= k < |offs| && offs[k] <= i < offs[k] + 2;
      NoChange(ReadU16(before, offs[k]), d);
      EqualWords(before, after, offs[k]);
    }
  }

  lemma NoChange(w: Word, d: int)
    ensures (w + d) % 0x1_0000 == w <==> d % 0x1_0000 == 0
  {
  }

  /** Moving by `d` changes nothing exactly when `d` is 0 modulo 2^16 or there is no window. */
  lemma MovedNothing(before: seq<Byte>, after: seq<Byte>, offs: seq<int>, d: int)
    requires |after| == |before| && OffsetsIn(offs, |before|) && Moved(before, after, offs, d)
    ensures before == after <==> d % 0x1_0000 == 0 || offs == []
  {
    hide ReadU16;
    if offs == [] {
      assert forall i :: 0 <= i < |before| ==> !InSomeWindow(offs, i);
    } else if d % 0x1_0000 == 0 {
      forall i | 0 <= i < |before| ensures after[i] == before[i] {
        UnmovedByte(before, after, offs, d, i);
      }
    } else {
      NoChange(ReadU16(before, offs[0]), d);
    }
  }
}
