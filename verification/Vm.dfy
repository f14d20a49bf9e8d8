/** The relocating loader and the 16-bit virtual machine. */
module Vm {
  import opened Bytes
  import opened Linker

  const MEMORY_SIZE: nat := 65536

  // ----- Loader -----

  predicate OffsetsIn(offs: seq<int>, size: int)
  {
    forall k :: 0 <= k < |offs| ==> 0 <= offs[k] && offs[k] + 2 <= size
  }

  /** `code` after adding `base` to the word at each offset, in order. */
  function Relocated(code: seq<Byte>, offs: seq<int>, base: int): (r: seq<Byte>)
    requires OffsetsIn(offs, |code|)
    ensures |r| == |code|
  {
    if offs == [] then code else
      var before := Relocated(code, offs[..|offs| - 1], base);
      var off := offs[|offs| - 1];
      PatchU16(before, off, ReadU16(before, off) + base)
  }

  /** The address an image is loaded at: fixed for an absolute image, chosen at
      load time for a relocatable one. */
  function BaseOf(image: Image, at: Option<int>): int
  {
    if image.mode.Relocatable? && at.Some? then at.value else image.loadAddress
  }

  function LoadedCode(image: Image, at: Option<int>): (r: seq<Byte>)
    requires OffsetsIn(image.relocs, |image.code|)
    ensures |r| == |image.code|
  {
    if image.mode.Relocatable? then Relocated(image.code, image.relocs, BaseOf(image, at)) else image.code
  }

  predicate Fits(image: Image, at: Option<int>)
  {
    0 <= BaseOf(image, at) && BaseOf(image, at) + |image.code| <= MEMORY_SIZE
  }

  function ZeroMemory(): (m: seq<Byte>)
    ensures |m| == MEMORY_SIZE
  {
    seq(MEMORY_SIZE, _ => 0)
  }

  function LoadedMemory(image: Image, at: Option<int>): (m: seq<Byte>)
    requires OffsetsIn(image.relocs, |image.code|) && Fits(image, at)
    ensures |m| == MEMORY_SIZE
  {
    Splice(ZeroMemory(), BaseOf(image, at), LoadedCode(image, at))
  }

  function EntryPc(image: Image, at: Option<int>): int
  {
    if image.mode.Relocatable? then image.entry + BaseOf(image, at) else image.entry
  }

  // ----- Machine -----

  /** Registers are words by type: every instruction below has to keep them in 0..65535. */
  type Registers = r: seq<Word> | |r| == 8 witness [0, 0, 0, 0, 0, 0, 0, 0]

  type Memory = m: seq<Byte> | |m| == MEMORY_SIZE witness ZeroMemory()

  datatype State = State(mem: Memory, regs: Registers, pc: int, out: seq<Word>)

  /** `Fault` is an access outside the memory or register vector, which the
      machine does not check. */
  datatype Outcome =
    | Continue(next: State)
    | Exit(code: int, final: State)
    | DivByZero
    | BadOpcode(op: Byte)
    | Fault

  predicate Readable(addr: int, n: nat)
  {
    0 <= addr && addr + n <= MEMORY_SIZE
  }

  function Alu(op: Byte, x: Word, y: Word): (r: Option<Word>)
    requires 0x20 <= op <= 0x24
  {
    if op == 0x20 then Some((x as int + y as int) % 0x1_0000)
    else if op == 0x21 then Some((x as int - y as int) % 0x1_0000)
    else if op == 0x22 then Some((x as int * y as int) % 0x1_0000)
    else if op == 0x23 then (if y == 0 then None else Some((x as int / y as int) % 0x1_0000))
    else Some(y)
  }

  function Step(s: State): Outcome
  {
    if !Readable(s.pc, 1) then Fault else
      var op := s.mem[s.pc];
      if op == 0x00 then Continue(s.(pc := s.pc + 1))
      else if op == 0x01 then Exit(0, s)
      else if op == 0x02 then Exit(s.regs[0] % 256, s)
      else if op == 0x10 || op == 0x11 || op == 0x12 || op == 0x31 || op == 0x32 then StepWord(s, op)
      else if 0x20 <= op <= 0x24 then StepAlu(s, op)
      else if op == 0x30 then
        if !Readable(s.pc, 3) then Fault else Continue(s.(pc := ReadU16(s.mem, s.pc + 1)))
      else if op == 0x40 then
        if !Readable(s.pc, 2) || s.mem[s.pc + 1] >= 8 then Fault
        else Continue(s.(pc := s.pc + 2, out := s.out + [s.regs[s.mem[s.pc + 1]]]))
      else BadOpcode(op)
  }

  /** Instructions made of an opcode, a register and a word. */
  function StepWord(s: State, op: Byte): Outcome
    requires Readable(s.pc, 1)
  {
    if !Readable(s.pc, 4) || s.mem[s.pc + 1] >= 8 then Fault else
      var r := s.mem[s.pc + 1];
      var w := ReadU16(s.mem, s.pc + 2);
      if op == 0x10 then Continue(s.(regs := s.regs[r := w], pc := s.pc + 4))
      else if op == 0x11 then
        if !Readable(w, 2) then Fault
        else Continue(s.(regs := s.regs[r := ReadU16(s.mem, w)], pc := s.pc + 4))
      else if op == 0x12 then
        if !Readable(w, 2) then Fault
        else Continue(s.(mem := PatchU16(s.mem, w, s.regs[r]), pc := s.pc + 4))
      else if op == 0x31 then Continue(s.(pc := if s.regs[r] == 0 then w else s.pc + 4))
      else Continue(s.(pc := if s.regs[r] != 0 then w else s.pc + 4))
  }

  function StepAlu(s: State, op: Byte): Outcome
    requires Readable(s.pc, 1) && 0x20 <= op <= 0x24
  {
    if !Readable(s.pc, 3) || s.mem[s.pc + 1] >= 8 || s.mem[s.pc + 2] >= 8 then Fault else
      var a := s.mem[s.pc + 1];
      var b := s.mem[s.pc + 2];
      match Alu(op, s.regs[a], s.regs[b])
      case None => DivByZero
      case Some(v) => Continue(s.(regs := s.regs[a := v], pc := s.pc + 3))
  }

  /** At most `n` steps: `Continue` means that the step limit was reached. */
  function Run(s: State, n: nat): Outcome
    decreases n
  {
    if n == 0 then Continue(s) else
      var o := Step(s);
      if o.Continue? then Run(o.next, n - 1) else o
  }

  function InitialState(image: Image, at: Option<int>): State
    requires OffsetsIn(image.relocs, |image.code|) && Fits(image, at)
  {
    State(LoadedMemory(image, at), [0, 0, 0, 0, 0, 0, 0, 0], EntryPc(image, at), [])
  }

  /** The machine stops on an opcode it does not know exactly when it is none of the fifteen it has. */
  lemma UnknownOpcodes(s: State)
    ensures Step(s).BadOpcode? <==>
      && 0 <= s.pc < MEMORY_SIZE
      && s.mem[s.pc] !in {0x00, 0x01, 0x02, 0x10, 0x11, 0x12, 0x20, 0x21, 0x22, 0x23, 0x24, 0x30, 0x31, 0x32, 0x40}
    ensures Step(s).BadOpcode? ==> Step(s).op == s.mem[s.pc]
  {
    hide ReadU16, PatchU16, Alu;
  }

  // ----- The executor -----

  datatype ExecError = OutOfMemory | StepLimit | Stopped(o: Outcome)

  lemma RelocatedStep(code: seq<Byte>, offs: seq<int>, base: int, k: nat)
    requires k < |offs| && OffsetsIn(offs, |code|)
    ensures OffsetsIn(offs[..k], |code|) && OffsetsIn(offs[..k + 1], |code|)
    ensures var before := Relocated(code, offs[..k], base);
            Relocated(code, offs[..k + 1], base) == PatchU16(before, offs[k], ReadU16(before, offs[k]) + base)
  {
    hide PatchU16, ReadU16;
    var upto := offs[..k + 1];
    assert upto[..|upto| - 1] == offs[..k] && upto[|upto| - 1] == offs[k];
  }

  method LoadU16(data: array<Byte>, off: nat) returns (v: Word)
    requires off + 1 < data.Length
    ensures v == ReadU16(data[..], off)
  {
    v := data[off] as int + 256 * (data[off + 1] as int);
  }

  /** The loader: relocates the code in place and copies it into a zeroed memory. */
  method LoadImage(image: Image, at: Option<int>) returns (r: Result<array<Byte>, ExecError>)
    requires OffsetsIn(image.relocs, |image.code|)
    ensures r.Ok? <==> Fits(image, at)
    ensures r.Ok? ==> fresh(r.value) && r.value[..] == LoadedMemory(image, at)
    ensures r.Err? ==> r.error == OutOfMemory
  {
    hide PatchU16, Splice;
    var code := new Byte[|image.code|](i requires 0 <= i < |image.code| => image.code[i]);
    assert code[..] == image.code;
    var base := image.loadAddress;
    if image.mode.Relocatable? {
      base := if at.Some? then at.value else image.loadAddress;
      var offs := image.relocs;
      for k := 0 to |offs|
        invariant OffsetsIn(offs[..k], |image.code|)
        invariant code[..] == Relocated(image.code, offs[..k], base)
      {
        RelocatedStep(image.code, offs, base, k);
        var v := LoadU16(code, offs[k]);
        StoreU16(code, offs[k], v as int + base);
      }
      assert offs[..|offs|] == offs;
    }
    if base < 0 || base + code.Length > MEMORY_SIZE {
      return Err(OutOfMemory);
    }
    var mem := new Byte[MEMORY_SIZE](_ => 0);
    assert mem[..] == ZeroMemory();
    CopyBytes(mem, base, code[..]);
    return Ok(mem);
  }

  /** One turn of the execution loop, on the memory and register vectors themselves. */
  method StepInPlace(mem: array<Byte>, regs: array<Word>, pc: int, out: seq<Word>)
    returns (pc': int, out': seq<Word>, done: Option<Outcome>)
    requires mem.Length == MEMORY_SIZE && regs.Length == 8
    modifies mem, regs
    ensures var o := Step(State(old(mem[..]), old(regs[..]), pc, out));
            if o.Continue? then done.None? && o.next == State(mem[..], regs[..], pc', out') else done == Some(o)
  {
    hide PatchU16, ReadU16;
    pc', out', done := pc, out, None;
    ghost var s := State(mem[..], regs[..], pc, out);
    if !Readable(pc, 1) {
      done := Some(Fault);
      return;
    }
    var op := mem[pc];
    if op == 0x00 {
      pc' := pc + 1;
    } else if op == 0x01 {
      done := Some(Exit(0, State(mem[..], regs[..], pc, out)));
    } else if op == 0x02 {
      done := Some(Exit(regs[0] % 256, State(mem[..], regs[..], pc, out)));
    } else if op == 0x10 || op == 0x11 || op == 0x12 || op == 0x31 || op == 0x32 {
      if !Readable(pc, 4) || mem[pc + 1] >= 8 {
        done := Some(Fault);
        return;
      }
      var r := mem[pc + 1];
      var w := LoadU16(mem, pc + 2);
      if op == 0x10 {
        regs[r] := w;
        pc' := pc + 4;
      } else if op == 0x11 {
        if !Readable(w, 2) {
          done := Some(Fault);
          return;
        }
        regs[r] := LoadU16(mem, w);
        pc' := pc + 4;
      } else if op == 0x12 {
        if !Readable(w, 2) {
          done := Some(Fault);
          return;
        }
        StoreU16(mem, w, regs[r]);
        pc' := pc + 4;
      } else if op == 0x31 {
        pc' := if regs[r] == 0 then w else pc + 4;
      } else {
        pc' := if regs[r] != 0 then w else pc + 4;
      }
    } else if 0x20 <= op <= 0x24 {
      if !Readable(pc, 3) || mem[pc + 1] >= 8 || mem[pc + 2] >= 8 {
        done := Some(Fault);
        return;
      }
      var a := mem[pc + 1];
      var v := Alu(op, regs[a], regs[mem[pc + 2]]);
      if v.None? {
        done := Some(DivByZero);
        return;
      }
      regs[a] := v.value;
      pc' := pc + 3;
    } else if op == 0x30 {
      if !Readable(pc, 3) {
        done := Some(Fault);
        return;
      }
      pc' := LoadU16(mem, pc + 1);
    } else if op == 0x40 {
      if !Readable(pc, 2) || mem[pc + 1] >= 8 {
        done := Some(Fault);
        return;
      }
      out' := out + [regs[mem[pc + 1]]];
      pc' := pc + 2;
    } else {
      done := Some(BadOpcode(op));
    }
  }

  /** The executor: load, then step until the program exits, fails or uses up `maxSteps`. */
  method RunImage(image: Image, at: Option<int>, maxSteps: nat) returns (r: Result<(int, State), ExecError>)
    requires OffsetsIn(image.relocs, |image.code|)
    ensures (r.Err? && r.error.OutOfMemory?) <==> !Fits(image, at)
    ensures Fits(image, at) ==>
      match Run(InitialState(image, at), maxSteps)
      case Exit(code, final) => r == Ok((code, final))
      case Continue(_) => r == Err(StepLimit)
      case o => r == Err(Stopped(o))
  {
    hide Step, LoadedMemory;
    var loaded := LoadImage(image, at);
    if loaded.Err? {
      return Err(loaded.error);
    }
    var mem := loaded.value;
    var regs := new Word[8](_ => 0);
    var pc := image.entry;
    if image.mode.Relocatable? {
      pc := pc + BaseOf(image, at);
    }
    var out: seq<Word> := [];
    assert regs[..] == [0, 0, 0, 0, 0, 0, 0, 0];
    for steps := 0 to maxSteps
      invariant Run(InitialState(image, at), maxSteps)
             == Run(State(mem[..], regs[..], pc, out), maxSteps - steps)
    {
      var done: Option<Outcome>;
      pc, out, done := StepInPlace(mem, regs, pc, out);
      if done.Some? {
        if done.value.Exit? {
          return Ok((done.value.code, done.value.final));
        }
        return Err(Stopped(done.value));
      }
    }
    return Err(StepLimit);
  }
}
