/** The 256-byte virtual machine, and the proof that it runs assembled code as the symbolic machine does. */
module ByteVm {
  import opened Wrappers
  import opened TinyLang
  import opened StackMachine
  import opened Assembler
  import CompilerCorrect

  /** Memory, program counter and stack pointer; all bytes. */
  datatype Vm = Vm(mem: seq<int>, pc: int, sp: int)

  datatype Turn = Ran(vm: Vm) | Halted(mem: seq<int>) | Failed

  ghost predicate Memory(mem: seq<int>) { |mem| == 256 && forall a :: 0 <= a < 256 ==> 0 <= mem[a] < 256 }

  ghost predicate Sane(vm: Vm) { Memory(vm.mem) && 0 <= vm.pc < 256 && 0 <= vm.sp < 256 }

  function Decoded(b: int): Option<BinOp> {
    if b == 0x10 then Some(Add) else if b == 0x11 then Some(Sub) else if b == 0x12 then Some(Mul)
    else if b == 0x13 then Some(Div) else if b == 0x14 then Some(Eq) else if b == 0x15 then Some(Lt)
    else if b == 0x16 then Some(Gt) else if b == 0x17 then Some(Neq) else if b == 0x18 then Some(Leq)
    else if b == 0x19 then Some(Geq) else None
  }

  lemma DecodeOpcode(op: BinOp)
    ensures Decoded(Opcode(op)) == Some(op)
  {
  }

  function Wrap(a: int): (b: int)
    ensures 0 <= b < 256
  {
    a % 256
  }

  lemma WrapBack(a: int)
    requires 0 <= a < 256
    ensures Wrap(Wrap(a + 1) - 1) == a
  {
  }

  lemma WrapSmall(a: int)
    requires 0 <= a < 256
    ensures Wrap(a) == a
  {
  }

  /** A binary operation: pop r2, pop r1, push r1 op r2.  A division by zero panics. */
  function Binary(vm: Vm, op: BinOp): Turn
    requires Sane(vm)
  {
    var s2 := Wrap(vm.sp + 1);
    var s1 := Wrap(s2 + 1);
    match Operate(op, vm.mem[s1], vm.mem[s2])
    case None => Failed
    case Some(v) => Ran(Vm(vm.mem[s1 := v], Wrap(vm.pc + 1), s2))
  }

  /** One round of the fetch-execute loop. */
  function Turned(vm: Vm): Turn
    requires Sane(vm)
  {
    var op, arg := vm.mem[vm.pc], vm.mem[Wrap(vm.pc + 1)];
    if op == 0xff then Halted(vm.mem)
    else if op == 0x01 then Ran(Vm(vm.mem[vm.sp := vm.mem[arg]], Wrap(vm.pc + 2), Wrap(vm.sp - 1)))
    else if op == 0x02 then Ran(Vm(vm.mem[vm.sp := arg], Wrap(vm.pc + 2), Wrap(vm.sp - 1)))
    else if op == 0x03 then Ran(Vm(vm.mem[arg := vm.mem[Wrap(vm.sp + 1)]], Wrap(vm.pc + 2), Wrap(vm.sp + 1)))
    else if op == 0x20 then Ran(vm.(pc := arg))
    else if op == 0x21 then
      Ran(Vm(vm.mem, if vm.mem[Wrap(vm.sp + 1)] == 0 then arg else Wrap(vm.pc + 2), Wrap(vm.sp + 1)))
    else match Decoded(op)
         case Some(b) => Binary(vm, b)
         case None => Failed
  }

  lemma OperateIsByte(op: BinOp, a: int, b: int)
    requires 0 <= a < 256 && 0 <= b < 256 && Operate(op, a, b).Some?
    ensures 0 <= Operate(op, a, b).value < 256
  {
    if op == Div {
      Quotient(a, b);
    }
  }

  lemma StaysSane(vm: Vm)
    requires Sane(vm)
    ensures Turned(vm).Ran? ==> Sane(Turned(vm).vm)
    ensures Turned(vm).Halted? ==> Turned(vm).mem == vm.mem
  {
    var b := Decoded(vm.mem[vm.pc]);
    if b.Some? {
      var s2 := Wrap(vm.sp + 1);
      var s1 := Wrap(s2 + 1);
      if Operate(b.value, vm.mem[s1], vm.mem[s2]).Some? {
        OperateIsByte(b.value, vm.mem[s1], vm.mem[s2]);
      }
    }
  }

  /** n rounds. */
  function Rounds(vm: Vm, n: nat): Turn
    requires Sane(vm)
    decreases n
  {
    if n == 0 then Ran(vm) else
    match Turned(vm)
    case Ran(vm') => StaysSane(vm); Rounds(vm', n - 1)
    case t => t
  }

  datatype Status = Going | Stop | Error

  /** The body of the loop of execute: fetch, then one case per opcode. */
  method Round(memory: array<int>, pc: int, sp: int) returns (status: Status, pc': int, sp': int)
    requires Sane(Vm(memory[..], pc, sp))
    modifies memory
    ensures match Turned(Vm(old(memory[..]), pc, sp))
            case Ran(vm) => status == Going && vm == Vm(memory[..], pc', sp')
            case Halted(m) => status == Stop && m == memory[..]
            case Failed => status == Error && Memory(memory[..])
  {
    hide Wrap, Operate, Decoded;
    var op, arg := memory[pc], memory[Wrap(pc + 1)];
    status, pc', sp' := Going, pc, sp;
    if op == 0xff {
      status := Stop;
    } else if op == 0x01 {
      memory[sp] := memory[arg];
      pc', sp' := Wrap(pc + 2), Wrap(sp - 1);
    } else if op == 0x02 {
      memory[sp] := arg;
      pc', sp' := Wrap(pc + 2), Wrap(sp - 1);
    } else if op == 0x03 {
      sp' := Wrap(sp + 1);
      memory[arg] := memory[sp'];
      pc' := Wrap(pc + 2);
    } else if op == 0x20 {
      pc' := arg;
    } else if op == 0x21 {
      sp' := Wrap(sp + 1);
      pc' := if memory[sp'] == 0 then arg else Wrap(pc + 2);
    } else {
      status, pc', sp' := RoundBinary(memory, pc, sp, op);
    }
  }

  method RoundBinary(memory: array<int>, pc: int, sp: int, op: int) returns (status: Status, pc': int, sp': int)
    requires Sane(Vm(memory[..], pc, sp))
    modifies memory
    ensures match Decoded(op)
            case None => status == Error && memory[..] == old(memory[..])
            case Some(b) =>
              match Binary(Vm(old(memory[..]), pc, sp), b)
              case Ran(vm) => status == Going && vm == Vm(memory[..], pc', sp')
              case _ => status == Error && memory[..] == old(memory[..])
  {
    hide Wrap, Operate, Decoded;
    status, pc', sp' := Error, pc, sp;
    var b := Decoded(op);
    if b.Some? {
      sp' := Wrap(sp + 1);
      WrapBack(sp');
      var r2 := memory[sp'];
      sp' := Wrap(sp' + 1);
      var v := Operate(b.value, memory[sp'], r2);
      if v.Some? {
        memory[sp'] := v.value;
        status, pc', sp' := Going, Wrap(pc + 1), Wrap(sp' - 1);
      }
    }
  }

  /** execute, for at most fuel rounds, working on the memory in place. */
  method Execute(memory: array<int>, fuel: nat) returns (t: Turn)
    requires Memory(memory[..])
    modifies memory
    ensures t == Rounds(Vm(old(memory[..]), 0x08, 0xff), fuel) && Memory(memory[..])
    ensures t.Halted? ==> t.mem == memory[..]
  {
    hide Turned, Memory;
    var pc, sp := 0x08, 0xff;
    ghost var start := Vm(memory[..], 0x08, 0xff);
    var i := 0;
    while i < fuel
      invariant 0 <= i <= fuel && Sane(Vm(memory[..], pc, sp))
      invariant Rounds(Vm(memory[..], pc, sp), fuel - i) == Rounds(start, fuel)
    {
      StaysSane(Vm(memory[..], pc, sp));
      var status;
      status, pc, sp := Round(memory, pc, sp);
      if status == Stop {
        return Halted(memory[..]);
      } else if status == Error {
        return Failed;
      }
      i := i + 1;
    }
    t := Ran(Vm(memory[..], pc, sp));
  }

  // ---- simulation ----

  ghost const LIMIT := 256

  /** Code, data and stack lie in memory without touching. */
  ghost predicate Fits(code: seq<Instr>, cap: nat) { cap >= 1 && START + Bytes(code) + cap <= LIMIT }

  /** The code area holds the assembled bytes. */
  ghost predicate CodeIn(code: seq<Instr>, labels: map<string, int>, mem: seq<int>) {
    |mem| == LIMIT && START + Bytes(code) <= LIMIT &&
    forall k :: 0 <= k < Bytes(code) ==> mem[START + k] == Emit(code, labels)[k]
  }

  /** The stack area, from the top of memory down, holds the stack. */
  ghost predicate StackIn(stack: seq<int>, mem: seq<int>) {
    |mem| == LIMIT && |stack| <= LIMIT && forall k :: 0 <= k < |stack| ==> mem[255 - k] == stack[k]
  }

  ghost predicate DataIn(data: seq<int>, mem: seq<int>) {
    |mem| == LIMIT && |data| == CELLS && forall a :: 0 <= a < CELLS ==> mem[a] == data[a]
  }

  /** The memory between the code and the room for the stack is the same. */
  ghost predicate SameGap(code: seq<Instr>, cap: nat, mem: seq<int>, mem': seq<int>) {
    |mem| == |mem'| == LIMIT && forall a :: START + Bytes(code) <= a < LIMIT - cap ==> mem'[a] == mem[a]
  }

  /** The machine vm stands where the configuration c stands. */
  ghost predicate Simulates(code: seq<Instr>, labels: map<string, int>, cap: nat, c: Config, vm: Vm) {
    && Sane(vm) && 0 <= c.i <= |code| && vm.pc == START + Bytes(code[..c.i])
    && |c.stack| <= cap && vm.sp == 255 - |c.stack|
    && CodeIn(code, labels, vm.mem) && StackIn(c.stack, vm.mem) && DataIn(c.data, vm.mem)
  }

  /** The bytes under the program counter are those of the line it stands on. */
  lemma Fetched(code: seq<Instr>, labels: map<string, int>, cap: nat, c: Config, vm: Vm)
    requires Simulates(code, labels, cap, c, vm) && Fits(code, cap) && c.i < |code|
    ensures SizeOf(code[c.i]) >= 1 ==> vm.mem[vm.pc] == Encode(code[c.i], labels)[0]
    ensures SizeOf(code[c.i]) == 2 ==> vm.mem[Wrap(vm.pc + 1)] == Encode(code[c.i], labels)[1]
    ensures START + Bytes(code[..c.i + 1]) == vm.pc + SizeOf(code[c.i]) < 256
  {
    hide Emit, Bytes, Encode;
    BytesAt(code, c.i);
    if SizeOf(code[c.i]) >= 1 {
      EmitAt(code, labels, c.i, 0);
    }
    if SizeOf(code[c.i]) == 2 {
      EmitAt(code, labels, c.i, 1);
      WrapSmall(vm.pc + 1);
    }
  }

  /** Writing the cell below the stack, or a data cell, leaves the other areas alone. */
  lemma Pushed(code: seq<Instr>, labels: map<string, int>, cap: nat, stack: seq<int>, data: seq<int>, mem: seq<int>, v: int)
    requires Fits(code, cap) && |stack| < cap && CodeIn(code, labels, mem) && StackIn(stack, mem) && DataIn(data, mem)
    ensures var m := mem[255 - |stack| := v]; CodeIn(code, labels, m) && StackIn(stack + [v], m) && DataIn(data, m)
  {
    hide Emit, Bytes;
  }

  lemma Popped(code: seq<Instr>, labels: map<string, int>, cap: nat, stack: seq<int>, data: seq<int>, mem: seq<int>, a: int, v: int)
    requires Fits(code, cap) && 0 < |stack| <= cap && CodeIn(code, labels, mem) && StackIn(stack, mem) && DataIn(data, mem)
    requires 0 <= a < CELLS
    ensures var m := mem[a := v];
      CodeIn(code, labels, m) && StackIn(stack[..|stack| - 1], m) && DataIn(data[a := v], m)
  {
    hide Emit, Bytes;
  }

  lemma Combined(code: seq<Instr>, labels: map<string, int>, cap: nat, stack: seq<int>, data: seq<int>, mem: seq<int>, v: int)
    requires Fits(code, cap) && 2 <= |stack| <= cap && CodeIn(code, labels, mem) && StackIn(stack, mem) && DataIn(data, mem)
    ensures var m := mem[257 - |stack| := v];
      CodeIn(code, labels, m) && StackIn(stack[..|stack| - 2] + [v], m) && DataIn(data, m)
  {
    hide Emit, Bytes;
  }

  lemma SimPush(code: seq<Instr>, labels: map<string, int>, cap: nat, c: Config, c': Config, vm: Vm)
    requires Simulates(code, labels, cap, c, vm) && Fits(code, cap) && Step(code, cap, c) == Went(c')
    requires code[c.i].Push? || code[c.i].Pushi?
    ensures Turned(vm).Ran? && Simulates(code, labels, cap, c', Turned(vm).vm)
    ensures SameGap(code, cap, vm.mem, Turned(vm).vm.mem)
  {
    hide Bytes, Target, CodeIn, Wrap, Memory, Operate, Decoded;
    Fetched(code, labels, cap, c, vm);
    var v := if code[c.i].Push? then c.data[code[c.i].addr] else code[c.i].imm;
    Small(if code[c.i].Push? then code[c.i].addr else code[c.i].imm);
    Pushed(code, labels, cap, c.stack, c.data, vm.mem, v);
    WrapSmall(vm.pc + 2);
    WrapSmall(vm.sp - 1);
    StaysSane(vm);
  }

  lemma SimPop(code: seq<Instr>, labels: map<string, int>, cap: nat, c: Config, c': Config, vm: Vm)
    requires Simulates(code, labels, cap, c, vm) && Fits(code, cap) && Step(code, cap, c) == Went(c') && code[c.i].Pop?
    ensures Turned(vm).Ran? && Simulates(code, labels, cap, c', Turned(vm).vm)
    ensures SameGap(code, cap, vm.mem, Turned(vm).vm.mem)
  {
    hide Bytes, Target, CodeIn, Wrap, Memory, Operate, Decoded;
    Fetched(code, labels, cap, c, vm);
    Small(code[c.i].addr);
    Popped(code, labels, cap, c.stack, c.data, vm.mem, code[c.i].addr, c.stack[|c.stack| - 1]);
    WrapSmall(vm.pc + 2);
    WrapSmall(vm.sp + 1);
    StaysSane(vm);
  }

  lemma SimBin(code: seq<Instr>, labels: map<string, int>, cap: nat, c: Config, c': Config, vm: Vm)
    requires Simulates(code, labels, cap, c, vm) && Fits(code, cap) && Step(code, cap, c) == Went(c') && code[c.i].Bin?
    ensures Turned(vm).Ran? && Simulates(code, labels, cap, c', Turned(vm).vm)
    ensures SameGap(code, cap, vm.mem, Turned(vm).vm.mem)
  {
    hide Bytes, Target, CodeIn, Wrap, Memory, Operate;
    Fetched(code, labels, cap, c, vm);
    var op, n := code[c.i].op, |c.stack|;
    DecodeOpcode(op);
    Combined(code, labels, cap, c.stack, c.data, vm.mem, Operate(op, c.stack[n - 2], c.stack[n - 1]).value);
    WrapSmall(vm.pc + 1);
    WrapSmall(vm.sp + 1);
    WrapSmall(vm.sp + 2);
    StaysSane(vm);
  }

  lemma LandsOn(code: seq<Instr>, labels: map<string, int>, cap: nat, l: string)
    requires LabelsOf(code, labels) && Fits(code, cap) && Target(code, l) >= 0
    ensures Lookup(labels, l) == START + Bytes(code[..Target(code, l)])
  {
    hide Bytes, Target, Emit;
    PassesAgree(code, labels, l);
  }

  lemma SimJump(code: seq<Instr>, labels: map<string, int>, cap: nat, c: Config, c': Config, vm: Vm)
    requires Simulates(code, labels, cap, c, vm) && Fits(code, cap) && Step(code, cap, c) == Went(c')
    requires LabelsOf(code, labels) && (code[c.i].Jump? || code[c.i].Jeqz?)
    ensures Turned(vm).Ran? && Simulates(code, labels, cap, c', Turned(vm).vm)
    ensures SameGap(code, cap, vm.mem, Turned(vm).vm.mem)
  {
    hide Bytes, Target, CodeIn, Wrap, Memory, Operate, Decoded, LabelsOf;
    Fetched(code, labels, cap, c, vm);
    LandsOn(code, labels, cap, code[c.i].target);
    WrapSmall(vm.pc + 2);
    if code[c.i].Jeqz? { WrapSmall(vm.sp + 1); }
    StaysSane(vm);
  }

  /** One symbolic step is one machine round, or none for a label line. */
  lemma SimStep(code: seq<Instr>, labels: map<string, int>, cap: nat, c: Config, c': Config, vm: Vm)
    requires Simulates(code, labels, cap, c, vm) && Fits(code, cap) && LabelsOf(code, labels)
    requires Step(code, cap, c) == Went(c')
    ensures if code[c.i].Label? then Simulates(code, labels, cap, c', vm)
            else Turned(vm).Ran? && Simulates(code, labels, cap, c', Turned(vm).vm)
    ensures !code[c.i].Label? ==> SameGap(code, cap, vm.mem, Turned(vm).vm.mem)
  {
    hide Bytes, Target, Turned;
    match code[c.i]
    case Push(_) => SimPush(code, labels, cap, c, c', vm);
    case Pushi(_) => SimPush(code, labels, cap, c, c', vm);
    case Pop(_) => SimPop(code, labels, cap, c, c', vm);
    case Bin(_) => SimBin(code, labels, cap, c, c', vm);
    case Jump(_) => SimJump(code, labels, cap, c, c', vm);
    case Jeqz(_) => SimJump(code, labels, cap, c, c', vm);
    case Label(_) => BytesAt(code, c.i);
    case Halt =>
  }

  /** At most this many steps go by in so many rounds: labels only lead forward. */
  ghost function Weight(rounds: nat, lines: nat): nat { rounds * (lines + 1) }

  lemma MoreWeight(lines: nat)
    ensures Weight(0, lines) == 0
    ensures forall r: nat {:trigger Weight(r, lines)} :: Weight(r + 1, lines) == Weight(r, lines) + lines + 1
  {
    forall r: nat {:trigger Weight(r, lines)} ensures Weight(r + 1, lines) == Weight(r, lines) + lines + 1 {
    }
  }

  lemma StepForward(code: seq<Instr>, cap: nat, c: Config)
    requires Step(code, cap, c).Went?
    ensures 0 <= Step(code, cap, c).c.i
    ensures code[c.i].Label? ==> Step(code, cap, c).c.i == c.i + 1
  {
    hide Target;
  }

  /** A whole symbolic run, replayed by the machine; only labels are steps without a round. */
  lemma {:induction false} SimRun(code: seq<Instr>, labels: map<string, int>, cap: nat, c: Config, n: nat, c': Config, vm: Vm)
    returns (rounds: nat, vm': Vm)
    requires Simulates(code, labels, cap, c, vm) && Fits(code, cap) && LabelsOf(code, labels)
    requires Run(code, cap, c, n) == Went(c')
    ensures Rounds(vm, rounds) == Ran(vm') && Simulates(code, labels, cap, c', vm')
    ensures n + c.i <= Weight(rounds, |code|) + c'.i
    ensures SameGap(code, cap, vm.mem, vm'.mem)
    decreases n
  {
    hide Bytes, Target, Turned, Step, Simulates, Weight, SameGap;
    SimSane(code, labels, cap, c, vm);
    MoreWeight(|code|);
    NoGap(code, cap, vm.mem);
    if n == 0 {
      rounds, vm' := 0, vm;
    } else {
      var m := Step(code, cap, c).c;
      SimStep(code, labels, cap, c, m, vm);
      StepInside(code, cap, c);
      StepForward(code, cap, c);
      if code[c.i].Label? {
        rounds, vm' := SimRun(code, labels, cap, m, n - 1, c', vm);
      } else {
        var r, w := SimRun(code, labels, cap, m, n - 1, c', Turned(vm).vm);
        rounds, vm' := r + 1, w;
        StaysSane(vm);
        GapOn(code, cap, vm.mem, Turned(vm).vm.mem, w.mem);
      }
    }
  }

  lemma NoGap(code: seq<Instr>, cap: nat, mem: seq<int>)
    requires |mem| == LIMIT
    ensures SameGap(code, cap, mem, mem)
  {
  }

  lemma GapOn(code: seq<Instr>, cap: nat, a: seq<int>, b: seq<int>, c: seq<int>)
    requires SameGap(code, cap, a, b) && SameGap(code, cap, b, c)
    ensures SameGap(code, cap, a, c)
  {
    hide Bytes;
  }

  lemma SimSane(code: seq<Instr>, labels: map<string, int>, cap: nat, c: Config, vm: Vm)
    requires Simulates(code, labels, cap, c, vm)
    ensures Sane(vm) && |vm.mem| == LIMIT
  {
  }

  lemma StepInside(code: seq<Instr>, cap: nat, c: Config)
    requires Step(code, cap, c).Went?
    ensures 0 <= c.i < |code|
  {
  }

  /** Rounds add up. */
  lemma {:induction false} OneMoreRound(vm: Vm, n: nat, vm': Vm)
    requires Sane(vm) && Rounds(vm, n) == Ran(vm')
    ensures Sane(vm') && Rounds(vm, n + 1) == Turned(vm')
    decreases n
  {
    hide Turned;
    StaysSane(vm);
    if n > 0 {
      OneMoreRound(Turned(vm).vm, n - 1, vm');
    }
  }

  /** runVM: zeroed memory, the bytecode from address 8, the arguments at 1 and 2. */
  function Loaded(bc: seq<int>, x: int, y: int): seq<int>
    requires START + |bc| <= 256
  {
    [0, x, y, 0, 0, 0, 0, 0] + bc + seq(256 - START - |bc|, _ => 0)
  }

  lemma EmitIsBytes(code: seq<Instr>, labels: map<string, int>)
    requires LabelsOf(code, labels)
    ensures forall k :: 0 <= k < Bytes(code) ==> 0 <= Emit(code, labels)[k] < 256
  {
    EmitBytes(code, labels);
  }

  lemma {:induction false} EmitBytes(code: seq<Instr>, labels: map<string, int>)
    requires forall l :: l in labels ==> 0 <= labels[l] < 256
    ensures forall k :: 0 <= k < Bytes(code) ==> 0 <= Emit(code, labels)[k] < 256
    decreases |code|
  {
    if code != [] {
      EmitBytes(code[..|code| - 1], labels);
      var x := code[|code| - 1];
      assert forall k :: 0 <= k < SizeOf(x) ==> 0 <= Encode(x, labels)[k] < 256;
    }
  }

  lemma StartSimulates(code: seq<Instr>, labels: map<string, int>, cap: nat, x: int, y: int)
    requires Fits(code, cap) && LabelsOf(code, labels) && 0 <= x < 256 && 0 <= y < 256
    ensures Simulates(code, labels, cap, Config(0, [], CompilerCorrect.Arguments(x, y)),
                      Vm(Loaded(Emit(code, labels), x, y), 0x08, 0xff))
  {
    hide Target, Emit;
    EmitIsBytes(code, labels);
    assert code[..0] == [];
  }

  /** A symbolic run that reaches a halt line is a machine run that halts. */
  lemma HaltsThere(code: seq<Instr>, labels: map<string, int>, cap: nat, c: Config, v: int, j: int, data: seq<int>, vm: Vm)
    returns (rounds: nat, mem: seq<int>)
    requires Simulates(code, labels, cap, c, vm) && Fits(code, cap) && LabelsOf(code, labels)
    requires CompilerCorrect.Halts(code, cap, c, v, j, data)
    ensures Sane(vm) && Rounds(vm, rounds) == Halted(mem) && |mem| == 256 && mem[0] == v
  {
    hide Bytes, Target, Emit, Rounds, LabelsOf;
    var n: nat :| Run(code, cap, c, n) == Went(Config(j, [], data));
    var r, vm' := SimRun(code, labels, cap, c, n, Config(j, [], data), vm);
    Fetched(code, labels, cap, Config(j, [], data), vm');
    OneMoreRound(vm, r, vm');
    rounds, mem := r + 1, vm'.mem;
  }

  /**
   From source to bytes: whenever the source program returns v on x and y, and its code, its data and its
   stack fit in 256 bytes, the machine halts on the assembled bytecode with v at address 0.
   */
  lemma CompiledProgramReturns(p: Stmt, x: int, y: int, fuel: nat, v: int, labels: map<string, int>)
    returns (rounds: nat, mem: seq<int>)
    requires CompilerCorrect.Supported(p) && 0 <= x < 256 && 0 <= y < 256
    requires Exec(p, map["x" := x, "y" := y], fuel) == Returned(v)
    requires LabelsOf(CompilerCorrect.CodeOf(p, INITIAL_ENV), labels)
    requires Fits(CompilerCorrect.CodeOf(p, INITIAL_ENV), CompilerCorrect.Max(1, CompilerCorrect.StackNeed(p)))
    ensures var vm := Vm(Loaded(Emit(CompilerCorrect.CodeOf(p, INITIAL_ENV), labels), x, y), 0x08, 0xff);
      Sane(vm) && Rounds(vm, rounds) == Halted(mem) && |mem| == 256 && mem[0] == v
  {
    hide Bytes, Target, Emit, Exec, LabelsOf, Rounds, Simulates, Loaded, Shaped, Clean, CompilerCorrect.StackNeed;
    var code := CompilerCorrect.CodeOf(p, INITIAL_ENV);
    var cap := CompilerCorrect.Max(1, CompilerCorrect.StackNeed(p));
    var c, vm := Config(0, [], CompilerCorrect.Arguments(x, y)), Vm(Loaded(Emit(code, labels), x, y), 0x08, 0xff);
    StartSimulates(code, labels, cap, x, y);
    CompilerCorrect.ProgramRuns(p, x, y, cap, fuel, v);
    var j, data :| CompilerCorrect.Halts(code, cap, c, v, j, data);
    rounds, mem := HaltsThere(code, labels, cap, c, v, j, data, vm);
  }

  // ---- the machine halts only if the source returns ----

  /** Once a run has ended it stays ended. */
  lemma {:induction false} RoundsSettle(vm: Vm, n: nat, k: nat)
    requires Sane(vm) && n <= k && !Rounds(vm, n).Ran?
    ensures Rounds(vm, k) == Rounds(vm, n)
    decreases n
  {
    hide Turned;
    StaysSane(vm);
    if n > 0 && Turned(vm).Ran? {
      RoundsSettle(Turned(vm).vm, n - 1, k - 1);
    }
  }

  /** A run has one end. */
  lemma OneEnd(vm: Vm, n: nat, k: nat)
    requires Sane(vm) && !Rounds(vm, n).Ran?
    ensures Rounds(vm, k) == Rounds(vm, n) || (k < n && Rounds(vm, k).Ran?)
  {
    hide Rounds;
    if n <= k {
      RoundsSettle(vm, n, k);
    } else if !Rounds(vm, k).Ran? {
      RoundsSettle(vm, k, n);
    }
  }

  lemma FaultFails(code: seq<Instr>, labels: map<string, int>, cap: nat, d: Config, vm: Vm)
    requires Simulates(code, labels, cap, d, vm) && Fits(code, cap) && DividesByZero(code, d)
    ensures Turned(vm) == Failed
  {
    hide Bytes, Target, CodeIn, Wrap, Memory;
    Fetched(code, labels, cap, d, vm);
    DecodeOpcode(Div);
    WrapSmall(vm.sp + 1);
    WrapSmall(vm.sp + 2);
  }

  /** A symbolic run into a division by zero is a machine run that fails. */
  lemma FaultsThere(code: seq<Instr>, labels: map<string, int>, cap: nat, c: Config, vm: Vm) returns (rounds: nat)
    requires Simulates(code, labels, cap, c, vm) && Fits(code, cap) && LabelsOf(code, labels) && Faults(code, cap, c)
    ensures Sane(vm) && Rounds(vm, rounds) == Failed
  {
    hide Bytes, Target, Emit, Rounds, LabelsOf, Turned;
    var d :| Reaches(code, cap, c, d) && DividesByZero(code, d);
    var n: nat :| Run(code, cap, c, n) == Went(d);
    var r, vm' := SimRun(code, labels, cap, c, n, d, vm);
    FaultFails(code, labels, cap, d, vm');
    OneMoreRound(vm, r, vm');
    rounds := r + 1;
  }

  /** A symbolic run of many steps is a machine run of many rounds. */
  lemma LastsThere(code: seq<Instr>, labels: map<string, int>, cap: nat, c: Config, vm: Vm, n: nat) returns (rounds: nat)
    requires Simulates(code, labels, cap, c, vm) && Fits(code, cap) && LabelsOf(code, labels)
    requires Lasts(code, cap, c, Weight(n, |code|) + |code|)
    ensures Sane(vm) && rounds >= n && Rounds(vm, rounds).Ran?
  {
    hide Bytes, Target, Emit, Rounds, LabelsOf, Turned;
    var m: nat, d :| m >= Weight(n, |code|) + |code| && Run(code, cap, c, m) == Went(d);
    var r, vm' := SimRun(code, labels, cap, c, m, d, vm);
    rounds := r;
    assert Weight(n, |code|) <= Weight(r, |code|);
    WeightOrder(n, r, |code|);
  }

  lemma WeightOrder(n: nat, r: nat, lines: nat)
    requires Weight(n, lines) <= Weight(r, lines)
    ensures n <= r
  {
    assert n > r ==> n * (lines + 1) > r * (lines + 1);
  }

  /** The machine at the start of a compiled program. */
  ghost function Start(p: Stmt, labels: map<string, int>, x: int, y: int): Vm
    requires CompilerCorrect.Supported(p) && CompiledFits(p)
  {
    Vm(Loaded(Emit(CompilerCorrect.CodeOf(p, INITIAL_ENV), labels), x, y), 0x08, 0xff)
  }

  ghost predicate CompiledFits(p: Stmt) {
    CompileStmt(p, INITIAL_ENV).Some? &&
    Fits(CompilerCorrect.CodeOf(p, INITIAL_ENV), CompilerCorrect.Max(1, CompilerCorrect.StackNeed(p)))
  }

  /**
   From bytes to source: a machine that halts does so because the source program, on the same arguments,
   returns the byte at address 0, or because it runs off its end without a return.
   */
  lemma HaltsOnlyIfReturns(p: Stmt, x: int, y: int, labels: map<string, int>, n: nat, mem: seq<int>) returns (fuel: nat)
    requires CompilerCorrect.Supported(p) && Known(p) && 0 <= x < 256 && 0 <= y < 256
    requires LabelsOf(CompilerCorrect.CodeOf(p, INITIAL_ENV), labels) && CompiledFits(p)
    requires Sane(Start(p, labels, x, y)) && Rounds(Start(p, labels, x, y), n) == Halted(mem)
    ensures |mem| == 256
    ensures var o := Exec(p, map["x" := x, "y" := y], fuel); o == Returned(mem[0]) || o.Normal?
  {
    hide Bytes, Target, Emit, Exec, LabelsOf, Rounds, Simulates, Loaded, Shaped, Clean, Known, Weight,
         CompilerCorrect.StackNeed, Faults, Lasts;
    var code := CompilerCorrect.CodeOf(p, INITIAL_ENV);
    var cap := CompilerCorrect.Max(1, CompilerCorrect.StackNeed(p));
    var c, vm := Config(0, [], CompilerCorrect.Arguments(x, y)), Start(p, labels, x, y);
    StartSimulates(code, labels, cap, x, y);
    fuel := Weight(n, |code|) + |code|;
    CompilerCorrect.ProgramEnds(p, x, y, cap, fuel);
    HaltedMemory(vm, n, mem);
    match Exec(p, map["x" := x, "y" := y], fuel)
    case Normal(_) =>
    case Returned(v) =>
      var j, data :| CompilerCorrect.Halts(code, cap, c, v, j, data);
      var k, m := HaltsThere(code, labels, cap, c, v, j, data, vm);
      OneEnd(vm, n, k);
    case Fault =>
      var k := FaultsThere(code, labels, cap, c, vm);
      OneEnd(vm, n, k);
    case Timeout =>
      var k := LastsThere(code, labels, cap, c, vm, n);
      OneEnd(vm, n, k);
  }

  lemma {:induction false} HaltedMemory(vm: Vm, n: nat, mem: seq<int>)
    requires Sane(vm) && Rounds(vm, n) == Halted(mem)
    ensures |mem| == 256
    decreases n
  {
    StaysSane(vm);
    if Turned(vm).Ran? {
      HaltedMemory(Turned(vm).vm, n - 1, mem);
    }
  }

  ghost predicate MachineReturns(vm: Vm, v: int)
    requires Sane(vm)
  {
    exists n: nat, mem :: Rounds(vm, n) == Halted(mem) && |mem| == 256 && mem[0] == v
  }

  ghost predicate SourceReturns(p: Stmt, x: int, y: int, v: int) {
    exists fuel: nat :: Exec(p, map["x" := x, "y" := y], fuel) == Returned(v)
  }

  /** A supported program that ends in a return: the machine halts with v exactly when the source returns v. */
  lemma MachineReturnsExactly(p: Stmt, x: int, y: int, labels: map<string, int>, v: int)
    requires CompilerCorrect.Supported(p) && Known(p) && Exits(p) && 0 <= x < 256 && 0 <= y < 256
    requires LabelsOf(CompilerCorrect.CodeOf(p, INITIAL_ENV), labels) && CompiledFits(p)
    ensures Sane(Start(p, labels, x, y))
    ensures MachineReturns(Start(p, labels, x, y), v) <==> SourceReturns(p, x, y, v)
  {
    hide Bytes, Target, Emit, Exec, LabelsOf, Rounds, Simulates, Loaded, Shaped, Clean, Known, Exits,
         CompilerCorrect.StackNeed;
    var code := CompilerCorrect.CodeOf(p, INITIAL_ENV);
    var cap := CompilerCorrect.Max(1, CompilerCorrect.StackNeed(p));
    var vm := Start(p, labels, x, y);
    StartSimulates(code, labels, cap, x, y);
    SimSane(code, labels, cap, Config(0, [], CompilerCorrect.Arguments(x, y)), vm);
    if SourceReturns(p, x, y, v) {
      var fuel: nat :| Exec(p, map["x" := x, "y" := y], fuel) == Returned(v);
      var n, mem := CompiledProgramReturns(p, x, y, fuel, v, labels);
    }
    if MachineReturns(vm, v) {
      var n: nat, mem :| Rounds(vm, n) == Halted(mem) && |mem| == 256 && mem[0] == v;
      var fuel := HaltsOnlyIfReturns(p, x, y, labels, n, mem);
      ExitsNeverFalls(p, map["x" := x, "y" := y], fuel);
    }
  }

  // ---- what each opcode does ----

  /** The round after which the two top bytes are replaced by v. */
  ghost predicate Replaces(vm: Vm, v: int)
    requires Sane(vm)
  {
    Turned(vm) == Ran(Vm(vm.mem[(vm.sp + 2) % 256 := v], (vm.pc + 1) % 256, (vm.sp + 1) % 256))
  }

  /** The arithmetic and comparison opcodes, on r1 below and r2 on top. */
  lemma OperationBytes(vm: Vm)
    requires Sane(vm)
    ensures var op, r1, r2 := vm.mem[vm.pc], vm.mem[(vm.sp + 2) % 256], vm.mem[(vm.sp + 1) % 256];
      && (op == 0x10 ==> Replaces(vm, (r1 + r2) % 256))
      && (op == 0x11 ==> Replaces(vm, (r1 - r2) % 256))
      && (op == 0x12 ==> Replaces(vm, (r1 * r2) % 256))
      && (op == 0x13 ==> if r2 == 0 then Turned(vm) == Failed else Replaces(vm, r1 / r2))
      && (op == 0x14 ==> Replaces(vm, if r1 == r2 then 1 else 0))
      && (op == 0x15 ==> Replaces(vm, if r1 < r2 then 1 else 0))
      && (op == 0x16 ==> Replaces(vm, if r1 > r2 then 1 else 0))
      && (op == 0x17 ==> Replaces(vm, if r1 != r2 then 1 else 0))
      && (op == 0x18 ==> Replaces(vm, if r1 <= r2 then 1 else 0))
      && (op == 0x19 ==> Replaces(vm, if r1 >= r2 then 1 else 0))
  {
    NextButOne(vm.sp);
  }

  lemma NextButOne(sp: int)
    requires 0 <= sp < 256
    ensures Wrap(Wrap(sp + 1) + 1) == (sp + 2) % 256
  {
  }

  /** The moves and jumps. */
  lemma MoveBytes(vm: Vm)
    requires Sane(vm)
    ensures var m, op, arg, top := vm.mem, vm.mem[vm.pc], vm.mem[(vm.pc + 1) % 256], vm.mem[(vm.sp + 1) % 256];
      && (op == 0x01 ==> Turned(vm) == Ran(Vm(m[vm.sp := m[arg]], (vm.pc + 2) % 256, (vm.sp - 1) % 256)))
      && (op == 0x02 ==> Turned(vm) == Ran(Vm(m[vm.sp := arg], (vm.pc + 2) % 256, (vm.sp - 1) % 256)))
      && (op == 0x03 ==> Turned(vm) == Ran(Vm(m[arg := top], (vm.pc + 2) % 256, (vm.sp + 1) % 256)))
      && (op == 0x20 ==> Turned(vm) == Ran(Vm(m, arg, vm.sp)))
      && (op == 0x21 && top == 0 ==> Turned(vm) == Ran(Vm(m, arg, (vm.sp + 1) % 256)))
      && (op == 0x21 && top != 0 ==> Turned(vm) == Ran(Vm(m, (vm.pc + 2) % 256, (vm.sp + 1) % 256)))
      && (op == 0xff ==> Turned(vm) == Halted(m))
  {
  }

  // ---- bytes that are no opcode ----

  /** Every byte that is not one of the sixteen opcodes stops the machine with an error. */
  lemma UnknownOpcodeFails(vm: Vm)
    requires Sane(vm)
    ensures var op := vm.mem[vm.pc];
      (0x04 <= op < 0x10 || 0x1a <= op < 0x20 || 0x22 <= op < 0xff || op == 0) ==> Turned(vm) == Failed
    ensures Turned(vm).Halted? <==> vm.mem[vm.pc] == 0xff
  {
  }

  /** A run that comes to the end of the code finds the byte behind it as it was. */
  lemma EndThere(code: seq<Instr>, labels: map<string, int>, cap: nat, c: Config, data: seq<int>, vm: Vm) returns (rounds: nat)
    requires Simulates(code, labels, cap, c, vm) && cap >= 1 && Fits(code, cap + 1) && LabelsOf(code, labels)
    requires Reaches(code, cap, c, Config(|code|, [], data)) && vm.mem[START + Bytes(code)] == 0
    ensures Sane(vm) && Rounds(vm, rounds) == Failed
  {
    hide Target, Emit, Rounds, LabelsOf, Turned;
    var n: nat :| Run(code, cap, c, n) == Went(Config(|code|, [], data));
    var r, vm' := SimRun(code, labels, cap, c, n, Config(|code|, [], data), vm);
    assert code[..|code|] == code;
    assert vm'.mem[vm'.pc] == vm.mem[START + Bytes(code)] == 0;
    UnknownOpcodeFails(vm');
    OneMoreRound(vm, r, vm');
    rounds := r + 1;
  }

  /** Besides code, data and stack there is a byte to spare. */
  ghost predicate FitsWithRoom(p: Stmt) {
    CompileStmt(p, INITIAL_ENV).Some? &&
    Fits(CompilerCorrect.CodeOf(p, INITIAL_ENV), CompilerCorrect.Max(1, CompilerCorrect.StackNeed(p)) + 1)
  }

  /** With a byte to spare behind the code, a machine halts only because its source returns. */
  lemma HaltsOnlyByReturn(p: Stmt, x: int, y: int, labels: map<string, int>, n: nat, mem: seq<int>) returns (fuel: nat)
    requires CompilerCorrect.Supported(p) && Known(p) && 0 <= x < 256 && 0 <= y < 256
    requires LabelsOf(CompilerCorrect.CodeOf(p, INITIAL_ENV), labels) && FitsWithRoom(p)
    requires Sane(Start(p, labels, x, y)) && Rounds(Start(p, labels, x, y), n) == Halted(mem)
    ensures |mem| == 256 && Exec(p, map["x" := x, "y" := y], fuel) == Returned(mem[0])
  {
    hide Target, Emit, Exec, LabelsOf, Rounds, Simulates, Shaped, Clean, Known, CompilerCorrect.StackNeed, Faults, Lasts;
    var code := CompilerCorrect.CodeOf(p, INITIAL_ENV);
    var cap := CompilerCorrect.Max(1, CompilerCorrect.StackNeed(p));
    var c, vm := Config(0, [], CompilerCorrect.Arguments(x, y)), Start(p, labels, x, y);
    fuel := HaltsOnlyIfReturns(p, x, y, labels, n, mem);
    CompilerCorrect.ProgramEnds(p, x, y, cap, fuel);
    var o := Exec(p, map["x" := x, "y" := y], fuel);
    if o.Normal? {
      var g := CompilerCorrect.EnvOf(p, INITIAL_ENV);
      var data :| CompilerCorrect.Falls(code, cap, c, |code|, g, o.st, data);
      StartSimulates(code, labels, cap, x, y);
      LoadedZero(Emit(code, labels), x, y);
      var k := EndThere(code, labels, cap, c, data, vm);
      OneEnd(vm, n, k);
    }
  }

  lemma LoadedZero(bc: seq<int>, x: int, y: int)
    requires START + |bc| < 256
    ensures Loaded(bc, x, y)[START + |bc|] == 0
  {
  }

  /** A supported program with a byte to spare: the machine halts with v exactly when the source returns v. */
  lemma MachineReturnsWithRoom(p: Stmt, x: int, y: int, labels: map<string, int>, v: int)
    requires CompilerCorrect.Supported(p) && Known(p) && 0 <= x < 256 && 0 <= y < 256
    requires LabelsOf(CompilerCorrect.CodeOf(p, INITIAL_ENV), labels) && FitsWithRoom(p)
    ensures Sane(Start(p, labels, x, y))
    ensures MachineReturns(Start(p, labels, x, y), v) <==> SourceReturns(p, x, y, v)
  {
    hide Bytes, Target, Emit, Exec, LabelsOf, Rounds, Simulates, Loaded, Shaped, Clean, Known, CompilerCorrect.StackNeed;
    var code := CompilerCorrect.CodeOf(p, INITIAL_ENV);
    var cap := CompilerCorrect.Max(1, CompilerCorrect.StackNeed(p));
    var vm := Start(p, labels, x, y);
    StartSimulates(code, labels, cap, x, y);
    SimSane(code, labels, cap, Config(0, [], CompilerCorrect.Arguments(x, y)), vm);
    if SourceReturns(p, x, y, v) {
      var fuel: nat :| Exec(p, map["x" := x, "y" := y], fuel) == Returned(v);
      var n, mem := CompiledProgramReturns(p, x, y, fuel, v, labels);
    }
    if MachineReturns(vm, v) {
      var n: nat, mem :| Rounds(vm, n) == Halted(mem) && |mem| == 256 && mem[0] == v;
      var fuel := HaltsOnlyByReturn(p, x, y, labels, n, mem);
    }
  }
}
