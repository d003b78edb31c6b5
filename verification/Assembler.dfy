/** The two-pass assembler. */
module Assembler {
  import opened TinyLang
  import opened StackMachine

  const START := 8    // instructionStart

  /** instructionSize. */
  function SizeOf(x: Instr): nat {
    match x
    case Bin(_) => 1
    case Halt => 1
    case Label(_) => 0
    case _ => 2
  }

  /** Bytes that a piece of code takes. */
  function Bytes(code: seq<Instr>): nat {
    if code == [] then 0 else Bytes(code[..|code| - 1]) + SizeOf(code[|code| - 1])
  }

  function Opcode(op: BinOp): int {
    match op
    case Add => 0x10
    case Sub => 0x11
    case Mul => 0x12
    case Div => 0x13
    case Eq => 0x14
    case Lt => 0x15
    case Gt => 0x16
    case Neq => 0x17
    case Leq => 0x18
    case Geq => 0x19
  }

  function Lookup(labels: map<string, int>, l: string): int { if l in labels then labels[l] else 0 }

  /** What the second pass emits for one line. */
  function Encode(x: Instr, labels: map<string, int>): (b: seq<int>)
    ensures |b| == SizeOf(x)
  {
    match x
    case Push(a) => [0x01, a % 256]
    case Pushi(v) => [0x02, v % 256]
    case Pop(a) => [0x03, a % 256]
    case Bin(op) => [Opcode(op)]
    case Jump(l) => [0x20, Lookup(labels, l)]
    case Jeqz(l) => [0x21, Lookup(labels, l)]
    case Label(_) => []
    case Halt => [0xff]
  }

  /** Everything the second pass emits. */
  function Emit(code: seq<Instr>, labels: map<string, int>): (b: seq<int>)
    ensures |b| == Bytes(code)
  {
    if code == [] then [] else Emit(code[..|code| - 1], labels) + Encode(code[|code| - 1], labels)
  }

  /** The address of the label that is line j, as a byte. */
  function AddressOf(code: seq<Instr>, j: nat): int
    requires j <= |code|
  {
    (START + Bytes(code[..j])) % 256
  }

  /** labels holds exactly the labels among the lines of code, each at its last occurrence. */
  ghost predicate LabelsOf(code: seq<Instr>, labels: map<string, int>) {
    forall l :: (l in labels <==> Target(code, l) >= 0) && (l in labels ==> labels[l] == AddressOf(code, Target(code, l)))
  }

  lemma LabelsStep(code: seq<Instr>, n: nat, labels: map<string, int>)
    requires n < |code| && LabelsOf(code[..n], labels)
    ensures LabelsOf(code[..n + 1], if code[n].Label? then labels[code[n].name := AddressOf(code, n)] else labels)
  {
    hide Target, AddressOf;
    var labels' := if code[n].Label? then labels[code[n].name := AddressOf(code, n)] else labels;
    forall l
      ensures (l in labels' <==> Target(code[..n + 1], l) >= 0)
           && (l in labels' ==> labels'[l] == AddressOf(code[..n + 1], Target(code[..n + 1], l)))
    {
      TargetStep(code, n, l);
      AddressesStep(code, n, n);
      if Target(code[..n], l) >= 0 {
        AddressesStep(code, n, Target(code[..n], l));
      }
    }
  }

  /** The last line may be the label; otherwise its target is where it was. */
  lemma TargetStep(code: seq<Instr>, n: nat, l: string)
    requires n < |code|
    ensures Target(code[..n + 1], l) == if code[n] == Label(l) then n else Target(code[..n], l)
  {
    var b := code[..n + 1];
    assert b[..|b| - 1] == code[..n] && b[|b| - 1] == code[n];
  }

  /** A line's address depends on the lines before it only. */
  lemma AddressesStep(code: seq<Instr>, n: nat, j: nat)
    requires j <= n < |code|
    ensures AddressOf(code[..n + 1], j) == AddressOf(code, j) == AddressOf(code[..n], j)
  {
    hide Bytes;
    assert code[..n + 1][..j] == code[..j] && code[..n][..j] == code[..j];
  }

  /**
   assemble: both passes.  The bytes are the encodings of the lines in order, every label read as
   8 plus the number of bytes emitted before it.
   */
  method Assemble(code: seq<Instr>) returns (bc: seq<int>, labels: map<string, int>)
    ensures LabelsOf(code, labels) && bc == Emit(code, labels)
  {
    labels := map[];
    var addr := START;
    for n := 0 to |code|
      invariant LabelsOf(code[..n], labels) && addr == AddressOf(code, n)
    {
      LabelsStep(code, n, labels);
      assert code[..n + 1][..n] == code[..n];
      AddressStep(START + Bytes(code[..n]), SizeOf(code[n]));
      if code[n].Label? {
        labels := labels[code[n].name := addr];
      } else {
        addr := (addr + SizeOf(code[n])) % 256;
      }
    }
    assert code[..|code|] == code;
    bc := [];
    for n := 0 to |code|
      invariant bc == Emit(code[..n], labels)
    {
      assert code[..n + 1][..n] == code[..n];
      bc := bc + Encode(code[n], labels);
    }
  }

  lemma AddressStep(a: int, d: int)
    ensures (a % 256 + d) % 256 == (a + d) % 256
  {
  }

  lemma {:induction false} BytesPrefix(code: seq<Instr>, i: nat, j: nat)
    requires i <= j <= |code|
    ensures Bytes(code[..i]) <= Bytes(code[..j])
    decreases j
  {
    if i < j {
      BytesPrefix(code, i, j - 1);
      assert code[..j][..j - 1] == code[..j - 1];
    }
  }

  lemma BytesAt(code: seq<Instr>, i: nat)
    requires i < |code|
    ensures Bytes(code[..i]) + SizeOf(code[i]) == Bytes(code[..i + 1]) <= Bytes(code)
  {
    hide SizeOf;
    assert code[..i + 1][..i] == code[..i];
    assert code[..|code|] == code;
    BytesPrefix(code, i + 1, |code|);
  }

  lemma EmitLast(code: seq<Instr>, labels: map<string, int>)
    requires code != []
    ensures var n := |code| - 1;
      && Bytes(code) == Bytes(code[..n]) + SizeOf(code[n])
      && Emit(code, labels) == Emit(code[..n], labels) + Encode(code[n], labels)
  {
  }

  /** Line i's bytes are found at its address. */
  lemma {:induction false} EmitAt(code: seq<Instr>, labels: map<string, int>, i: nat, k: nat)
    requires i < |code| && k < SizeOf(code[i])
    ensures Bytes(code[..i]) + k < Bytes(code) && Emit(code, labels)[Bytes(code[..i]) + k] == Encode(code[i], labels)[k]
    decreases |code|
  {
    hide SizeOf, Encode, Bytes, Emit;
    var n := |code| - 1;
    EmitLast(code, labels);
    if i < n {
      var front := code[..n];
      assert front[i] == code[i] && front[..i] == code[..i];
      EmitAt(front, labels, i, k);
    }
  }

  lemma Small(a: int)
    requires 0 <= a < 256
    ensures a % 256 == a
  {
  }

  /** The passes agree: a label's address is the start plus what the second pass emits before it. */
  lemma PassesAgree(code: seq<Instr>, labels: map<string, int>, l: string)
    requires LabelsOf(code, labels) && l in labels && START + Bytes(code) < 256
    ensures Target(code, l) >= 0 && labels[l] == START + |Emit(code[..Target(code, l)], labels)|
  {
    hide Target, Bytes, Emit;
    assert code[..|code|] == code;
    BytesPrefix(code, Target(code, l), |code|);
    Small(START + Bytes(code[..Target(code, l)]));
  }

  /** The bytes of every kind of line. */
  lemma LineBytes(labels: map<string, int>, a: int, l: string)
    requires 0 <= a < 256 && l in labels
    ensures Encode(Push(a), labels) == [0x01, a] && Encode(Pushi(a), labels) == [0x02, a]
    ensures Encode(Pop(a), labels) == [0x03, a] && Encode(Halt, labels) == [0xff] && Encode(Label(l), labels) == []
    ensures Encode(Jump(l), labels) == [0x20, labels[l]] && Encode(Jeqz(l), labels) == [0x21, labels[l]]
    ensures Encode(Bin(Add), labels) == [0x10] && Encode(Bin(Sub), labels) == [0x11] && Encode(Bin(Mul), labels) == [0x12]
    ensures Encode(Bin(Div), labels) == [0x13] && Encode(Bin(Eq), labels) == [0x14] && Encode(Bin(Lt), labels) == [0x15]
    ensures Encode(Bin(Gt), labels) == [0x16] && Encode(Bin(Neq), labels) == [0x17] && Encode(Bin(Leq), labels) == [0x18]
    ensures Encode(Bin(Geq), labels) == [0x19]
  {
    Small(a);
  }
}
