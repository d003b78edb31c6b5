/** Assembly with labels, run on an unbounded-address machine with eight data cells and a stack of limited height. */
module StackMachine {
  import opened Wrappers
  import opened TinyLang

  const CELLS := 8

  /** Next instruction, stack (top last) and data cells. */
  datatype Config = Config(i: int, stack: seq<int>, data: seq<int>)

  datatype Move = Went(c: Config) | Stopped | Stuck

  /** Where label l points: its last occurrence, as the assembler's map would have it, or -1. */
  function Target(code: seq<Instr>, l: string): (j: int)
    ensures -1 <= j < |code|
    ensures j >= 0 ==> code[j] == Label(l)
    decreases |code|
  {
    if code == [] then -1
    else if code[|code| - 1] == Label(l) then |code| - 1
    else Target(code[..|code| - 1], l)
  }

  function Operate(op: BinOp, a: int, b: int): Option<int> {
    match op
    case Add => Some((a + b) % 256)
    case Sub => Some((a - b) % 256)
    case Mul => Some((a * b) % 256)
    case Div => if b == 0 then None else Some(a / b)
    case Eq => Some(Bit(a == b))
    case Lt => Some(Bit(a < b))
    case Gt => Some(Bit(a > b))
    case Neq => Some(Bit(a != b))
    case Leq => Some(Bit(a <= b))
    case Geq => Some(Bit(a >= b))
  }

  /** One instruction; a push beyond height cap, a pop of nothing and a bad address are stuck. */
  function Step(code: seq<Instr>, cap: nat, c: Config): Move {
    var n := |c.stack|;
    if !(0 <= c.i < |code|) || |c.data| != CELLS then Stuck else
    match code[c.i]
    case Push(a) =>
      if 0 <= a < CELLS && n < cap then Went(Config(c.i + 1, c.stack + [c.data[a]], c.data)) else Stuck
    case Pushi(v) =>
      if 0 <= v < 256 && n < cap then Went(Config(c.i + 1, c.stack + [v], c.data)) else Stuck
    case Pop(a) =>
      if 0 <= a < CELLS && n > 0 then Went(Config(c.i + 1, c.stack[..n - 1], c.data[a := c.stack[n - 1]])) else Stuck
    case Bin(op) =>
      if n < 2 then Stuck else
      (match Operate(op, c.stack[n - 2], c.stack[n - 1])
       case None => Stuck
       case Some(v) => Went(Config(c.i + 1, c.stack[..n - 2] + [v], c.data)))
    case Jump(l) => if Target(code, l) >= 0 then Went(c.(i := Target(code, l))) else Stuck
    case Jeqz(l) =>
      if n == 0 || Target(code, l) < 0 then Stuck else
      Went(Config(if c.stack[n - 1] == 0 then Target(code, l) else c.i + 1, c.stack[..n - 1], c.data))
    case Label(_) => Went(c.(i := c.i + 1))
    case Halt => Stopped
  }

  /** n instructions in a row. */
  function Run(code: seq<Instr>, cap: nat, c: Config, n: nat): Move
    decreases n
  {
    if n == 0 then Went(c) else
    match Step(code, cap, c)
    case Went(c') => Run(code, cap, c', n - 1)
    case m => m
  }

  /** c reaches c'. */
  ghost predicate Reaches(code: seq<Instr>, cap: nat, c: Config, c': Config) {
    exists n: nat :: Run(code, cap, c, n) == Went(c')
  }

  lemma {:induction false} RunAdd(code: seq<Instr>, cap: nat, c: Config, n: nat, m: nat)
    requires Run(code, cap, c, n).Went?
    ensures Run(code, cap, c, n + m) == Run(code, cap, Run(code, cap, c, n).c, m)
    decreases n
  {
    if n > 0 {
      var c' := Step(code, cap, c).c;
      RunAdd(code, cap, c', n - 1, m);
      assert n + m - 1 == (n - 1) + m;
    }
  }

  lemma Chain(code: seq<Instr>, cap: nat, a: Config, b: Config, c: Config)
    requires Reaches(code, cap, a, b) && Reaches(code, cap, b, c)
    ensures Reaches(code, cap, a, c)
  {
    var n: nat :| Run(code, cap, a, n) == Went(b);
    var m: nat :| Run(code, cap, b, m) == Went(c);
    RunAdd(code, cap, a, n, m);
  }

  lemma Stay(code: seq<Instr>, cap: nat, a: Config)
    ensures Reaches(code, cap, a, a)
  {
    assert Run(code, cap, a, 0) == Went(a);
  }

  lemma One(code: seq<Instr>, cap: nat, a: Config, b: Config)
    requires Step(code, cap, a) == Went(b)
    ensures Reaches(code, cap, a, b)
  {
    assert Run(code, cap, b, 0) == Went(b);
    assert Run(code, cap, a, 1) == Went(b);
  }

  /** The last occurrence of a label is its target. */
  lemma {:induction false} TargetIs(code: seq<Instr>, l: string, j: nat)
    requires j < |code| && code[j] == Label(l) && forall k :: j < k < |code| ==> code[k] != Label(l)
    ensures Target(code, l) == j
    decreases |code|
  {
    if j < |code| - 1 {
      TargetIs(code[..|code| - 1], l, j);
    }
  }

  // ---- compiled expressions ----

  /** The code c sits at index i. */
  ghost predicate At(code: seq<Instr>, i: int, c: seq<Instr>) {
    0 <= i && i + |c| <= |code| && code[i..i + |c|] == c
  }

  lemma AtPart(code: seq<Instr>, i: int, a: seq<Instr>, b: seq<Instr>, c: seq<Instr>)
    requires At(code, i, a + b + c)
    ensures At(code, i, a) && At(code, i + |a|, b) && At(code, i + |a| + |b|, c)
  {
    var all := a + b + c;
    forall k | 0 <= k < |all| ensures code[i + k] == all[k] {
      assert code[i..i + |all|][k] == code[i + k];
    }
    assert forall k :: 0 <= k < |a| ==> all[k] == a[k];
    assert forall k :: 0 <= k < |b| ==> all[|a| + k] == b[k];
    assert forall k :: 0 <= k < |c| ==> all[|a| + |b| + k] == c[k];
    assert code[i..i + |a|] == a;
    assert code[i + |a|..i + |a| + |b|] == b;
    assert code[i + |a| + |b|..i + |all|] == c;
  }

  /** Variables have distinct cells above the result cell. */
  ghost predicate Placed(env: Env) {
    && 1 <= env.next && (forall v :: v in env.loc ==> 1 <= env.loc[v] < env.next)
    && (forall u, v :: u in env.loc && v in env.loc && u != v ==> env.loc[u] != env.loc[v])
  }

  /** The cells hold the variables; bytes throughout. */
  ghost predicate Agree(env: Env, st: Store, data: seq<int>) {
    && |data| == CELLS && (forall v :: v in env.loc ==> 0 <= env.loc[v] < CELLS && data[env.loc[v]] == Get(st, v))
    && (forall v :: v in st ==> 0 <= st[v] < 256)
  }

  /** Stack height an expression needs. */
  function Depth(e: Expr): nat {
    match e
    case BasicLit(_) => 1
    case Ident(_) => 1
    case BinaryExpr(_, x, y) => if Depth(x) >= 1 + Depth(y) then Depth(x) else 1 + Depth(y)
    case ParenExpr(x) => Depth(x)
  }

  lemma EvalIsByte(e: Expr, st: Store)
    requires (forall v :: v in st ==> 0 <= st[v] < 256) && Eval(e, st).Some?
    ensures 0 <= Eval(e, st).value < 256
  {
    match e
    case BinaryExpr(op, x, y) =>
      EvalIsByte(x, st);
      EvalIsByte(y, st);
      if op == QUO {
        Quotient(Eval(x, st).value, Eval(y, st).value);
      }
    case _ =>
  }

  lemma Quotient(a: int, b: int)
    requires 0 <= a < 256 && 0 < b
    ensures 0 <= a / b < 256
  {
    var q, r := a / b, a % b;
    assert a == b * q + r && 0 <= r < b;
    Factor(b, q);
  }

  lemma Factor(b: int, q: int)
    requires 0 < b
    ensures q >= 0 ==> b * q >= q
    ensures q < 0 ==> b * q <= -b
  {
  }

  ghost predicate Extends(small: Env, big: Env) {
    forall v :: v in small.loc ==> v in big.loc && big.loc[v] == small.loc[v]
  }

  /** A compiled expression pushes exactly its value and leaves the deeper stack and the data untouched. */
  lemma {:induction false} ExprRuns(code: seq<Instr>, cap: nat, i: int, e: Expr, env: Env, g: Env, st: Store,
                                    stack: seq<int>, data: seq<int>)
    requires CompileExpr(e, env).Some? && At(code, i, CompileExpr(e, env).value)
    requires Extends(env, g) && Agree(g, st, data) && Eval(e, st).Some? && |stack| + Depth(e) <= cap
    ensures Reaches(code, cap, Config(i, stack, data),
                    Config(i + |CompileExpr(e, env).value|, stack + [Eval(e, st).value], data))
    decreases e
  {
    var c := CompileExpr(e, env).value;
    match e
    case BasicLit(_) =>
      assert code[i..i + 1][0] == code[i];
      One(code, cap, Config(i, stack, data), Config(i + 1, stack + [Eval(e, st).value], data));
    case Ident(_) =>
      assert code[i..i + 1][0] == code[i];
      One(code, cap, Config(i, stack, data), Config(i + 1, stack + [Eval(e, st).value], data));
    case ParenExpr(x) =>
      ExprRuns(code, cap, i, x, env, g, st, stack, data);
    case BinaryExpr(op, x, y) =>
      BinaryRuns(code, cap, i, e, env, g, st, stack, data);
  }

  lemma {:induction false} BinaryRuns(code: seq<Instr>, cap: nat, i: int, e: Expr, env: Env, g: Env, st: Store,
                                      stack: seq<int>, data: seq<int>)
    requires CompileExpr(e, env).Some? && At(code, i, CompileExpr(e, env).value) && e.BinaryExpr?
    requires Extends(env, g) && Agree(g, st, data) && Eval(e, st).Some? && |stack| + Depth(e) <= cap
    ensures Reaches(code, cap, Config(i, stack, data),
                    Config(i + |CompileExpr(e, env).value|, stack + [Eval(e, st).value], data))
    decreases e, 0
  {
    hide Target, Reaches;
    var cx, cy := CompileExpr(e.x, env).value, CompileExpr(e.y, env).value;
    var a, b, v := Eval(e.x, st).value, Eval(e.y, st).value, Eval(e, st).value;
    AtPart(code, i, cx, cy, OpCode(e.op));
    ExprRuns(code, cap, i, e.x, env, g, st, stack, data);
    ExprRuns(code, cap, i + |cx|, e.y, env, g, st, stack + [a], data);
    var j := i + |cx| + |cy|;
    var c1, c2 := Config(i + |cx|, stack + [a], data), Config(j, stack + [a] + [b], data);
    Chain(code, cap, Config(i, stack, data), c1, c2);
    assert code[j] == OpCode(e.op)[0] by { assert code[j..j + 1][0] == code[j]; }
    OpRuns(code, cap, j, e.op, stack, a, b, data);
    Chain(code, cap, Config(i, stack, data), c2, Config(j + 1, stack + [v], data));
  }

  lemma OpRuns(code: seq<Instr>, cap: nat, j: int, op: Token, stack: seq<int>, a: int, b: int, data: seq<int>)
    requires 0 <= j < |code| && Apply(op, a, b).Some? && OpCode(op) == [code[j]] && |data| == CELLS
    ensures Reaches(code, cap, Config(j, stack + [a] + [b], data), Config(j + 1, stack + [Apply(op, a, b).value], data))
  {
    hide Reaches;
    var s := stack + [a] + [b];
    assert s[|s| - 2] == a && s[|s| - 1] == b && s[..|s| - 2] == stack;
    One(code, cap, Config(j, s, data), Config(j + 1, stack + [Apply(op, a, b).value], data));
  }

  // ---- divisions by zero ----

  ghost predicate DividesByZero(code: seq<Instr>, c: Config) {
    0 <= c.i < |code| && code[c.i] == Bin(Div) && |c.data| == CELLS && |c.stack| >= 2 && c.stack[|c.stack| - 1] == 0
  }

  /** From c the machine comes to a division by zero. */
  ghost predicate Faults(code: seq<Instr>, cap: nat, c: Config) {
    exists d :: Reaches(code, cap, c, d) && DividesByZero(code, d)
  }

  lemma FaultsAfter(code: seq<Instr>, cap: nat, a: Config, b: Config)
    requires Reaches(code, cap, a, b) && Faults(code, cap, b)
    ensures Faults(code, cap, a)
  {
    hide Reaches;
    var d :| Reaches(code, cap, b, d) && DividesByZero(code, d);
    Chain(code, cap, a, b, d);
  }

  /** An expression without a value makes its code divide by zero. */
  lemma {:induction false} ExprFaults(code: seq<Instr>, cap: nat, i: int, e: Expr, env: Env, g: Env, st: Store,
                                      stack: seq<int>, data: seq<int>)
    requires CompileExpr(e, env).Some? && At(code, i, CompileExpr(e, env).value) && KnownExpr(e)
    requires Extends(env, g) && Agree(g, st, data) && Eval(e, st).None? && |stack| + Depth(e) <= cap
    ensures Faults(code, cap, Config(i, stack, data))
    decreases e
  {
    hide Target, Reaches, Faults;
    match e
    case ParenExpr(x) =>
      ExprFaults(code, cap, i, x, env, g, st, stack, data);
    case BinaryExpr(op, x, y) =>
      var cx, cy := CompileExpr(x, env).value, CompileExpr(y, env).value;
      AtPart(code, i, cx, cy, OpCode(op));
      if Eval(x, st).None? {
        ExprFaults(code, cap, i, x, env, g, st, stack, data);
      } else {
        var a := Eval(x, st).value;
        var c1 := Config(i + |cx|, stack + [a], data);
        ExprRuns(code, cap, i, x, env, g, st, stack, data);
        if Eval(y, st).None? {
          ExprFaults(code, cap, i + |cx|, y, env, g, st, stack + [a], data);
        } else {
          ExprRuns(code, cap, i + |cx|, y, env, g, st, stack + [a], data);
          ZeroDivisor(code, cap, i + |cx| + |cy|, stack, a, data);
          FaultsAfter(code, cap, c1, Config(i + |cx| + |cy|, stack + [a] + [0], data));
        }
        FaultsAfter(code, cap, Config(i, stack, data), c1);
      }
  }

  lemma ZeroDivisor(code: seq<Instr>, cap: nat, j: int, stack: seq<int>, a: int, data: seq<int>)
    requires At(code, j, [Bin(Div)]) && |data| == CELLS
    ensures Faults(code, cap, Config(j, stack + [a] + [0], data))
  {
    hide Reaches;
    assert code[j..j + 1][0] == code[j];
    Stay(code, cap, Config(j, stack + [a] + [0], data));
  }

  // ---- long runs ----

  /** From c the machine takes at least k steps. */
  ghost predicate Lasts(code: seq<Instr>, cap: nat, c: Config, k: nat) {
    exists n: nat, d :: n >= k && Run(code, cap, c, n) == Went(d)
  }

  lemma LastsAfter(code: seq<Instr>, cap: nat, a: Config, b: Config, k: nat)
    requires Reaches(code, cap, a, b) && Lasts(code, cap, b, k)
    ensures Lasts(code, cap, a, k)
    ensures a != b ==> Lasts(code, cap, a, k + 1)
  {
    var n: nat :| Run(code, cap, a, n) == Went(b);
    var m: nat, d :| m >= k && Run(code, cap, b, m) == Went(d);
    RunAdd(code, cap, a, n, m);
    assert Run(code, cap, a, n + m) == Went(d);
    assert a != b ==> n >= 1;
  }

  lemma LastsNow(code: seq<Instr>, cap: nat, a: Config)
    ensures Lasts(code, cap, a, 0)
  {
    assert Run(code, cap, a, 0) == Went(a);
  }
}
