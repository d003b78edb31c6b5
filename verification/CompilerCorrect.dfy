/** The compiled program does what the source program means. */
module CompilerCorrect {
  import opened Wrappers
  import opened TinyLang
  import opened StackMachine

  // ---- variables keep their cells ----

  lemma EnvGrows(s: Stmt, env: Env)
    requires CompileStmt(s, env).Some? && Placed(env)
    ensures var env' := CompileStmt(s, env).value.env; Extends(env, env') && Placed(env') && env.next <= env'.next
    decreases s
  {
    match s
    case If(c, body, els) =>
      EnvGrows(body, env);
      EnvGrows(els, CompileStmt(body, env).value.env);
    case For(c, body) =>
      EnvGrows(body, env);
    case Block(list) =>
      EnvGrowsList(list, env);
    case _ =>
  }

  lemma EnvGrowsList(ss: Stmts, env: Env)
    requires Placed(env)
    ensures var env' := CompileList(ss, env).env; Extends(env, env') && Placed(env') && env.next <= env'.next
    decreases ss
  {
    if ss.Then? && CompileStmt(ss.first, env).Some? {
      EnvGrows(ss.first, env);
      EnvGrowsList(ss.rest, CompileStmt(ss.first, env).value.env);
    }
  }

  // ---- where the labels are ----

  /** Inside code, every jump of the compiled s at index i leads to the label of its own if or for. */
  ghost predicate Resolved(code: seq<Instr>, i: int, s: Stmt, env: Env)
    decreases s
  {
    match s
    case If(c, body, els) =>
      CompileExpr(c, env).Some? && CompileStmt(body, env).Some? &&
      var b := i + |CompileExpr(c, env).value| + 2;
      var l2 := b + |CompileStmt(body, env).value.code|;
      && Target(code, "l2") == l2
      && Resolved(code, b, body, env) && Resolved(code, l2 + 1, els, CompileStmt(body, env).value.env)
    case For(c, body) =>
      && CompileStmt(body, env).Some?
      && Target(code, "l1") == i + 1 && Target(code, "l2") == i + 2 + |CompileStmt(body, env).value.code|
      && Resolved(code, i + 2, body, env)
    case Block(list) => ResolvedList(code, i, list, env)
    case _ => true
  }

  ghost predicate ResolvedList(code: seq<Instr>, i: int, ss: Stmts, env: Env)
    decreases ss
  {
    match ss
    case Done => true
    case Then(first, rest) =>
      CompileStmt(first, env).Some? && Resolved(code, i, first, env) &&
      var c := CompileStmt(first, env).value;
      ResolvedList(code, i + |c.code|, rest, c.env)
  }

  // ---- how a run ends ----

  ghost predicate Falls(code: seq<Instr>, cap: nat, from: Config, to: int, g: Env, st: Store, data: seq<int>) {
    Reaches(code, cap, from, Config(to, [], data)) && Agree(g, st, data)
  }

  ghost predicate Halts(code: seq<Instr>, cap: nat, from: Config, v: int, j: int, data: seq<int>) {
    0 <= j < |code| && code[j] == Halt && |data| == CELLS && data[0] == v && Reaches(code, cap, from, Config(j, [], data))
  }

  /**
   From the configuration from, the machine goes on as the outcome o says: to index to, to a halt, to a
   division by zero if only known operators are used, or for at least k steps.
   */
  ghost predicate Ends(code: seq<Instr>, cap: nat, from: Config, o: Outcome, to: int, g: Env,
                       known: bool, k: nat) {
    match o
    case Normal(st) => exists data :: Falls(code, cap, from, to, g, st, data)
    case Returned(v) => exists j, data :: Halts(code, cap, from, v, j, data)
    case Fault => known ==> Faults(code, cap, from)
    case Timeout => Lasts(code, cap, from, k)
  }

  lemma EndsAfter(code: seq<Instr>, cap: nat, from: Config, mid: Config, o: Outcome, to: int, g: Env,
           known: bool, fuel: nat)
    requires Reaches(code, cap, from, mid) && Ends(code, cap, mid, o, to, g, known, fuel)
    ensures Ends(code, cap, from, o, to, g, known, fuel)
  {
    hide Reaches, Agree, Faults, Lasts;
    match o
    case Normal(st) =>
      var data :| Falls(code, cap, mid, to, g, st, data);
      Chain(code, cap, from, mid, Config(to, [], data));
      assert Falls(code, cap, from, to, g, st, data);
    case Returned(v) =>
      var j, data :| Halts(code, cap, mid, v, j, data);
      Chain(code, cap, from, mid, Config(j, [], data));
      assert Halts(code, cap, from, v, j, data);
    case Fault =>
      if known {
        FaultsAfter(code, cap, from, mid);
      }
    case Timeout => LastsAfter(code, cap, from, mid, fuel);
  }

  /** A statement that starts with an expression without a value. */
  lemma EndsInFault(code: seq<Instr>, cap: nat, i: int, e: Expr, env: Env, g: Env, st: Store, data: seq<int>, to: int,
                    known: bool, fuel: nat)
    requires CompileExpr(e, env).Some? && At(code, i, CompileExpr(e, env).value) && (known ==> KnownExpr(e))
    requires Extends(env, g) && Agree(g, st, data) && Eval(e, st).None? && Depth(e) <= cap
    ensures Ends(code, cap, Config(i, [], data), Fault, to, g, known, fuel)
  {
    hide Faults;
    if known {
      ExprFaults(code, cap, i, e, env, g, st, [], data);
    }
  }

  /** Stack height a statement needs. */
  function StackNeed(s: Stmt): nat
    decreases s
  {
    match s
    case Empty => 0
    case Return(e) => Depth(e)
    case Assign(_, e) => Depth(e)
    case If(c, body, els) => Max(Depth(c), Max(StackNeed(body), StackNeed(els)))
    case For(c, body) => Max(2, Max(Depth(c), StackNeed(body)))
    case Block(list) => StackNeedList(list)
  }

  function StackNeedList(ss: Stmts): nat
    decreases ss
  {
    match ss
    case Done => 0
    case Then(first, rest) => Max(StackNeed(first), StackNeedList(rest))
  }

  function Max(a: nat, b: nat): nat { if a >= b then a else b }

  lemma AtCons(code: seq<Instr>, i: int, x: Instr)
    requires At(code, i, [x])
    ensures 0 <= i < |code| && code[i] == x
  {
    assert code[i..i + 1][0] == code[i];
  }

  // ---- statements ----

  lemma ReturnRuns(code: seq<Instr>, cap: nat, i: int, s: Stmt, env: Env, g: Env, st: Store, data: seq<int>, known: bool,
           fuel: nat)
    requires (known ==> Known(s)) && s.Return? && CompileStmt(s, env).Some? && At(code, i, CompileStmt(s, env).value.code)
    requires Extends(env, g) && Agree(g, st, data) && StackNeed(s) <= cap
    ensures Ends(code, cap, Config(i, [], data), Exec(s, st, fuel), i + |CompileStmt(s, env).value.code|, g, known, fuel)
  {
    hide Reaches, Agree, At;
    var c := CompileExpr(s.result, env).value;
    assert c + [Pop(0), Halt] == c + [Pop(0)] + [Halt];
    AtPart(code, i, c, [Pop(0)], [Halt]);
    if Eval(s.result, st).None? {
      EndsInFault(code, cap, i, s.result, env, g, st, data, i + |CompileStmt(s, env).value.code|, known, fuel);
    } else {
      var v := Eval(s.result, st).value;
      AtCons(code, i + |c|, Pop(0));
      AtCons(code, i + |c| + 1, Halt);
      ExprRuns(code, cap, i, s.result, env, g, st, [], data);
      PopRuns(code, cap, i + |c|, 0, v, g, st, data);
      var from, mid, end := Config(i, [], data), Config(i + |c|, [v], data), Config(i + |c| + 1, [], data[0 := v]);
      assert [] + [v] == [v];
      Chain(code, cap, from, mid, end);
      assert Halts(code, cap, from, v, i + |c| + 1, data[0 := v]);
    }
  }

  lemma PopRuns(code: seq<Instr>, cap: nat, j: int, a: int, v: int, g: Env, st: Store, data: seq<int>)
    requires 0 <= j < |code| && code[j] == Pop(a) && 0 <= a < CELLS && Agree(g, st, data)
    ensures |data| == CELLS && Reaches(code, cap, Config(j, [v], data), Config(j + 1, [], data[a := v]))
  {
    hide Reaches;
    assert [v][..0] == [];
    One(code, cap, Config(j, [v], data), Config(j + 1, [], data[a := v]));
  }

  lemma AssignRuns(code: seq<Instr>, cap: nat, i: int, s: Stmt, env: Env, g: Env, st: Store, data: seq<int>, known: bool,
           fuel: nat)
    requires (known ==> Known(s)) && s.Assign? && CompileStmt(s, env).Some? && At(code, i, CompileStmt(s, env).value.code)
    requires Extends(CompileStmt(s, env).value.env, g) && Placed(g) && Extends(env, g)
    requires Agree(g, st, data) && StackNeed(s) <= cap
    ensures Ends(code, cap, Config(i, [], data), Exec(s, st, fuel), i + |CompileStmt(s, env).value.code|, g, known, fuel)
  {
    hide Reaches, At, Agree, Ends;
    var c := CompileExpr(s.rhs, env).value;
    var a := g.loc[s.lhs];
    assert c + [Pop(a)] == c + [Pop(a)] + [];
    AtPart(code, i, c, [Pop(a)], []);
    if Eval(s.rhs, st).None? {
      EndsInFault(code, cap, i, s.rhs, env, g, st, data, i + |CompileStmt(s, env).value.code|, known, fuel);
    } else {
      var v := Eval(s.rhs, st).value;
      AtCons(code, i + |c|, Pop(a));
      ExprRuns(code, cap, i, s.rhs, env, g, st, [], data);
      AssignAgrees(g, st, data, s.lhs, s.rhs);
      PopRuns(code, cap, i + |c|, a, v, g, st, data);
      var from, mid, end := Config(i, [], data), Config(i + |c|, [v], data), Config(i + |c| + 1, [], data[a := v]);
      assert [] + [v] == [v];
      Chain(code, cap, from, mid, end);
      EndsHere(code, cap, from, i + |c| + 1, g, st[s.lhs := v], data[a := v], known, fuel);
    }
  }

  /** Storing a variable's new value in its cell. */
  lemma AssignAgrees(g: Env, st: Store, data: seq<int>, name: string, e: Expr)
    requires Placed(g) && Agree(g, st, data) && name in g.loc && Eval(e, st).Some?
    ensures 0 <= g.loc[name] < CELLS == |data|
    ensures Agree(g, st[name := Eval(e, st).value], data[g.loc[name] := Eval(e, st).value])
  {
    EvalIsByte(e, st);
  }

  ghost function CodeOf(s: Stmt, env: Env): seq<Instr>
    requires CompileStmt(s, env).Some?
  {
    CompileStmt(s, env).value.code
  }

  ghost function EnvOf(s: Stmt, env: Env): Env
    requires CompileStmt(s, env).Some?
  {
    CompileStmt(s, env).value.env
  }

  /** What the induction carries: s is compiled at index i of code, with its labels resolved. */
  ghost predicate Ready(code: seq<Instr>, cap: nat, i: int, s: Stmt, env: Env, g: Env) {
    && Clean(s, env) && Shaped(s) && CompileStmt(s, env).Some? && At(code, i, CodeOf(s, env)) && Resolved(code, i, s, env)
    && Placed(env) && Placed(g) && Extends(EnvOf(s, env), g) && StackNeed(s) <= cap
  }

  ghost predicate ReadyList(code: seq<Instr>, cap: nat, i: int, ss: Stmts, env: Env, g: Env) {
    && CleanList(ss, env) && ShapedList(ss) && At(code, i, CompileList(ss, env).code) && ResolvedList(code, i, ss, env)
    && Placed(env) && Placed(g) && Extends(CompileList(ss, env).env, g) && StackNeedList(ss) <= cap
  }

  lemma ReadyExtends(code: seq<Instr>, cap: nat, i: int, s: Stmt, env: Env, g: Env)
    requires Ready(code, cap, i, s, env, g)
    ensures Extends(env, g)
  {
    EnvGrows(s, env);
  }

  lemma AtFive(code: seq<Instr>, i: int, a: seq<Instr>, b: seq<Instr>, c: seq<Instr>, d: seq<Instr>, e: seq<Instr>)
    requires At(code, i, a + b + c + d + e)
    ensures At(code, i, a) && At(code, i + |a|, b) && At(code, i + |a| + |b|, c)
    ensures At(code, i + |a| + |b| + |c|, d) && At(code, i + |a| + |b| + |c| + |d|, e)
  {
    AtPart(code, i, a + b + c, d, e);
    AtPart(code, i, a, b, c);
  }

  lemma AtTwo(code: seq<Instr>, i: int, x: Instr, y: Instr)
    requires At(code, i, [x, y])
    ensures 0 <= i && i + 1 < |code| && code[i] == x && code[i + 1] == y
  {
    assert code[i..i + 2][0] == code[i] && code[i..i + 2][1] == code[i + 1];
  }

  /** The pieces of a compiled if. */
  lemma IfPieces(code: seq<Instr>, cap: nat, i: int, s: Stmt, env: Env, g: Env)
    requires s.If? && Ready(code, cap, i, s, env, g)
    ensures CompileExpr(s.cond, env).Some? && CompileStmt(s.body, env).Some?
    ensures var c := CompileExpr(s.cond, env).value; var b := i + |c| + 2; var l2 := b + |CodeOf(s.body, env)|;
      && CompileStmt(s.els, EnvOf(s.body, env)).Some?
      && At(code, i, c) && 0 <= i + |c| && b - 1 < |code| && code[i + |c|] == Jeqz("l2") && code[b - 1] == Label("l1")
      && 0 <= l2 < |code| && code[l2] == Label("l2") && Target(code, "l2") == l2
      && Ready(code, cap, b, s.body, env, g) && Ready(code, cap, l2 + 1, s.els, EnvOf(s.body, env), g)
      && i + |CodeOf(s, env)| == l2 + 1 + |CodeOf(s.els, EnvOf(s.body, env))|
  {
    hide *;
    ReadyShaped(code, cap, i, s, env, g);
    IfCode(s, env);
    IfReady(code, cap, i, s, env, g);
    IfLayout(code, i, CompileExpr(s.cond, env).value, CodeOf(s.body, env), CodeOf(s.els, EnvOf(s.body, env)));
  }

  /** Where the parts of an if are: the test, the body, the else. */
  lemma IfLayout(code: seq<Instr>, i: int, c: seq<Instr>, b: seq<Instr>, e: seq<Instr>)
    requires At(code, i, c + [Jeqz("l2"), Label("l1")] + b + [Label("l2")] + e)
    ensures var l2 := i + |c| + 2 + |b|;
      && At(code, i, c) && 0 <= i + |c| && l2 < |code| && code[i + |c|] == Jeqz("l2") && code[i + |c| + 1] == Label("l1")
      && At(code, i + |c| + 2, b) && code[l2] == Label("l2") && At(code, l2 + 1, e)
  {
    hide *;
    AtFive(code, i, c, [Jeqz("l2"), Label("l1")], b, [Label("l2")], e);
    AtTwo(code, i + |c|, Jeqz("l2"), Label("l1"));
    AtCons(code, i + |c| + 2 + |b|, Label("l2"));
  }

  lemma IfCode(s: Stmt, env: Env)
    requires s.If? && Clean(s, env)
    ensures CompileExpr(s.cond, env).Some? && CompileStmt(s.body, env).Some?
    ensures CompileStmt(s.els, EnvOf(s.body, env)).Some? && CompileStmt(s, env).Some?
    ensures CodeOf(s, env) == CompileExpr(s.cond, env).value + [Jeqz("l2"), Label("l1")] + CodeOf(s.body, env)
                            + [Label("l2")] + CodeOf(s.els, EnvOf(s.body, env))
    ensures EnvOf(s, env) == EnvOf(s.els, EnvOf(s.body, env))
  {
    CleanCompiles(s.els, EnvOf(s.body, env));
  }

  lemma IfReady(code: seq<Instr>, cap: nat, i: int, s: Stmt, env: Env, g: Env)
    requires s.If? && Ready(code, cap, i, s, env, g)
    ensures CompileExpr(s.cond, env).Some? && CompileStmt(s.body, env).Some?
    ensures CompileStmt(s.els, EnvOf(s.body, env)).Some?
    ensures var b := i + |CompileExpr(s.cond, env).value| + 2; var l2 := b + |CodeOf(s.body, env)|;
      Target(code, "l2") == l2 && Ready(code, cap, b, s.body, env, g) && Ready(code, cap, l2 + 1, s.els, EnvOf(s.body, env), g)
  {
    hide Target, At, CompileStmt, CompileExpr, Extends, Placed;
    IfCode(s, env);
    IfExtends(s, env, g);
    IfLayout(code, i, CompileExpr(s.cond, env).value, CodeOf(s.body, env), CodeOf(s.els, EnvOf(s.body, env)));
  }

  lemma IfExtends(s: Stmt, env: Env, g: Env)
    requires s.If? && Clean(s, env) && Placed(env) && CompileStmt(s, env).Some? && Extends(EnvOf(s, env), g)
    ensures CompileStmt(s.body, env).Some? && Extends(EnvOf(s.body, env), g) && Placed(EnvOf(s.body, env))
    ensures CompileStmt(s.els, EnvOf(s.body, env)).Some? && Extends(EnvOf(s.els, EnvOf(s.body, env)), g)
  {
    hide CompileStmt;
    IfCode(s, env);
    EnvGrows(s.body, env);
    EnvGrows(s.els, EnvOf(s.body, env));
  }

  /** A conditional jump on the byte v. */
  lemma JeqzRuns(code: seq<Instr>, cap: nat, j: int, l: string, v: int, data: seq<int>)
    requires 0 <= j < |code| && code[j] == Jeqz(l) && Target(code, l) >= 0 && |data| == CELLS
    ensures Reaches(code, cap, Config(j, [v], data), Config(if v == 0 then Target(code, l) else j + 1, [], data))
  {
    hide Reaches, Target;
    assert [v][..0] == [];
    One(code, cap, Config(j, [v], data), Config(if v == 0 then Target(code, l) else j + 1, [], data));
  }

  lemma LabelRuns(code: seq<Instr>, cap: nat, j: int, data: seq<int>)
    requires 0 <= j < |code| && code[j].Label? && |data| == CELLS
    ensures Reaches(code, cap, Config(j, [], data), Config(j + 1, [], data))
  {
    hide Reaches, Target;
    One(code, cap, Config(j, [], data), Config(j + 1, [], data));
  }

  /** A test: the condition's value is on the stack when the jump decides. */
  lemma TestRuns(code: seq<Instr>, cap: nat, i: int, e: Expr, env: Env, g: Env, st: Store, data: seq<int>, l: string)
    requires CompileExpr(e, env).Some? && At(code, i, CompileExpr(e, env).value)
    requires Extends(env, g) && Agree(g, st, data) && Eval(e, st).Some? && Depth(e) <= cap
    requires 0 <= i + |CompileExpr(e, env).value| < |code| && code[i + |CompileExpr(e, env).value|] == Jeqz(l)
    requires Target(code, l) >= 0
    ensures Reaches(code, cap, Config(i, [], data),
                    Config(if Eval(e, st).value == 0 then Target(code, l) else i + |CompileExpr(e, env).value| + 1, [], data))
  {
    hide Reaches, Target, At;
    var j, v := i + |CompileExpr(e, env).value|, Eval(e, st).value;
    ExprRuns(code, cap, i, e, env, g, st, [], data);
    assert [] + [v] == [v];
    JeqzRuns(code, cap, j, l, v, data);
    Chain(code, cap, Config(i, [], data), Config(j, [v], data),
          Config(if v == 0 then Target(code, l) else j + 1, [], data));
  }

  /** A label where a run falls through does not hold it up. */
  lemma FallPastLabel(code: seq<Instr>, cap: nat, from: Config, o: Outcome, to: int, g: Env,
           known: bool, fuel: nat)
    requires Ends(code, cap, from, o, to, g, known, fuel) && 0 <= to < |code| && code[to].Label?
    ensures Ends(code, cap, from, o, to + 1, g, known, fuel)
  {
    hide Reaches;
    if o.Normal? {
      var data :| Falls(code, cap, from, to, g, o.st, data);
      LabelRuns(code, cap, to, data);
      Chain(code, cap, from, Config(to, [], data), Config(to + 1, [], data));
      assert Falls(code, cap, from, to + 1, g, o.st, data);
    }
  }

  /** What an if hands down to its parts. */
  lemma IfNeeds(s: Stmt)
    requires s.If?
    ensures StackNeed(s) >= Depth(s.cond) && (Known(s) ==> KnownExpr(s.cond) && Known(s.body) && Known(s.els))
    ensures Shaped(s) ==> s.els == Empty || Exits(s.body)
  {
  }

  /** The else part, entered at its label. */
  lemma IfElseRuns(code: seq<Instr>, cap: nat, i: int, s: Stmt, env: Env, g: Env, st: Store, data: seq<int>, known: bool,
                   fuel: nat)
    requires (known ==> Known(s)) && s.If? && Ready(code, cap, i, s, env, g) && Agree(g, st, data)
    ensures CompileExpr(s.cond, env).Some? && CompileStmt(s.body, env).Some?
    ensures Ends(code, cap, Config(i + |CompileExpr(s.cond, env).value| + 2 + |CodeOf(s.body, env)|, [], data),
                 Exec(s.els, st, fuel), i + |CodeOf(s, env)|, g, known, fuel)
    decreases fuel, s, 0
  {
    hide *;
    IfNeeds(s);
    ReadyShaped(code, cap, i, s, env, g);
    IfPieces(code, cap, i, s, env, g);
    AgreeSize(g, st, data);
    var l2 := i + |CompileExpr(s.cond, env).value| + 2 + |CodeOf(s.body, env)|;
    LabelRuns(code, cap, l2, data);
    StmtRuns(code, cap, l2 + 1, s.els, EnvOf(s.body, env), g, st, data, known, fuel);
    EndsAfter(code, cap, Config(l2, [], data), Config(l2 + 1, [], data), Exec(s.els, st, fuel), i + |CodeOf(s, env)|, g, known, fuel);
  }

  lemma ReadyShaped(code: seq<Instr>, cap: nat, i: int, s: Stmt, env: Env, g: Env)
    requires Ready(code, cap, i, s, env, g)
    ensures Shaped(s) && StackNeed(s) <= cap && Clean(s, env) && CompileStmt(s, env).Some? && At(code, i, CodeOf(s, env))
  {
  }

  lemma ExecIf(s: Stmt, st: Store, fuel: nat)
    requires s.If?
    ensures Eval(s.cond, st).None? ==> Exec(s, st, fuel) == Fault
    ensures Eval(s.cond, st).Some? && Eval(s.cond, st).value == 0 ==> Exec(s, st, fuel) == Exec(s.els, st, fuel)
    ensures Eval(s.cond, st).Some? && Eval(s.cond, st).value != 0 ==> Exec(s, st, fuel) == Exec(s.body, st, fuel)
  {
  }

  lemma AgreeSize(g: Env, st: Store, data: seq<int>)
    requires Agree(g, st, data)
    ensures |data| == CELLS
  {
  }

  /** The body, entered at its label; it falls past the label behind it, or never falls through. */
  lemma IfThenRuns(code: seq<Instr>, cap: nat, i: int, s: Stmt, env: Env, g: Env, st: Store, data: seq<int>, known: bool,
                   fuel: nat)
    requires (known ==> Known(s)) && s.If? && Ready(code, cap, i, s, env, g) && Agree(g, st, data)
    ensures CompileExpr(s.cond, env).Some?
    ensures Ends(code, cap, Config(i + |CompileExpr(s.cond, env).value| + 1, [], data),
                 Exec(s.body, st, fuel), i + |CodeOf(s, env)|, g, known, fuel)
    decreases fuel, s, 0
  {
    hide *;
    IfNeeds(s);
    IfPieces(code, cap, i, s, env, g);
    AgreeSize(g, st, data);
    ReadyShaped(code, cap, i, s, env, g);
    EmptyCode(EnvOf(s.body, env));
    var b, o, end := i + |CompileExpr(s.cond, env).value| + 2, Exec(s.body, st, fuel), i + |CodeOf(s, env)|;
    var l2 := b + |CodeOf(s.body, env)|;
    LabelRuns(code, cap, b - 1, data);
    StmtRuns(code, cap, b, s.body, env, g, st, data, known, fuel);
    FallPastLabel(code, cap, Config(b, [], data), o, l2, g, known, fuel);
    if Exits(s.body) {
      ExitsNeverFalls(s.body, st, fuel);
      EndsElsewhere(code, cap, Config(b, [], data), o, l2 + 1, end, g, known, fuel);
    }
    EndsAfter(code, cap, Config(b - 1, [], data), Config(b, [], data), o, end, g, known, fuel);
  }

  lemma EmptyCode(env: Env)
    ensures CompileStmt(Empty, env).Some? && CodeOf(Empty, env) == []
  {
  }

  lemma IfRuns(code: seq<Instr>, cap: nat, i: int, s: Stmt, env: Env, g: Env, st: Store, data: seq<int>, known: bool,
           fuel: nat)
    requires (known ==> Known(s)) && s.If? && Ready(code, cap, i, s, env, g) && Agree(g, st, data)
    ensures Ends(code, cap, Config(i, [], data), Exec(s, st, fuel), i + |CodeOf(s, env)|, g, known, fuel)
    decreases fuel, s, 1
  {
    hide *;
    IfNeeds(s);
    ExecIf(s, st, fuel);
    ReadyShaped(code, cap, i, s, env, g);
    IfPieces(code, cap, i, s, env, g);
    ReadyExtends(code, cap, i, s, env, g);
    var c, end := CompileExpr(s.cond, env).value, i + |CodeOf(s, env)|;
    if Eval(s.cond, st).None? {
      EndsInFault(code, cap, i, s.cond, env, g, st, data, end, known, fuel);
    } else {
      var from, o := Config(i, [], data), Exec(s, st, fuel);
      TestRuns(code, cap, i, s.cond, env, g, st, data, "l2");
      if Eval(s.cond, st).value == 0 {
        IfElseRuns(code, cap, i, s, env, g, st, data, known, fuel);
        EndsAfter(code, cap, from, Config(i + |c| + 2 + |CodeOf(s.body, env)|, [], data), o, end, g, known, fuel);
      } else {
        IfThenRuns(code, cap, i, s, env, g, st, data, known, fuel);
        EndsAfter(code, cap, from, Config(i + |c| + 1, [], data), o, end, g, known, fuel);
      }
    }
  }

  lemma EndsElsewhere(code: seq<Instr>, cap: nat, from: Config, o: Outcome, to: int, to': int, g: Env,
                      known: bool, fuel: nat)
    requires Ends(code, cap, from, o, to, g, known, fuel) && !o.Normal?
    ensures Ends(code, cap, from, o, to', g, known, fuel)
  {
  }

  /** The pieces of a compiled for. */
  lemma ForPieces(code: seq<Instr>, cap: nat, i: int, s: Stmt, env: Env, g: Env)
    requires s.For? && Ready(code, cap, i, s, env, g)
    ensures CompileExpr(s.test, env).Some? && CompileStmt(s.loop, env).Some?
    ensures var c := CompileExpr(s.test, env).value; var l2 := i + 2 + |CodeOf(s.loop, env)|; var t := l2 + 1 + |c|;
      && 0 <= i && t + 2 < |code| && code[i] == Jump("l2") && code[i + 1] == Label("l1") && code[l2] == Label("l2")
      && At(code, l2 + 1, c) && code[t] == Pushi(1) && code[t + 1] == Bin(Neq) && code[t + 2] == Jeqz("l1")
      && Target(code, "l1") == i + 1 && Target(code, "l2") == l2
      && Ready(code, cap, i + 2, s.loop, env, g) && i + |CodeOf(s, env)| == t + 3
  {
    hide *;
    ReadyShaped(code, cap, i, s, env, g);
    ForCode(s, env);
    ForReady(code, cap, i, s, env, g);
    ForLayout(code, i, CodeOf(s.loop, env), CompileExpr(s.test, env).value);
  }

  /** Where the parts of a for are: the jump, the body, the test. */
  lemma ForLayout(code: seq<Instr>, i: int, b: seq<Instr>, c: seq<Instr>)
    requires At(code, i, [Jump("l2"), Label("l1")] + b + [Label("l2")] + c + [Pushi(1), Bin(Neq), Jeqz("l1")])
    ensures var l2 := i + 2 + |b|; var t := l2 + 1 + |c|;
      && 0 <= i && t + 2 < |code| && code[i] == Jump("l2") && code[i + 1] == Label("l1") && code[l2] == Label("l2")
      && At(code, i + 2, b) && At(code, l2 + 1, c)
      && code[t] == Pushi(1) && code[t + 1] == Bin(Neq) && code[t + 2] == Jeqz("l1")
  {
    hide *;
    AtFive(code, i, [Jump("l2"), Label("l1")], b, [Label("l2")], c, [Pushi(1), Bin(Neq), Jeqz("l1")]);
    AtTwo(code, i, Jump("l2"), Label("l1"));
    AtCons(code, i + 2 + |b|, Label("l2"));
    AtThree(code, i + 2 + |b| + 1 + |c|, Pushi(1), Bin(Neq), Jeqz("l1"));
  }

  lemma AtThree(code: seq<Instr>, i: int, x: Instr, y: Instr, z: Instr)
    requires At(code, i, [x, y, z])
    ensures 0 <= i && i + 2 < |code| && code[i] == x && code[i + 1] == y && code[i + 2] == z
  {
    var c := code[i..i + 3];
    assert c[0] == code[i] && c[1] == code[i + 1] && c[2] == code[i + 2];
  }

  lemma ForCode(s: Stmt, env: Env)
    requires s.For? && Clean(s, env)
    ensures CompileExpr(s.test, env).Some? && CompileStmt(s.loop, env).Some? && CompileStmt(s, env).Some?
    ensures CodeOf(s, env) == [Jump("l2"), Label("l1")] + CodeOf(s.loop, env) + [Label("l2")]
                            + CompileExpr(s.test, env).value + [Pushi(1), Bin(Neq), Jeqz("l1")]
    ensures EnvOf(s, env) == EnvOf(s.loop, env)
  {
    CleanCompiles(s.loop, env);
  }

  lemma ForReady(code: seq<Instr>, cap: nat, i: int, s: Stmt, env: Env, g: Env)
    requires s.For? && Ready(code, cap, i, s, env, g)
    ensures CompileExpr(s.test, env).Some? && CompileStmt(s.loop, env).Some?
    ensures Target(code, "l1") == i + 1 && Target(code, "l2") == i + 2 + |CodeOf(s.loop, env)|
    ensures Ready(code, cap, i + 2, s.loop, env, g)
  {
    hide Target, At;
    ForCode(s, env);
    ForLayout(code, i, CodeOf(s.loop, env), CompileExpr(s.test, env).value);
  }

  /** The inverted test at the end of a for: back to l1 exactly when the condition was 1. */
  lemma InvertedTestRuns(code: seq<Instr>, cap: nat, t: int, v: int, data: seq<int>)
    requires 0 <= t && t + 2 < |code| && code[t] == Pushi(1) && code[t + 1] == Bin(Neq) && code[t + 2] == Jeqz("l1")
    requires Target(code, "l1") >= 0 && |data| == CELLS && cap >= 2
    ensures Reaches(code, cap, Config(t, [v], data), Config(if v == 1 then Target(code, "l1") else t + 3, [], data))
  {
    hide Reaches, Target;
    var w := Bit(v != 1);
    assert [v] + [1] == [v, 1] && [v, 1][..0] + [w] == [w];
    var a, b, c := Config(t, [v], data), Config(t + 1, [v, 1], data), Config(t + 2, [w], data);
    One(code, cap, a, b);
    One(code, cap, b, c);
    Chain(code, cap, a, b, c);
    JeqzRuns(code, cap, t + 2, "l1", w, data);
    Chain(code, cap, a, c, Config(if v == 1 then Target(code, "l1") else t + 3, [], data));
  }

  /** From the test label to the decision. */
  lemma LoopTest(code: seq<Instr>, cap: nat, i: int, s: Stmt, env: Env, g: Env, st: Store, data: seq<int>)
    requires s.For? && Ready(code, cap, i, s, env, g) && Agree(g, st, data) && Eval(s.test, st).Some?
    ensures CompileStmt(s.loop, env).Some?
    ensures Reaches(code, cap, Config(i + 2 + |CodeOf(s.loop, env)|, [], data),
                    Config(if Eval(s.test, st).value == 1 then i + 1 else i + |CodeOf(s, env)|, [], data))
  {
    hide Reaches, Target, At, Resolved;
    ForPieces(code, cap, i, s, env, g);
    ReadyExtends(code, cap, i, s, env, g);
    var c, v := CompileExpr(s.test, env).value, Eval(s.test, st).value;
    var l2 := i + 2 + |CodeOf(s.loop, env)|;
    var t := l2 + 1 + |c|;
    var end := Config(if v == 1 then i + 1 else t + 3, [], data);
    LabelRuns(code, cap, l2, data);
    ExprRuns(code, cap, l2 + 1, s.test, env, g, st, [], data);
    assert [] + [v] == [v];
    InvertedTestRuns(code, cap, t, v, data);
    Chain(code, cap, Config(l2 + 1, [], data), Config(t, [v], data), end);
    Chain(code, cap, Config(l2, [], data), Config(l2 + 1, [], data), end);
  }

  /** The loop, entered at its test, runs as often as the source loop does. */
  lemma LoopRuns(code: seq<Instr>, cap: nat, i: int, s: Stmt, env: Env, g: Env, st: Store, data: seq<int>, known: bool,
           fuel: nat)
    requires (known ==> Known(s)) && s.For? && Ready(code, cap, i, s, env, g) && Agree(g, st, data) && CompileStmt(s.loop, env).Some?
    ensures Ends(code, cap, Config(i + 2 + |CodeOf(s.loop, env)|, [], data), Exec(s, st, fuel), i + |CodeOf(s, env)|, g, known, fuel)
    decreases fuel, s, 0
  {
    hide Reaches, Target, At, Resolved, Ends;
    var l2, end, o := i + 2 + |CodeOf(s.loop, env)|, i + |CodeOf(s, env)|, Exec(s, st, fuel);
    var from := Config(l2, [], data);
    ForPieces(code, cap, i, s, env, g);
    if Eval(s.test, st).None? {
      ReadyExtends(code, cap, i, s, env, g);
      LabelRuns(code, cap, l2, data);
      EndsInFault(code, cap, l2 + 1, s.test, env, g, st, data, end, known, fuel);
      EndsAfter(code, cap, from, Config(l2 + 1, [], data), o, end, g, known, fuel);
    } else {
      ComparisonIsBit(s.test, st);
      LoopTest(code, cap, i, s, env, g, st, data);
      if Eval(s.test, st).value == 0 {
        EndsHere(code, cap, from, end, g, st, data, known, fuel);
      } else if fuel == 0 {
        EndsSometime(code, cap, from, end, g, known);
      } else {
        LoopTurns(code, cap, i, s, env, g, st, data, known, fuel);
        EndsLater(code, cap, from, Config(i + 1, [], data), o, end, g, known, fuel);
      }
    }
  }

  lemma EndsHere(code: seq<Instr>, cap: nat, from: Config, to: int, g: Env, st: Store, data: seq<int>, known: bool, k: nat)
    requires Reaches(code, cap, from, Config(to, [], data)) && Agree(g, st, data)
    ensures Ends(code, cap, from, Normal(st), to, g, known, k)
  {
    hide Reaches;
    assert Falls(code, cap, from, to, g, st, data);
  }

  lemma EndsSometime(code: seq<Instr>, cap: nat, from: Config, to: int, g: Env, known: bool)
    ensures Ends(code, cap, from, Timeout, to, g, known, 0)
  {
    LastsNow(code, cap, from);
  }

  /** One step more. */
  lemma EndsLater(code: seq<Instr>, cap: nat, from: Config, mid: Config, o: Outcome, to: int, g: Env, known: bool, fuel: nat)
    requires Reaches(code, cap, from, mid) && from != mid && fuel > 0 && Ends(code, cap, mid, o, to, g, known, fuel - 1)
    ensures Ends(code, cap, from, o, to, g, known, fuel)
  {
    hide Reaches, Lasts;
    if o.Timeout? {
      LastsAfter(code, cap, from, mid, fuel - 1);
    } else {
      EndsAfter(code, cap, from, mid, o, to, g, known, fuel - 1);
    }
  }

  /** From the top of the loop: the body, and the rest of the loop if the body falls through. */
  lemma LoopTurns(code: seq<Instr>, cap: nat, i: int, s: Stmt, env: Env, g: Env, st: Store, data: seq<int>, known: bool,
                  fuel: nat)
    requires (known ==> Known(s)) && s.For? && Ready(code, cap, i, s, env, g) && Agree(g, st, data) && fuel > 0
    requires Eval(s.test, st).Some? && Eval(s.test, st).value != 0
    ensures Ends(code, cap, Config(i + 1, [], data), Exec(s, st, fuel), i + |CodeOf(s, env)|, g, known, fuel - 1)
    decreases fuel - 1, s, 1
  {
    hide Reaches, Target, At, Resolved;
    ForPieces(code, cap, i, s, env, g);
    var l2, end, o := i + 2 + |CodeOf(s.loop, env)|, i + |CodeOf(s, env)|, Exec(s, st, fuel);
    var b, ob := Config(i + 2, [], data), Exec(s.loop, st, fuel - 1);
    LabelRuns(code, cap, i + 1, data);
    StmtRuns(code, cap, i + 2, s.loop, env, g, st, data, known, fuel - 1);
    if ob.Normal? {
      var data' :| Falls(code, cap, b, l2, g, ob.st, data');
      LoopRuns(code, cap, i, s, env, g, ob.st, data', known, fuel - 1);
      EndsAfter(code, cap, b, Config(l2, [], data'), o, end, g, known, fuel - 1);
    } else {
      EndsElsewhere(code, cap, b, o, l2, end, g, known, fuel - 1);
    }
    EndsAfter(code, cap, Config(i + 1, [], data), b, o, end, g, known, fuel - 1);
  }

  lemma ForRuns(code: seq<Instr>, cap: nat, i: int, s: Stmt, env: Env, g: Env, st: Store, data: seq<int>, known: bool,
           fuel: nat)
    requires (known ==> Known(s)) && s.For? && Ready(code, cap, i, s, env, g) && Agree(g, st, data)
    ensures Ends(code, cap, Config(i, [], data), Exec(s, st, fuel), i + |CodeOf(s, env)|, g, known, fuel)
    decreases fuel, s, 1
  {
    hide Reaches, Target, At, Resolved, Ends;
    ForPieces(code, cap, i, s, env, g);
    var l2 := Config(i + 2 + |CodeOf(s.loop, env)|, [], data);
    LoopRuns(code, cap, i, s, env, g, st, data, known, fuel);
    One(code, cap, Config(i, [], data), l2);
    EndsAfter(code, cap, Config(i, [], data), l2, Exec(s, st, fuel), i + |CodeOf(s, env)|, g, known, fuel);
  }

  lemma ListPieces(code: seq<Instr>, cap: nat, i: int, ss: Stmts, env: Env, g: Env)
    requires ss.Then? && ReadyList(code, cap, i, ss, env, g)
    ensures CompileStmt(ss.first, env).Some? && Ready(code, cap, i, ss.first, env, g)
    ensures ReadyList(code, cap, i + |CodeOf(ss.first, env)|, ss.rest, EnvOf(ss.first, env), g)
    ensures CompileList(ss, env).code == CodeOf(ss.first, env) + CompileList(ss.rest, EnvOf(ss.first, env)).code
  {
    hide Target, At;
    EnvGrows(ss.first, env);
    EnvGrowsList(ss.rest, EnvOf(ss.first, env));
    var a, b := CodeOf(ss.first, env), CompileList(ss.rest, EnvOf(ss.first, env)).code;
    assert a + b == a + b + [];
    AtPart(code, i, a, b, []);
  }

  lemma ListRuns(code: seq<Instr>, cap: nat, i: int, ss: Stmts, env: Env, g: Env, st: Store, data: seq<int>, known: bool,
           fuel: nat)
    requires (known ==> KnownList(ss)) && ReadyList(code, cap, i, ss, env, g) && Agree(g, st, data)
    ensures Ends(code, cap, Config(i, [], data), ExecList(ss, st, fuel), i + |CompileList(ss, env).code|, g, known, fuel)
    decreases fuel, ss, 0
  {
    hide Reaches, Target, At, Resolved, Agree;
    var from, o, end := Config(i, [], data), ExecList(ss, st, fuel), i + |CompileList(ss, env).code|;
    if ss.Done? {
      Stay(code, cap, from);
      assert Falls(code, cap, from, i, g, st, data);
    } else {
      ListPieces(code, cap, i, ss, env, g);
      var mid, o1 := i + |CodeOf(ss.first, env)|, Exec(ss.first, st, fuel);
      StmtRuns(code, cap, i, ss.first, env, g, st, data, known, fuel);
      if o1.Normal? {
        var data' :| Falls(code, cap, from, mid, g, o1.st, data');
        ListRuns(code, cap, mid, ss.rest, EnvOf(ss.first, env), g, o1.st, data', known, fuel);
        EndsAfter(code, cap, from, Config(mid, [], data'), o, end, g, known, fuel);
      } else {
        EndsElsewhere(code, cap, from, o, mid, end, g, known, fuel);
      }
    }
  }

  /** A compiled statement ends as the source statement does, after any number of loop iterations. */
  lemma {:induction false} StmtRuns(code: seq<Instr>, cap: nat, i: int, s: Stmt, env: Env, g: Env, st: Store,
                                    data: seq<int>, known: bool, fuel: nat)
    requires (known ==> Known(s)) && Ready(code, cap, i, s, env, g) && Agree(g, st, data)
    ensures Ends(code, cap, Config(i, [], data), Exec(s, st, fuel), i + |CodeOf(s, env)|, g, known, fuel)
    decreases fuel, s, 2
  {
    hide Reaches, Target, Agree;
    ReadyExtends(code, cap, i, s, env, g);
    match s
    case Empty =>
      Stay(code, cap, Config(i, [], data));
      assert Falls(code, cap, Config(i, [], data), i, g, st, data);
    case Return(_) => ReturnRuns(code, cap, i, s, env, g, st, data, known, fuel);
    case Assign(_, _) => AssignRuns(code, cap, i, s, env, g, st, data, known, fuel);
    case If(_, _, _) => IfRuns(code, cap, i, s, env, g, st, data, known, fuel);
    case For(_, _) => ForRuns(code, cap, i, s, env, g, st, data, known, fuel);
    case Block(list) => ListRuns(code, cap, i, list, env, g, st, data, known, fuel);
  }

  // ---- one if or for at most: its hardcoded labels are the only ones ----

  ghost predicate NoLabels(c: seq<Instr>) { forall k :: 0 <= k < |c| ==> !c[k].Label? }

  ghost predicate NoLabelsOutside(code: seq<Instr>, lo: int, hi: int) {
    forall k :: 0 <= k < |code| && !(lo <= k < hi) ==> !code[k].Label?
  }

  lemma ExprNoLabels(e: Expr, env: Env)
    requires CompileExpr(e, env).Some?
    ensures NoLabels(CompileExpr(e, env).value)
  {
  }

  lemma StmtNoLabels(s: Stmt, env: Env)
    requires CompileStmt(s, env).Some? && Branches(s) == 0
    ensures NoLabels(CodeOf(s, env))
    decreases s
  {
    match s
    case Return(e) => ExprNoLabels(e, env);
    case Assign(_, e) => ExprNoLabels(e, env);
    case Block(list) => ListNoLabels(list, env);
    case _ =>
  }

  lemma ListNoLabels(ss: Stmts, env: Env)
    requires BranchesList(ss) == 0
    ensures NoLabels(CompileList(ss, env).code)
    decreases ss
  {
    if ss.Then? && CompileStmt(ss.first, env).Some? {
      StmtNoLabels(ss.first, env);
      ListNoLabels(ss.rest, EnvOf(ss.first, env));
    }
  }

  lemma AtIndex(code: seq<Instr>, i: int, c: seq<Instr>)
    requires At(code, i, c)
    ensures forall k :: i <= k < i + |c| ==> code[k] == c[k - i]
  {
    forall k | i <= k < i + |c| ensures code[k] == c[k - i] {
      assert code[i..i + |c|][k - i] == code[k];
    }
  }

  /** Jumps resolve to their own labels when no other labels are around. */
  lemma ResolvedWithin(code: seq<Instr>, i: int, s: Stmt, env: Env)
    requires CompileStmt(s, env).Some? && Clean(s, env) && At(code, i, CodeOf(s, env)) && Branches(s) <= 1
    requires Branches(s) == 1 ==> NoLabelsOutside(code, i, i + |CodeOf(s, env)|)
    ensures Resolved(code, i, s, env)
    decreases s
  {
    match s
    case If(_, _, _) => ResolvedIf(code, i, s, env);
    case For(_, _) => ResolvedFor(code, i, s, env);
    case Block(list) => ResolvedWithinList(code, i, list, env);
    case _ =>
  }

  lemma ResolvedIf(code: seq<Instr>, i: int, s: Stmt, env: Env)
    requires s.If? && CompileStmt(s, env).Some? && Clean(s, env) && At(code, i, CodeOf(s, env)) && Branches(s) == 1
    requires NoLabelsOutside(code, i, i + |CodeOf(s, env)|)
    ensures Resolved(code, i, s, env)
    decreases s, 0
  {
    hide Target, At, CompileStmt, CompileExpr;
    IfCode(s, env);
    var c, b, e := CompileExpr(s.cond, env).value, CodeOf(s.body, env), CodeOf(s.els, EnvOf(s.body, env));
    IfLayout(code, i, c, b, e);
    var l2 := i + |c| + 2 + |b|;
    StmtNoLabels(s.els, EnvOf(s.body, env));
    LastLabel(code, l2, e);
    ResolvedWithin(code, i + |c| + 2, s.body, env);
    ResolvedWithin(code, l2 + 1, s.els, EnvOf(s.body, env));
  }

  /** A label behind which there are no labels, in its own code or after it, is its own target. */
  lemma LastLabel(code: seq<Instr>, l2: int, e: seq<Instr>)
    requires 0 <= l2 < |code| && code[l2] == Label("l2") && At(code, l2 + 1, e) && NoLabels(e)
    requires forall k :: l2 + 1 + |e| <= k < |code| ==> !code[k].Label?
    ensures Target(code, "l2") == l2
  {
    hide Target;
    AtIndex(code, l2 + 1, e);
    forall k | l2 < k < |code| ensures code[k] != Label("l2") {
      if k < l2 + 1 + |e| {
        assert code[k] == e[k - (l2 + 1)];
      }
    }
    TargetIs(code, "l2", l2);
  }

  lemma ResolvedFor(code: seq<Instr>, i: int, s: Stmt, env: Env)
    requires s.For? && CompileStmt(s, env).Some? && Clean(s, env) && At(code, i, CodeOf(s, env)) && Branches(s) == 1
    requires NoLabelsOutside(code, i, i + |CodeOf(s, env)|)
    ensures Resolved(code, i, s, env)
    decreases s, 0
  {
    hide Target, At, CompileStmt, CompileExpr;
    ForCode(s, env);
    var c, b := CompileExpr(s.test, env).value, CodeOf(s.loop, env);
    ForLayout(code, i, b, c);
    StmtNoLabels(s.loop, env);
    ExprNoLabels(s.test, env);
    ForLabels(code, i, b, c);
    ResolvedWithin(code, i + 2, s.loop, env);
  }

  /** The two labels of a for without labels in its body, its test or after it. */
  lemma ForLabels(code: seq<Instr>, i: int, b: seq<Instr>, c: seq<Instr>)
    requires At(code, i, [Jump("l2"), Label("l1")] + b + [Label("l2")] + c + [Pushi(1), Bin(Neq), Jeqz("l1")])
    requires NoLabels(b) && NoLabels(c) && forall k :: i + 2 + |b| + 1 + |c| + 3 <= k < |code| ==> !code[k].Label?
    ensures Target(code, "l1") == i + 1 && Target(code, "l2") == i + 2 + |b|
  {
    hide Target, At;
    ForLayout(code, i, b, c);
    var l2 := i + 2 + |b|;
    AtIndex(code, i + 2, b);
    AtIndex(code, l2 + 1, c);
    forall k | l2 < k < |code| ensures !code[k].Label? {
      if k < l2 + 1 + |c| {
        assert code[k] == c[k - (l2 + 1)];
      }
    }
    TargetIs(code, "l2", l2);
    forall k | i + 1 < k < |code| ensures code[k] != Label("l1") {
      if k < l2 {
        assert code[k] == b[k - (i + 2)];
      }
    }
    TargetIs(code, "l1", i + 1);
  }

  lemma ResolvedWithinList(code: seq<Instr>, i: int, ss: Stmts, env: Env)
    requires CleanList(ss, env) && At(code, i, CompileList(ss, env).code) && BranchesList(ss) <= 1
    requires BranchesList(ss) == 1 ==> NoLabelsOutside(code, i, i + |CompileList(ss, env).code|)
    ensures ResolvedList(code, i, ss, env)
    decreases ss
  {
    hide Target, At;
    if ss.Then? {
      var a, env' := CodeOf(ss.first, env), EnvOf(ss.first, env);
      var b := CompileList(ss.rest, env').code;
      assert a + b == a + b + [];
      AtPart(code, i, a, b, []);
      if Branches(ss.first) == 0 {
        StmtNoLabels(ss.first, env);
        AtIndex(code, i, a);
      } else {
        ListNoLabels(ss.rest, env');
        AtIndex(code, i + |a|, b);
      }
      ResolvedWithin(code, i, ss.first, env);
      ResolvedWithinList(code, i + |a|, ss.rest, env');
    }
  }

  // ---- whole programs ----

  /** func f(x, y byte) byte { ... } in the supported subset. */
  ghost predicate Supported(p: Stmt) {
    Clean(p, INITIAL_ENV) && Shaped(p) && Branches(p) <= 1 && CompileStmt(p, INITIAL_ENV).Some? &&
    EnvOf(p, INITIAL_ENV).next <= CELLS
  }

  /** The data cells at the start: x and y, and zeros. */
  function Arguments(x: int, y: int): seq<int> { [0, x, y, 0, 0, 0, 0, 0] }

  lemma ProgramReady(p: Stmt, cap: nat)
    requires Supported(p) && StackNeed(p) <= cap
    ensures var g := EnvOf(p, INITIAL_ENV);
      Ready(CodeOf(p, INITIAL_ENV), cap, 0, p, INITIAL_ENV, g) && Extends(INITIAL_ENV, g) && Placed(g) && g.next <= CELLS
  {
    hide Target, CompileStmt, Clean, Shaped, Branches, StackNeed, Resolved;
    var code := CodeOf(p, INITIAL_ENV);
    EnvGrows(p, INITIAL_ENV);
    assert code[0..0 + |code|] == code;
    ResolvedWithin(code, 0, p, INITIAL_ENV);
  }

  /** A supported program, from its start, goes on as its source does: to a halt, a fault, its end, or on and on. */
  lemma ProgramEnds(p: Stmt, x: int, y: int, cap: nat, fuel: nat)
    requires Supported(p) && 0 <= x < 256 && 0 <= y < 256 && StackNeed(p) <= cap
    ensures var code := CodeOf(p, INITIAL_ENV);
            Ends(code, cap, Config(0, [], Arguments(x, y)), Exec(p, map["x" := x, "y" := y], fuel), |code|,
                 EnvOf(p, INITIAL_ENV), Known(p), fuel)
  {
    ProgramReady(p, cap);
    hide *;
    var code, g, st := CodeOf(p, INITIAL_ENV), EnvOf(p, INITIAL_ENV), map["x" := x, "y" := y];
    InitialAgree(p, g, x, y);
    StmtRuns(code, cap, 0, p, INITIAL_ENV, g, st, Arguments(x, y), Known(p), fuel);
  }

  /**
   Whenever the source program returns v, the compiled program, on any stack as high as its expressions
   need, reaches a halt with v in cell 0.
   */
  lemma ProgramRuns(p: Stmt, x: int, y: int, cap: nat, fuel: nat, v: int)
    requires Supported(p) && 0 <= x < 256 && 0 <= y < 256 && StackNeed(p) <= cap
    requires Exec(p, map["x" := x, "y" := y], fuel) == Returned(v)
    ensures exists j, data :: Halts(CodeOf(p, INITIAL_ENV), cap, Config(0, [], Arguments(x, y)), v, j, data)
  {
    ProgramEnds(p, x, y, cap, fuel);
  }

  lemma InitialAgree(p: Stmt, g: Env, x: int, y: int)
    requires Extends(INITIAL_ENV, g) && Placed(g) && g.next <= CELLS && 0 <= x < 256 && 0 <= y < 256
    ensures Agree(g, map["x" := x, "y" := y], Arguments(x, y))
  {
    assert "x" in INITIAL_ENV.loc && "y" in INITIAL_ENV.loc;
    forall v | v in g.loc ensures Arguments(x, y)[g.loc[v]] == Get(map["x" := x, "y" := y], v) {
      assert v != "x" ==> g.loc[v] != 1;
      assert v != "y" ==> g.loc[v] != 2;
    }
  }
}
