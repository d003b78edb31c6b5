/** Programs of the compiler's own test suite, from source to the byte the machine returns, on all inputs. */
module CompilerSamples {
  import opened Wrappers
  import opened TinyLang
  import opened StackMachine
  import opened CompilerCorrect
  import opened Assembler
  import opened ByteVm

  // ---- sizes ----

  lemma {:induction false} BytesAtMost(code: seq<Instr>)
    ensures Bytes(code) <= 2 * |code|
  {
    if code != [] {
      BytesAtMost(code[..|code| - 1]);
    }
  }

  /** Short code with a small stack leaves a byte to spare. */
  lemma ShortFits(p: Stmt)
    requires CompileStmt(p, INITIAL_ENV).Some? && |CodeOf(p, INITIAL_ENV)| <= 100 && StackNeed(p) <= 40
    ensures CompiledFits(p) && FitsWithRoom(p)
  {
    hide CompileStmt, StackNeed, Bytes;
    BytesAtMost(CodeOf(p, INITIAL_ENV));
  }

  // ---- byte arithmetic ----

  lemma MultipleOf256(k: int, m: int)
    ensures (256 * k + m) % 256 == m % 256
  {
  }

  lemma MulMod(a: int, b: int)
    ensures a % 256 * b % 256 == a * b % 256
  {
    assert a == 256 * (a / 256) + a % 256;
    MultipleOf256(a / 256 * b, a % 256 * b);
    assert a * b == 256 * (a / 256 * b) + a % 256 * b;
  }

  lemma ProductMod(a: int, b: int)
    ensures a % 256 * (b % 256) % 256 == a * b % 256
  {
    MulMod(a, b % 256);
    MulMod(b, a);
    assert a * (b % 256) == b % 256 * a && a * b == b * a;
  }

  // ---- one operator, compiled and evaluated ----

  lemma Pair(op: Token, x: Expr, y: Expr, env: Env, cx: seq<Instr>, cy: seq<Instr>, c: seq<Instr>)
    requires CompileExpr(x, env) == Some(cx) && CompileExpr(y, env) == Some(cy) && c == cx + cy + OpCode(op)
    ensures CompileExpr(BinaryExpr(op, x, y), env) == CompileExpr(ParenExpr(BinaryExpr(op, x, y)), env) == Some(c)
  {
  }

  lemma PairValue(op: Token, x: Expr, y: Expr, st: Store, a: int, b: int)
    requires Eval(x, st) == Some(a) && Eval(y, st) == Some(b)
    ensures Eval(BinaryExpr(op, x, y), st) == Eval(ParenExpr(BinaryExpr(op, x, y)), st) == Apply(op, a, b)
  {
  }

  /** Each operator: its value on bytes, and the line that follows the code of its operands; any other has neither. */
  lemma Operators(op: Token, x: Expr, y: Expr, st: Store, a: int, b: int, env: Env, cx: seq<Instr>, cy: seq<Instr>)
    requires Eval(x, st) == Some(a) && Eval(y, st) == Some(b) && 0 <= a < 256 && 0 <= b < 256
    requires CompileExpr(x, env) == Some(cx) && CompileExpr(y, env) == Some(cy)
    ensures var e := BinaryExpr(op, x, y);
      var v, c := Eval(e, st), CompileExpr(e, env);
      && (op == ADD ==> v == Some((a + b) % 256) && c == Some(cx + cy + [Bin(Add)]))
      && (op == SUB ==> v == Some((a - b) % 256) && c == Some(cx + cy + [Bin(Sub)]))
      && (op == MUL ==> v == Some(a * b % 256) && c == Some(cx + cy + [Bin(Mul)]))
      && (op == QUO ==> v == (if b == 0 then None else Some(a / b)) && c == Some(cx + cy + [Bin(Div)]))
      && (op == EQL ==> v == Some(if a == b then 1 else 0) && c == Some(cx + cy + [Bin(Eq)]))
      && (op == LSS ==> v == Some(if a < b then 1 else 0) && c == Some(cx + cy + [Bin(Lt)]))
      && (op == GTR ==> v == Some(if a > b then 1 else 0) && c == Some(cx + cy + [Bin(Gt)]))
      && (op == OTHER ==> v == None && c == Some(cx + cy))
  {
    Pair(op, x, y, env, cx, cy, cx + cy + OpCode(op));
    PairValue(op, x, y, st, a, b);
    assert cx + cy + [] == cx + cy;
  }

  lemma Names()
    ensures "x" != "y" && "a" !in {"x", "y"} && "b" !in {"x", "y", "a"} && "c" !in {"x", "y", "a", "b"}
  {
    assert "x"[0] != "y"[0] && "a"[0] !in {"x"[0], "y"[0]} && "b"[0] !in {"x"[0], "y"[0], "a"[0]};
    assert "c"[0] !in {"x"[0], "y"[0], "a"[0], "b"[0]};
  }

  // ---- 2 * (x + 3) * (y + 4) ----

  const X := Ident("x")
  const Y := Ident("y")

  const X_PLUS_3 := BinaryExpr(ADD, X, BasicLit(3))
  const Y_PLUS_4 := BinaryExpr(ADD, Y, BasicLit(4))

  const PRODUCT_OF_SUMS := Return(BinaryExpr(MUL, BinaryExpr(MUL, BasicLit(2), ParenExpr(X_PLUS_3)), ParenExpr(Y_PLUS_4)))

  const PRODUCT_OF_SUMS_CODE := [Pushi(2), Push(1), Pushi(3), Bin(Add), Bin(Mul), Push(2), Pushi(4), Bin(Add), Bin(Mul),
                                 Pop(0), Halt]

  lemma ProductCompiles()
    ensures CompileStmt(PRODUCT_OF_SUMS, INITIAL_ENV) == Some(Compiled(PRODUCT_OF_SUMS_CODE, INITIAL_ENV))
  {
    Names();
    var c, g := PRODUCT_OF_SUMS_CODE, INITIAL_ENV;
    Pair(ADD, X, BasicLit(3), g, [Push(1)], [Pushi(3)], c[1..4]);
    Pair(MUL, BasicLit(2), ParenExpr(X_PLUS_3), g, [Pushi(2)], c[1..4], c[..5]);
    Pair(ADD, Y, BasicLit(4), g, [Push(2)], [Pushi(4)], c[5..8]);
    Pair(MUL, BinaryExpr(MUL, BasicLit(2), ParenExpr(X_PLUS_3)), ParenExpr(Y_PLUS_4), g, c[..5], c[5..8], c[..9]);
    assert c[..9] + [Pop(0), Halt] == c;
  }

  lemma ProductMeans(x: int, y: int, fuel: nat)
    requires 0 <= x < 256 && 0 <= y < 256
    ensures Exec(PRODUCT_OF_SUMS, map["x" := x, "y" := y], fuel) == Returned(2 * (x + 3) * (y + 4) % 256)
  {
    Names();
    var st := map["x" := x, "y" := y];
    PairValue(ADD, X, BasicLit(3), st, x, 3);
    PairValue(MUL, BasicLit(2), ParenExpr(X_PLUS_3), st, 2, (x + 3) % 256);
    PairValue(ADD, Y, BasicLit(4), st, y, 4);
    MulMod(x + 3, 2);
    PairValue(MUL, BinaryExpr(MUL, BasicLit(2), ParenExpr(X_PLUS_3)), ParenExpr(Y_PLUS_4), st,
              2 * (x + 3) % 256, (y + 4) % 256);
    ProductMod(2 * (x + 3), y + 4);
  }

  /** return 2 * (x + 3) * (y + 4): this code, and for all bytes the machine returns just that, modulo 256. */
  lemma ProductOfSums(x: int, y: int, labels: map<string, int>, v: int)
    requires 0 <= x < 256 && 0 <= y < 256 && LabelsOf(PRODUCT_OF_SUMS_CODE, labels)
    ensures CompileStmt(PRODUCT_OF_SUMS, INITIAL_ENV) == Some(Compiled(PRODUCT_OF_SUMS_CODE, INITIAL_ENV))
    ensures Supported(PRODUCT_OF_SUMS) && CompiledFits(PRODUCT_OF_SUMS) && Sane(Start(PRODUCT_OF_SUMS, labels, x, y))
    ensures MachineReturns(Start(PRODUCT_OF_SUMS, labels, x, y), v) <==> v == 2 * (x + 3) * (y + 4) % 256
  {
    var p := PRODUCT_OF_SUMS;
    ProductCompiles();
    ProductShape();
    assert |PRODUCT_OF_SUMS_CODE| == 11 && INITIAL_ENV.next == 3;
    hide *;
    ReturnsWithRoom(p, PRODUCT_OF_SUMS_CODE, INITIAL_ENV, x, y, labels, v);
    forall fuel: nat ensures Exec(p, map["x" := x, "y" := y], fuel) == Returned(2 * (x + 3) * (y + 4) % 256) {
      ProductMeans(x, y, fuel);
    }
    SourceReturnsJust(p, x, y, 2 * (x + 3) * (y + 4) % 256, 0, v);
  }

  lemma ProductShape()
    ensures var p := PRODUCT_OF_SUMS; Clean(p, INITIAL_ENV) && Shaped(p) && Known(p) && Branches(p) == 0 && StackNeed(p) <= 40
  {
    ProductCompiles();
    var e := BinaryExpr(MUL, BasicLit(2), ParenExpr(X_PLUS_3));
    assert Depth(X_PLUS_3) == 2 && Depth(Y_PLUS_4) == 2;
    assert Depth(ParenExpr(X_PLUS_3)) == 2 && Depth(ParenExpr(Y_PLUS_4)) == 2 && Depth(e) == 3;
    assert KnownExpr(X_PLUS_3) && KnownExpr(Y_PLUS_4) && KnownExpr(e);
  }

  // ---- from the source's value to the machine's ----

  /** A short program with known code is supported, fits, and is run by the machine as its source. */
  lemma ReturnsWithRoom(p: Stmt, code: seq<Instr>, env: Env, x: int, y: int, labels: map<string, int>, v: int)
    requires 0 <= x < 256 && 0 <= y < 256 && LabelsOf(code, labels)
    requires CompileStmt(p, INITIAL_ENV) == Some(Compiled(code, env)) && |code| <= 100 && env.next <= 8
    requires Clean(p, INITIAL_ENV) && Shaped(p) && Known(p) && Branches(p) <= 1 && StackNeed(p) <= 40
    ensures Supported(p) && CompiledFits(p) && FitsWithRoom(p) && Sane(Start(p, labels, x, y))
    ensures MachineReturns(Start(p, labels, x, y), v) <==> SourceReturns(p, x, y, v)
  {
    hide CompileStmt, Clean, Shaped, Known, Branches, StackNeed, LabelsOf, MachineReturns, SourceReturns, Fits, Sane;
    ShortFits(p);
    MachineReturnsWithRoom(p, x, y, labels, v);
  }

  /** A source that returns r with enough fuel, and nothing else with less, returns just r. */
  lemma SourceReturnsJust(p: Stmt, x: int, y: int, r: int, enough: nat, v: int)
    requires forall fuel: nat :: var o := Exec(p, map["x" := x, "y" := y], fuel);
               if fuel >= enough then o == Returned(r) else !o.Returned?
    ensures SourceReturns(p, x, y, v) <==> v == r
  {
    hide Exec;
    assert Exec(p, map["x" := x, "y" := y], enough) == Returned(r);
  }

  // ---- a = x * y; b = x + y; if a < b { return b - a } else { return a - b } ----

  const A := Ident("a")
  const B := Ident("b")
  const C := Ident("c")
  const ENV_A := Env(map["x" := 1, "y" := 2, "a" := 3], 4)
  const ENV_B := Env(map["x" := 1, "y" := 2, "a" := 3, "b" := 4], 5)

  const LESS := Block(Then(Return(BinaryExpr(SUB, B, A)), Done))
  const NOT_LESS := Block(Then(Return(BinaryExpr(SUB, A, B)), Done))

  const A_IS_PRODUCT := Assign("a", BinaryExpr(MUL, X, Y))
  const B_IS_SUM := Assign("b", BinaryExpr(ADD, X, Y))
  const BRANCH := If(BinaryExpr(LSS, A, B), LESS, NOT_LESS)
  const ASSIGN_AND_BRANCH := Then(A_IS_PRODUCT, Then(B_IS_SUM, Then(BRANCH, Done)))
  const DISTANCE := Block(Then(Empty, Then(Empty, ASSIGN_AND_BRANCH)))

  const DISTANCE_CODE := [Push(1), Push(2), Bin(Mul), Pop(3), Push(1), Push(2), Bin(Add), Pop(4),
                          Push(3), Push(4), Bin(Lt), Jeqz("l2"), Label("l1"), Push(4), Push(3), Bin(Sub), Pop(0), Halt,
                          Label("l2"), Push(3), Push(4), Bin(Sub), Pop(0), Halt]

  /** One statement in front of compiled ones. */
  lemma Before(s: Stmt, rest: Stmts, env: Env, env': Env, g: Env, a: seq<Instr>, b: seq<Instr>, c: seq<Instr>)
    requires CompileStmt(s, env) == Some(Compiled(a, env')) && CompileList(rest, env') == Compiled(b, g) && c == a + b
    ensures CompileList(Then(s, rest), env) == Compiled(c, g)
    ensures CompileStmt(Block(Then(s, rest)), env) == Some(Compiled(c, g))
    ensures Clean(s, env) && CleanList(rest, env') ==>
            CleanList(Then(s, rest), env) && Clean(Block(Then(s, rest)), env)
  {
  }

  lemma AssignCompiles(name: string, e: Expr, env: Env, ce: seq<Instr>, env': Env, c: seq<Instr>)
    requires CompileExpr(e, env) == Some(ce) && env' == Located(env, name) && c == ce + [Pop(env'.loc[name])]
    ensures CompileStmt(Assign(name, e), env) == Some(Compiled(c, env'))
  {
  }

  lemma ReturnCompiles(e: Expr, env: Env, ce: seq<Instr>, c: seq<Instr>)
    requires CompileExpr(e, env) == Some(ce) && c == ce + [Pop(0), Halt]
    ensures CompileStmt(Return(e), env) == Some(Compiled(c, env))
  {
  }

  lemma BranchCompiles()
    ensures CompileStmt(BRANCH, ENV_B) == Some(Compiled(DISTANCE_CODE[8..], ENV_B)) && Clean(BRANCH, ENV_B)
  {
    Names();
    var c, g := DISTANCE_CODE, ENV_B;
    Pair(LSS, A, B, g, [Push(3)], [Push(4)], c[8..11]);
    Pair(SUB, B, A, g, [Push(4)], [Push(3)], c[13..16]);
    Pair(SUB, A, B, g, [Push(3)], [Push(4)], c[19..22]);
    ReturnCompiles(BinaryExpr(SUB, B, A), g, c[13..16], c[13..18]);
    ReturnCompiles(BinaryExpr(SUB, A, B), g, c[19..22], c[19..24]);
    Before(Return(BinaryExpr(SUB, B, A)), Done, g, g, g, c[13..18], [], c[13..18]);
    Before(Return(BinaryExpr(SUB, A, B)), Done, g, g, g, c[19..24], [], c[19..24]);
    assert c[8..11] + [Jeqz("l2"), Label("l1")] + c[13..18] + [Label("l2")] + c[19..24] == c[8..];
  }

  lemma AssignmentsCompile()
    ensures CompileStmt(A_IS_PRODUCT, INITIAL_ENV) == Some(Compiled(DISTANCE_CODE[..4], ENV_A))
    ensures CompileStmt(B_IS_SUM, ENV_A) == Some(Compiled(DISTANCE_CODE[4..8], ENV_B))
    ensures Clean(A_IS_PRODUCT, INITIAL_ENV) && Clean(B_IS_SUM, ENV_A)
  {
    Names();
    var c := DISTANCE_CODE;
    Pair(MUL, X, Y, INITIAL_ENV, [Push(1)], [Push(2)], c[..3]);
    AssignCompiles("a", BinaryExpr(MUL, X, Y), INITIAL_ENV, c[..3], ENV_A, c[..4]);
    Pair(ADD, X, Y, ENV_A, [Push(1)], [Push(2)], c[4..7]);
    AssignCompiles("b", BinaryExpr(ADD, X, Y), ENV_A, c[4..7], ENV_B, c[4..8]);
  }

  lemma DistanceCompiles()
    ensures CompileStmt(DISTANCE, INITIAL_ENV) == Some(Compiled(DISTANCE_CODE, ENV_B)) && Clean(DISTANCE, INITIAL_ENV)
  {
    AssignmentsCompile();
    BranchCompiles();
    EmptyCompiles(INITIAL_ENV);
    hide CompileStmt, CompileList, Clean, CleanList;
    hide A_IS_PRODUCT, B_IS_SUM, BRANCH;
    var c, l := DISTANCE_CODE, ASSIGN_AND_BRANCH;
    assert c == c[..4] + c[4..] && c[4..] == c[4..8] + c[8..];
    DoneCompiles(ENV_B);
    Before(BRANCH, Done, ENV_B, ENV_B, ENV_B, c[8..], [], c[8..]);
    Before(B_IS_SUM, Then(BRANCH, Done), ENV_A, ENV_B, ENV_B, c[4..8], c[8..], c[4..]);
    Before(A_IS_PRODUCT, l.rest, INITIAL_ENV, ENV_A, ENV_B, c[..4], c[4..], c);
    Before(Empty, l, INITIAL_ENV, INITIAL_ENV, ENV_B, [], c, c);
    Before(Empty, Then(Empty, l), INITIAL_ENV, INITIAL_ENV, ENV_B, [], c, c);
  }

  lemma EmptyCompiles(env: Env)
    ensures CompileStmt(Empty, env) == Some(Compiled([], env)) && Clean(Empty, env)
  {
  }

  lemma DoneCompiles(env: Env)
    ensures CompileList(Done, env) == Compiled([], env) && CleanList(Done, env)
  {
  }

  lemma DistanceShape()
    ensures Shaped(DISTANCE) && Known(DISTANCE) && Branches(DISTANCE) == 1 && StackNeed(DISTANCE) == 2
  {
    BranchShape();
    hide BRANCH;
    ShapeBefore(BRANCH, Done);
    ShapeBefore(B_IS_SUM, Then(BRANCH, Done));
    ShapeBefore(A_IS_PRODUCT, ASSIGN_AND_BRANCH.rest);
    ShapeBefore(Empty, ASSIGN_AND_BRANCH);
    ShapeBefore(Empty, Then(Empty, ASSIGN_AND_BRANCH));
  }

  lemma ShapeBefore(s: Stmt, rest: Stmts)
    ensures var p := Block(Then(s, rest));
      && Shaped(p) == ShapedList(Then(s, rest)) == (Shaped(s) && ShapedList(rest))
      && Known(p) == KnownList(Then(s, rest)) == (Known(s) && KnownList(rest))
      && Branches(p) == BranchesList(Then(s, rest)) == Branches(s) + BranchesList(rest)
      && StackNeed(p) == StackNeedList(Then(s, rest)) == Max(StackNeed(s), StackNeedList(rest))
      && Exits(p) == ExitsList(Then(s, rest)) == (Exits(s) || ExitsList(rest))
  {
  }

  lemma BranchShape()
    ensures Shaped(BRANCH) && Known(BRANCH) && Branches(BRANCH) == 1 && StackNeed(BRANCH) == 2
  {
    ShapeBefore(Return(BinaryExpr(SUB, B, A)), Done);
    ShapeBefore(Return(BinaryExpr(SUB, A, B)), Done);
  }

  function Distance(x: int, y: int): int {
    var a, b := x * y % 256, (x + y) % 256;
    if a < b then b - a else a - b
  }

  lemma DistanceMeans(x: int, y: int, fuel: nat)
    requires 0 <= x < 256 && 0 <= y < 256
    ensures Exec(DISTANCE, map["x" := x, "y" := y], fuel) == Returned(Distance(x, y))
  {
    var a, b := x * y % 256, (x + y) % 256;
    var st := map["x" := x, "y" := y];
    var st1 := st["a" := a];
    var st2 := st1["b" := b];
    AssignmentsMean(x, y, st, st1, st2, fuel);
    BranchMeans(st2, a, b, fuel);
    var o := Returned(Distance(x, y));
    hide Exec, ExecList, A_IS_PRODUCT, B_IS_SUM, BRANCH;
    Last(BRANCH, Done, st2, fuel, o);
    First(B_IS_SUM, Then(BRANCH, Done), st1, st2, fuel, o);
    First(A_IS_PRODUCT, ASSIGN_AND_BRANCH.rest, st, st1, fuel, o);
    First(Empty, ASSIGN_AND_BRANCH, st, st, fuel, o);
    First(Empty, Then(Empty, ASSIGN_AND_BRANCH), st, st, fuel, o);
  }

  lemma AssignmentsMean(x: int, y: int, st: Store, st1: Store, st2: Store, fuel: nat)
    requires 0 <= x < 256 && 0 <= y < 256 && st == map["x" := x, "y" := y]
    requires st1 == st["a" := x * y % 256] && st2 == st1["b" := (x + y) % 256]
    ensures Exec(A_IS_PRODUCT, st, fuel) == Normal(st1) && Exec(B_IS_SUM, st1, fuel) == Normal(st2)
    ensures Get(st2, "a") == x * y % 256 && Get(st2, "b") == (x + y) % 256 && Exec(Empty, st, fuel) == Normal(st)
  {
    Names();
    PairValue(MUL, X, Y, st, x, y);
    PairValue(ADD, X, Y, st1, x, y);
  }

  lemma BranchMeans(st: Store, a: int, b: int, fuel: nat)
    requires Get(st, "a") == a && Get(st, "b") == b && 0 <= a < 256 && 0 <= b < 256
    ensures Exec(BRANCH, st, fuel) == Returned(if a < b then b - a else a - b)
  {
    PairValue(LSS, A, B, st, a, b);
    PairValue(SUB, B, A, st, b, a);
    PairValue(SUB, A, B, st, a, b);
    Last(Return(BinaryExpr(SUB, B, A)), Done, st, fuel, Returned((b - a) % 256));
    Last(Return(BinaryExpr(SUB, A, B)), Done, st, fuel, Returned((a - b) % 256));
  }

  /** A list whose first statement falls through, and one whose first statement ends it. */
  lemma First(s: Stmt, rest: Stmts, st: Store, st': Store, fuel: nat, o: Outcome)
    requires Exec(s, st, fuel) == Normal(st') && ExecList(rest, st', fuel) == o
    ensures ExecList(Then(s, rest), st, fuel) == Exec(Block(Then(s, rest)), st, fuel) == o
  {
  }

  lemma Last(s: Stmt, rest: Stmts, st: Store, fuel: nat, o: Outcome)
    requires Exec(s, st, fuel) == o && !o.Normal?
    ensures ExecList(Then(s, rest), st, fuel) == Exec(Block(Then(s, rest)), st, fuel) == o
  {
  }

  /** The distance of x * y and x + y as bytes: this code, and for all bytes the machine returns just that. */
  lemma DistanceOfProductAndSum(x: int, y: int, labels: map<string, int>, v: int)
    requires 0 <= x < 256 && 0 <= y < 256 && LabelsOf(DISTANCE_CODE, labels)
    ensures CompileStmt(DISTANCE, INITIAL_ENV) == Some(Compiled(DISTANCE_CODE, ENV_B))
    ensures Supported(DISTANCE) && CompiledFits(DISTANCE) && Sane(Start(DISTANCE, labels, x, y))
    ensures var a, b := x * y % 256, (x + y) % 256;
      MachineReturns(Start(DISTANCE, labels, x, y), v) <==> v == if a < b then b - a else a - b
  {
    var p := DISTANCE;
    DistanceCompiles();
    DistanceShape();
    assert |DISTANCE_CODE| == 24 && ENV_B.next == 5;
    var r := Distance(x, y);
    hide *;
    ReturnsWithRoom(p, DISTANCE_CODE, ENV_B, x, y, labels, v);
    forall fuel: nat ensures Exec(p, map["x" := x, "y" := y], fuel) == Returned(r) {
      DistanceMeans(x, y, fuel);
    }
    SourceReturnsJust(p, x, y, r, 0, v);
  }

  // ---- a = 0; b = 1; for x > 0 { c = a + b; a = b; b = c; x = x - 1 }; return b ----

  const ENV_C := Env(map["x" := 1, "y" := 2, "a" := 3, "b" := 4, "c" := 5], 6)

  const C_IS_SUM := Assign("c", BinaryExpr(ADD, A, B))
  const X_IS_LESS := Assign("x", BinaryExpr(SUB, X, BasicLit(1)))
  const MOVE_UP := Then(Assign("a", B), Then(Assign("b", C), Then(X_IS_LESS, Done)))
  const BODY := Block(Then(C_IS_SUM, MOVE_UP))
  const X_LEFT := BinaryExpr(GTR, X, BasicLit(0))
  const LOOP := For(X_LEFT, BODY)
  const FROM_LOOP := Then(LOOP, Then(Return(B), Done))
  const FROM_A := Then(Assign("a", BasicLit(0)), Then(Assign("b", BasicLit(1)), FROM_LOOP))
  const FIBONACCI := Block(Then(Empty, Then(Empty, Then(Empty, FROM_A))))

  const SUM_CODE := [Push(3), Push(4), Bin(Add), Pop(5)]
  const UP_CODE := [Push(4), Pop(3)] + ([Push(5), Pop(4)] + [Push(1), Pushi(1), Bin(Sub), Pop(1)])
  const BODY_CODE := SUM_CODE + UP_CODE
  const LEFT_CODE := [Push(1), Pushi(0), Bin(Gt)]
  const LOOP_CODE :=
    [Jump("l2"), Label("l1")] + BODY_CODE + [Label("l2")] + LEFT_CODE + [Pushi(1), Bin(Neq), Jeqz("l1")]
  const FIBONACCI_CODE := [Pushi(0), Pop(3)] + ([Pushi(1), Pop(4)] + (LOOP_CODE + [Push(4), Pop(0), Halt]))

  /** What the statements of the loop body compile to. */
  lemma BodyStatements()
    ensures CompileStmt(C_IS_SUM, ENV_B) == Some(Compiled(SUM_CODE, ENV_C)) && Clean(C_IS_SUM, ENV_B)
    ensures CompileStmt(Assign("a", B), ENV_C) == Some(Compiled([Push(4), Pop(3)], ENV_C)) && Clean(Assign("a", B), ENV_C)
    ensures CompileStmt(Assign("b", C), ENV_C) == Some(Compiled([Push(5), Pop(4)], ENV_C)) && Clean(Assign("b", C), ENV_C)
    ensures CompileStmt(X_IS_LESS, ENV_C) == Some(Compiled([Push(1), Pushi(1), Bin(Sub), Pop(1)], ENV_C))
    ensures Clean(X_IS_LESS, ENV_C)
  {
    Names();
    Pair(ADD, A, B, ENV_B, [Push(3)], [Push(4)], SUM_CODE[..3]);
    AssignCompiles("c", BinaryExpr(ADD, A, B), ENV_B, SUM_CODE[..3], ENV_C, SUM_CODE);
    AssignCompiles("a", B, ENV_C, [Push(4)], ENV_C, [Push(4), Pop(3)]);
    AssignCompiles("b", C, ENV_C, [Push(5)], ENV_C, [Push(5), Pop(4)]);
    Pair(SUB, X, BasicLit(1), ENV_C, [Push(1)], [Pushi(1)], [Push(1), Pushi(1), Bin(Sub)]);
    AssignCompiles("x", BinaryExpr(SUB, X, BasicLit(1)), ENV_C, [Push(1), Pushi(1), Bin(Sub)], ENV_C,
                   [Push(1), Pushi(1), Bin(Sub), Pop(1)]);
  }

  lemma BodyCompiles()
    ensures CompileStmt(BODY, ENV_B) == Some(Compiled(BODY_CODE, ENV_C)) && Clean(BODY, ENV_B)
  {
    BodyStatements();
    DoneCompiles(ENV_C);
    hide CompileStmt, CompileList, Clean, CleanList, C_IS_SUM, X_IS_LESS, SUM_CODE;
    var last := [Push(1), Pushi(1), Bin(Sub), Pop(1)];
    Before(X_IS_LESS, Done, ENV_C, ENV_C, ENV_C, last, [], last);
    Before(Assign("b", C), MOVE_UP.rest.rest, ENV_C, ENV_C, ENV_C, [Push(5), Pop(4)], last, [Push(5), Pop(4)] + last);
    Before(Assign("a", B), MOVE_UP.rest, ENV_C, ENV_C, ENV_C, [Push(4), Pop(3)], [Push(5), Pop(4)] + last, UP_CODE);
    Before(C_IS_SUM, MOVE_UP, ENV_B, ENV_C, ENV_C, SUM_CODE, UP_CODE, BODY_CODE);
  }

  lemma LoopCompiles()
    ensures CompileStmt(LOOP, ENV_B) == Some(Compiled(LOOP_CODE, ENV_C)) && Clean(LOOP, ENV_B)
  {
    Names();
    BodyCompiles();
    hide BODY, BODY_CODE;
    Pair(GTR, X, BasicLit(0), ENV_B, [Push(1)], [Pushi(0)], LEFT_CODE);
  }

  lemma AroundLoop()
    ensures CompileStmt(Assign("a", BasicLit(0)), INITIAL_ENV) == Some(Compiled([Pushi(0), Pop(3)], ENV_A))
    ensures CompileStmt(Assign("b", BasicLit(1)), ENV_A) == Some(Compiled([Pushi(1), Pop(4)], ENV_B))
    ensures CompileStmt(Return(B), ENV_C) == Some(Compiled([Push(4), Pop(0), Halt], ENV_C))
    ensures Clean(Assign("a", BasicLit(0)), INITIAL_ENV) && Clean(Assign("b", BasicLit(1)), ENV_A) && Clean(Return(B), ENV_C)
  {
    Names();
    AssignCompiles("a", BasicLit(0), INITIAL_ENV, [Pushi(0)], ENV_A, [Pushi(0), Pop(3)]);
    AssignCompiles("b", BasicLit(1), ENV_A, [Pushi(1)], ENV_B, [Pushi(1), Pop(4)]);
    ReturnCompiles(B, ENV_C, [Push(4)], [Push(4), Pop(0), Halt]);
  }

  lemma FibonacciCompiles()
    ensures CompileStmt(FIBONACCI, INITIAL_ENV) == Some(Compiled(FIBONACCI_CODE, ENV_C)) && Clean(FIBONACCI, INITIAL_ENV)
  {
    AroundLoop();
    LoopCompiles();
    EmptyCompiles(INITIAL_ENV);
    DoneCompiles(ENV_C);
    hide CompileStmt, CompileList, Clean, CleanList, LOOP, LOOP_CODE;
    var end, f := [Push(4), Pop(0), Halt], FIBONACCI_CODE;
    var fromLoop := LOOP_CODE + end;
    Before(Return(B), Done, ENV_C, ENV_C, ENV_C, end, [], end);
    Before(LOOP, FROM_LOOP.rest, ENV_B, ENV_C, ENV_C, LOOP_CODE, end, fromLoop);
    Before(Assign("b", BasicLit(1)), FROM_LOOP, ENV_A, ENV_B, ENV_C, [Pushi(1), Pop(4)], fromLoop, [Pushi(1), Pop(4)] + fromLoop);
    Before(Assign("a", BasicLit(0)), FROM_A.rest, INITIAL_ENV, ENV_A, ENV_C, [Pushi(0), Pop(3)], [Pushi(1), Pop(4)] + fromLoop, f);
    Before(Empty, FROM_A, INITIAL_ENV, INITIAL_ENV, ENV_C, [], f, f);
    Before(Empty, Then(Empty, FROM_A), INITIAL_ENV, INITIAL_ENV, ENV_C, [], f, f);
    Before(Empty, Then(Empty, Then(Empty, FROM_A)), INITIAL_ENV, INITIAL_ENV, ENV_C, [], f, f);
  }

  lemma BodyShape()
    ensures Shaped(BODY) && Known(BODY) && Branches(BODY) == 0 && StackNeed(BODY) == 2
  {
    ShapeBefore(X_IS_LESS, Done);
    ShapeBefore(Assign("b", C), MOVE_UP.rest.rest);
    ShapeBefore(Assign("a", B), MOVE_UP.rest);
    ShapeBefore(C_IS_SUM, MOVE_UP);
  }

  lemma FibonacciShape()
    ensures Shaped(FIBONACCI) && Known(FIBONACCI) && Branches(FIBONACCI) == 1 && StackNeed(FIBONACCI) == 2
  {
    BodyShape();
    hide BODY;
    ShapeBefore(Return(B), Done);
    ShapeBefore(LOOP, FROM_LOOP.rest);
    ShapeBefore(Assign("b", BasicLit(1)), FROM_LOOP);
    ShapeBefore(Assign("a", BasicLit(0)), FROM_A.rest);
    ShapeBefore(Empty, FROM_A);
    ShapeBefore(Empty, Then(Empty, FROM_A));
    ShapeBefore(Empty, Then(Empty, Then(Empty, FROM_A)));
  }

  function Fib(n: nat): nat { if n <= 1 then n else Fib(n - 1) + Fib(n - 2) }

  lemma FibStep(n: nat)
    ensures (Fib(n) % 256 + Fib(n + 1) % 256) % 256 == Fib(n + 2) % 256
  {
    hide Fib;
    AddMod(Fib(n), Fib(n + 1));
    FibUnfolds(n);
  }

  lemma FibUnfolds(n: nat)
    ensures Fib(n + 2) == Fib(n) + Fib(n + 1)
  {
  }

  lemma AddMod(a: nat, b: nat)
    ensures (a % 256 + b % 256) % 256 == (a + b) % 256
  {
    MultipleOf256(a / 256 + b / 256, a % 256 + b % 256);
  }

  /** One turn of the loop. */
  lemma BodyMeans(st: Store, a: int, b: int, x: int, fuel: nat) returns (st': Store)
    requires Get(st, "a") == a && Get(st, "b") == b && Get(st, "x") == x && 0 < x < 256 && 0 <= a < 256 && 0 <= b < 256
    ensures Exec(BODY, st, fuel) == Normal(st')
    ensures Get(st', "a") == b && Get(st', "b") == (a + b) % 256 && Get(st', "x") == x - 1
  {
    Names();
    var c := (a + b) % 256;
    var st1 := st["c" := c];
    var st2 := st1["a" := b];
    var st3 := st2["b" := c];
    st' := st3["x" := x - 1];
    PairValue(ADD, A, B, st, a, b);
    PairValue(SUB, X, BasicLit(1), st3, x, 1);
    assert Exec(C_IS_SUM, st, fuel) == Normal(st1);
    assert Exec(Assign("a", B), st1, fuel) == Normal(st2) && Exec(Assign("b", C), st2, fuel) == Normal(st3);
    assert Exec(X_IS_LESS, st3, fuel) == Normal(st');
    hide Exec, C_IS_SUM, X_IS_LESS;
    First(X_IS_LESS, Done, st3, st', fuel, Normal(st'));
    First(Assign("b", C), MOVE_UP.rest.rest, st2, st3, fuel, Normal(st'));
    First(Assign("a", B), MOVE_UP.rest, st1, st2, fuel, Normal(st'));
    First(C_IS_SUM, MOVE_UP, st, st1, fuel, Normal(st'));
  }

  /** With i turns behind it and x ahead, the loop ends with b the (i + x + 1)-st number if there is fuel for x turns. */
  lemma {:induction false} LoopMeans(st: Store, i: nat, x: nat, fuel: nat)
    requires Get(st, "a") == Fib(i) % 256 && Get(st, "b") == Fib(i + 1) % 256 && Get(st, "x") == x < 256
    ensures var o := Exec(LOOP, st, fuel);
            if fuel >= x then o.Normal? && Get(o.st, "b") == Fib(i + x + 1) % 256 else o == Timeout
    decreases x
  {
    hide BODY, Fib;
    PairValue(GTR, X, BasicLit(0), st, x, 0);
    if x > 0 && fuel > 0 {
      var st' := BodyMeans(st, Fib(i) % 256, Fib(i + 1) % 256, x, fuel - 1);
      FibStep(i);
      LoopMeans(st', i + 1, x - 1, fuel - 1);
    }
  }

  lemma FibonacciMeans(x: nat, y: nat, fuel: nat)
    requires x < 256 && y < 256
    ensures var o := Exec(FIBONACCI, map["x" := x, "y" := y], fuel);
            if fuel >= x then o == Returned(Fib(x + 1) % 256) else o == Timeout
  {
    Names();
    var st := map["x" := x, "y" := y];
    var st1 := st["a" := 0];
    var st2 := st1["b" := 1];
    assert Exec(Assign("a", BasicLit(0)), st, fuel) == Normal(st1) && Exec(Assign("b", BasicLit(1)), st1, fuel) == Normal(st2);
    LoopMeans(st2, 0, x, fuel);
    var o := Exec(LOOP, st2, fuel);
    hide LOOP;
    var end := if fuel >= x then Returned(Fib(x + 1) % 256) else Timeout;
    if fuel >= x {
      assert Exec(Return(B), o.st, fuel) == end;
      Last(Return(B), Done, o.st, fuel, end);
      First(LOOP, FROM_LOOP.rest, st2, o.st, fuel, end);
    } else {
      Last(LOOP, FROM_LOOP.rest, st2, fuel, end);
    }
    hide Exec, ExecList;
    FibonacciStart(st, st1, st2, fuel, end);
  }

  lemma FibonacciStart(st: Store, st1: Store, st2: Store, fuel: nat, o: Outcome)
    requires ExecList(FROM_LOOP, st2, fuel) == o
    requires Exec(Assign("a", BasicLit(0)), st, fuel) == Normal(st1)
    requires Exec(Assign("b", BasicLit(1)), st1, fuel) == Normal(st2)
    ensures Exec(FIBONACCI, st, fuel) == o
  {
    hide FROM_LOOP;
    First(Assign("b", BasicLit(1)), FROM_LOOP, st1, st2, fuel, o);
    First(Assign("a", BasicLit(0)), FROM_A.rest, st, st1, fuel, o);
    First(Empty, FROM_A, st, st, fuel, o);
    First(Empty, Then(Empty, FROM_A), st, st, fuel, o);
    First(Empty, Then(Empty, Then(Empty, FROM_A)), st, st, fuel, o);
  }

  /** The loop of the test suite: for all bytes the machine returns the Fibonacci number, modulo 256. */
  lemma Fibonacci(x: nat, y: nat, labels: map<string, int>, v: int)
    requires x < 256 && y < 256 && LabelsOf(FIBONACCI_CODE, labels)
    ensures CompileStmt(FIBONACCI, INITIAL_ENV) == Some(Compiled(FIBONACCI_CODE, ENV_C))
    ensures Supported(FIBONACCI) && CompiledFits(FIBONACCI) && Sane(Start(FIBONACCI, labels, x, y))
    ensures MachineReturns(Start(FIBONACCI, labels, x, y), v) <==> v == Fib(x + 1) % 256
  {
    var p := FIBONACCI;
    FibonacciCompiles();
    FibonacciShape();
    assert |FIBONACCI_CODE| == 28 && ENV_C.next == 6;
    var r := Fib(x + 1) % 256;
    hide *;
    ReturnsWithRoom(p, FIBONACCI_CODE, ENV_C, x, y, labels, v);
    forall fuel: nat ensures var o := Exec(p, map["x" := x, "y" := y], fuel); if fuel >= x then o == Returned(r) else o == Timeout {
      FibonacciMeans(x, y, fuel);
    }
    SourceReturnsJust(p, x, y, r, x, v);
  }
}
