/** Two programs just outside the supported subset, and what their code does instead. */
module CompilerLimits {
  import opened Wrappers
  import opened TinyLang
  import opened StackMachine
  import opened CompilerCorrect

  lemma Onward(code: seq<Instr>, cap: nat, a: Config, b: Config, c: Config)
    requires Reaches(code, cap, a, b) && Step(code, cap, b) == Went(c)
    ensures Reaches(code, cap, a, c)
  {
    One(code, cap, b, c);
    Chain(code, cap, a, b, c);
  }

  /** if 1 { z = 1 } else { z = 2 }; return z */
  const FALL_THROUGH := Block(Then(If(BasicLit(1), Assign("z", BasicLit(1)), Assign("z", BasicLit(2))),
                             Then(Return(Ident("z")), Done)))

  const FALL_THROUGH_CODE := [Pushi(1), Jeqz("l2"), Label("l1"), Pushi(1), Pop(3), Label("l2"), Pushi(2), Pop(3),
                            Push(3), Pop(0), Halt]

  lemma FallThroughCompiles()
    ensures CompileStmt(FALL_THROUGH, INITIAL_ENV).Some? && CodeOf(FALL_THROUGH, INITIAL_ENV) == FALL_THROUGH_CODE
  {
    var env := Env(INITIAL_ENV.loc["z" := 3], 4);
    assert "z"[0] != "x"[0] && "z"[0] != "y"[0];
    assert "z" !in INITIAL_ENV.loc;
    assert CompileExpr(BasicLit(1), INITIAL_ENV) == Some([Pushi(1)]);
    assert CompileExpr(BasicLit(2), env) == Some([Pushi(2)]);
    assert CompileExpr(Ident("z"), env) == Some([Push(3)]);
    assert [Pushi(1)] + [Pop(3)] == [Pushi(1), Pop(3)] && [Pushi(2)] + [Pop(3)] == [Pushi(2), Pop(3)];
    assert [Push(3)] + [Pop(0), Halt] == FALL_THROUGH_CODE[8..];
    assert CompileStmt(Assign("z", BasicLit(1)), INITIAL_ENV) == Some(Compiled([Pushi(1), Pop(3)], env));
    assert CompileStmt(Assign("z", BasicLit(2)), env) == Some(Compiled([Pushi(2), Pop(3)], env));
    assert [Pushi(1)] + [Jeqz("l2"), Label("l1")] + [Pushi(1), Pop(3)] + [Label("l2")] + [Pushi(2), Pop(3)]
        == FALL_THROUGH_CODE[..8];
    var branch := If(BasicLit(1), Assign("z", BasicLit(1)), Assign("z", BasicLit(2)));
    assert CompileStmt(branch, INITIAL_ENV) == Some(Compiled(FALL_THROUGH_CODE[..8], env));
    assert CompileStmt(Return(Ident("z")), env) == Some(Compiled(FALL_THROUGH_CODE[8..], env));
    assert CompileList(Then(Return(Ident("z")), Done), env) == Compiled(FALL_THROUGH_CODE[8..], env);
  }

  /** A then-branch that does not return runs on into the else-branch: the source returns 1, the code 2. */
  lemma ElseRunsToo(data: seq<int>) returns (after: seq<int>)
    requires |data| == CELLS
    ensures CompileStmt(FALL_THROUGH, INITIAL_ENV).Some? && CodeOf(FALL_THROUGH, INITIAL_ENV) == FALL_THROUGH_CODE
    ensures !Supported(FALL_THROUGH) && Exec(FALL_THROUGH, map[], 0) == Returned(1)
    ensures Halts(FALL_THROUGH_CODE, 1, Config(0, [], data), 2, 10, after)
  {
    hide *;
    FallThroughCompiles();
    FallThroughUnshaped();
    after := FallThroughRuns(data);
    FallThroughMeans();
  }

  lemma FallThroughMeans()
    ensures Exec(FALL_THROUGH, map[], 0) == Returned(1)
  {
    var st := map["z" := 1];
    assert Exec(FALL_THROUGH.list.first, map[], 0) == Normal(st);
    assert ExecList(FALL_THROUGH.list.rest, st, 0) == Returned(1);
  }

  lemma FallThroughBody(data: seq<int>)
    requires |data| == CELLS
    ensures Reaches(FALL_THROUGH_CODE, 1, Config(0, [], data), Config(5, [], data[3 := 1]))
  {
    hide Target, Reaches;
    var c, s := FALL_THROUGH_CODE, Config(0, [], data);
    TargetL2();
    Stay(c, 1, s);
    Onward(c, 1, s, s, Config(1, [1], data));
    Onward(c, 1, s, Config(1, [1], data), Config(2, [], data));
    Onward(c, 1, s, Config(2, [], data), Config(3, [], data));
    Onward(c, 1, s, Config(3, [], data), Config(4, [1], data));
    Onward(c, 1, s, Config(4, [1], data), Config(5, [], data[3 := 1]));
  }

  lemma FallThroughElse(data: seq<int>)
    requires |data| == CELLS
    ensures Reaches(FALL_THROUGH_CODE, 1, Config(5, [], data), Config(10, [], data[3 := 2][0 := 2]))
  {
    hide Target, Reaches;
    var c, s, d := FALL_THROUGH_CODE, Config(5, [], data), data[3 := 2];
    Stay(c, 1, s);
    Onward(c, 1, s, s, Config(6, [], data));
    Onward(c, 1, s, Config(6, [], data), Config(7, [2], data));
    Onward(c, 1, s, Config(7, [2], data), Config(8, [], d));
    Onward(c, 1, s, Config(8, [], d), Config(9, [2], d));
    Onward(c, 1, s, Config(9, [2], d), Config(10, [], d[0 := 2]));
  }

  lemma FallThroughRuns(data: seq<int>) returns (after: seq<int>)
    requires |data| == CELLS
    ensures Halts(FALL_THROUGH_CODE, 1, Config(0, [], data), 2, 10, after)
  {
    hide Reaches;
    var mid := data[3 := 1];
    after := mid[3 := 2][0 := 2];
    FallThroughBody(data);
    FallThroughElse(mid);
    Chain(FALL_THROUGH_CODE, 1, Config(0, [], data), Config(5, [], mid), Config(10, [], after));
  }

  lemma FallThroughUnshaped()
    ensures !Supported(FALL_THROUGH)
  {
    assert !Shaped(FALL_THROUGH.list.first);
    assert !ShapedList(FALL_THROUGH.list);
  }

  lemma TargetL2()
    ensures Target(FALL_THROUGH_CODE, "l2") >= 0
  {
    TargetIs(FALL_THROUGH_CODE, "l2", 5);
  }

  /** if 0 { return 1 }; if 1 { return 2 }; return 3 */
  const TWO_IFS := Block(Then(If(BasicLit(0), Return(BasicLit(1)), Empty),
                        Then(If(BasicLit(1), Return(BasicLit(2)), Empty),
                        Then(Return(BasicLit(3)), Done))))

  const TWO_IFS_CODE := [Pushi(0), Jeqz("l2"), Label("l1"), Pushi(1), Pop(0), Halt, Label("l2"),
                       Pushi(1), Jeqz("l2"), Label("l1"), Pushi(2), Pop(0), Halt, Label("l2"),
                       Pushi(3), Pop(0), Halt]

  lemma ReturnLiteral(v: int, env: Env)
    requires 0 <= v < 256
    ensures CompileStmt(Return(BasicLit(v)), env) == Some(Compiled([Pushi(v), Pop(0), Halt], env))
  {
    assert [Pushi(v)] + [Pop(0), Halt] == [Pushi(v), Pop(0), Halt];
  }

  lemma IfLiteral(c: int, v: int, env: Env)
    requires 0 <= c < 256 && 0 <= v < 256
    ensures CompileStmt(If(BasicLit(c), Return(BasicLit(v)), Empty), env)
         == Some(Compiled([Pushi(c), Jeqz("l2"), Label("l1"), Pushi(v), Pop(0), Halt, Label("l2")], env))
  {
    ReturnLiteral(v, env);
    assert [Pushi(c)] + [Jeqz("l2"), Label("l1")] + [Pushi(v), Pop(0), Halt] + [Label("l2")] + []
        == [Pushi(c), Jeqz("l2"), Label("l1"), Pushi(v), Pop(0), Halt, Label("l2")];
  }

  lemma TwoIfsCompile()
    ensures CompileStmt(TWO_IFS, INITIAL_ENV).Some? && CodeOf(TWO_IFS, INITIAL_ENV) == TWO_IFS_CODE
  {
    hide CompileStmt;
    IfLiteral(0, 1, INITIAL_ENV);
    IfLiteral(1, 2, INITIAL_ENV);
    ReturnLiteral(3, INITIAL_ENV);
    assert CompileList(TWO_IFS.list.rest.rest, INITIAL_ENV).code == TWO_IFS_CODE[14..];
    assert CompileList(TWO_IFS.list.rest, INITIAL_ENV).code == TWO_IFS_CODE[7..];
    assert CompileList(TWO_IFS.list, INITIAL_ENV).code == TWO_IFS_CODE;
    BlockCompiles(TWO_IFS.list, INITIAL_ENV);
  }

  lemma BlockCompiles(ss: Stmts, env: Env)
    ensures CompileStmt(Block(ss), env) == Some(CompileList(ss, env))
  {
  }

  /** The labels are the same for every branch: the first test jumps over the second if. The source returns 2, the code 3. */
  lemma SecondIfIsSkipped(data: seq<int>)
    requires |data| == CELLS
    ensures CompileStmt(TWO_IFS, INITIAL_ENV).Some? && CodeOf(TWO_IFS, INITIAL_ENV) == TWO_IFS_CODE
    ensures !Supported(TWO_IFS) && Exec(TWO_IFS, map[], 0) == Returned(2)
    ensures Halts(TWO_IFS_CODE, 1, Config(0, [], data), 3, 16, data[0 := 3])
  {
    hide *;
    TwoIfsCompile();
    TwoIfsBranch();
    TwoIfsRun(data);
    TwoIfsMean();
  }

  /** The first test jumps to the last label. */
  lemma TwoIfsJump(data: seq<int>)
    requires |data| == CELLS
    ensures Reaches(TWO_IFS_CODE, 1, Config(0, [], data), Config(13, [], data))
  {
    hide Target, Reaches;
    var c, s := TWO_IFS_CODE, Config(0, [], data);
    TwoIfsTarget();
    Stay(c, 1, s);
    Onward(c, 1, s, s, Config(1, [0], data));
    Onward(c, 1, s, Config(1, [0], data), Config(13, [], data));
  }

  lemma TwoIfsRest(data: seq<int>)
    requires |data| == CELLS
    ensures Reaches(TWO_IFS_CODE, 1, Config(13, [], data), Config(16, [], data[0 := 3]))
  {
    hide Target, Reaches;
    var c, s := TWO_IFS_CODE, Config(13, [], data);
    Stay(c, 1, s);
    Onward(c, 1, s, s, Config(14, [], data));
    Onward(c, 1, s, Config(14, [], data), Config(15, [3], data));
    Onward(c, 1, s, Config(15, [3], data), Config(16, [], data[0 := 3]));
  }

  lemma TwoIfsRun(data: seq<int>)
    requires |data| == CELLS
    ensures Halts(TWO_IFS_CODE, 1, Config(0, [], data), 3, 16, data[0 := 3])
  {
    hide Reaches;
    TwoIfsJump(data);
    TwoIfsRest(data);
    Chain(TWO_IFS_CODE, 1, Config(0, [], data), Config(13, [], data), Config(16, [], data[0 := 3]));
  }

  lemma TwoIfsTarget()
    ensures Target(TWO_IFS_CODE, "l2") == 13
  {
    TargetIs(TWO_IFS_CODE, "l2", 13);
  }

  lemma TwoIfsBranch()
    ensures !Supported(TWO_IFS)
  {
    assert Branches(TWO_IFS.list.first) == 1 && Branches(TWO_IFS.list.rest.first) == 1;
    assert BranchesList(TWO_IFS.list.rest) >= 1;
    assert BranchesList(TWO_IFS.list) >= 2;
  }

  lemma TwoIfsMean()
    ensures Exec(TWO_IFS, map[], 0) == Returned(2)
  {
    assert Exec(TWO_IFS.list.first, map[], 0) == Normal(map[]);
    assert Exec(TWO_IFS.list.rest.first, map[], 0) == Returned(2);
    assert ExecList(TWO_IFS.list.rest, map[], 0) == Returned(2);
  }
}
