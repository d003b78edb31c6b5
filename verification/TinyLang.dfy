/** The supported Go subset, its meaning, and the compiler to stack-machine assembly. */
module TinyLang {
  import opened Wrappers

  // ---- syntax ----

  datatype Token = ADD | SUB | MUL | QUO | EQL | LSS | GTR | OTHER

  datatype Expr =
    | BasicLit(value: int)
    | Ident(name: string)
    | BinaryExpr(op: Token, x: Expr, y: Expr)
    | ParenExpr(inner: Expr)

  datatype Stmt =
    | Empty                                      // a declaration, or an absent else
    | Return(result: Expr)
    | Assign(lhs: string, rhs: Expr)
    | If(cond: Expr, body: Stmt, els: Stmt)
    | For(test: Expr, loop: Stmt)
    | Block(list: Stmts)

  datatype Stmts = Done | Then(first: Stmt, rest: Stmts)

  // ---- meaning ----

  type Store = map<string, int>

  /** Every variable is 0 until it is assigned. */
  function Get(st: Store, name: string): int { if name in st then st[name] else 0 }

  function Bit(b: bool): int { if b then 1 else 0 }

  /** Byte arithmetic; a division by zero has no value. */
  function Apply(op: Token, a: int, b: int): Option<int> {
    match op
    case ADD => Some((a + b) % 256)
    case SUB => Some((a - b) % 256)
    case MUL => Some((a * b) % 256)
    case QUO => if b == 0 then None else Some(a / b)
    case EQL => Some(Bit(a == b))
    case LSS => Some(Bit(a < b))
    case GTR => Some(Bit(a > b))
    case OTHER => None
  }

  function Eval(e: Expr, st: Store): Option<int> {
    match e
    case BasicLit(v) => Some(v % 256)
    case Ident(name) => Some(Get(st, name))
    case BinaryExpr(op, x, y) =>
      (match Eval(x, st)
       case None => None
       case Some(a) =>
         match Eval(y, st)
         case None => None
         case Some(b) => Apply(op, a, b))
    case ParenExpr(x) => Eval(x, st)
  }

  /** How a statement ends: it falls through, returns, faults, or is still looping when the fuel runs out. */
  datatype Outcome = Normal(st: Store) | Returned(v: int) | Fault | Timeout

  function Exec(s: Stmt, st: Store, fuel: nat): Outcome
    decreases fuel, s
  {
    match s
    case Empty => Normal(st)
    case Return(e) => (match Eval(e, st) case None => Fault case Some(v) => Returned(v))
    case Assign(name, e) => (match Eval(e, st) case None => Fault case Some(v) => Normal(st[name := v]))
    case If(c, body, els) =>
      (match Eval(c, st)
       case None => Fault
       case Some(v) => if v != 0 then Exec(body, st, fuel) else Exec(els, st, fuel))
    case For(c, body) =>
      (match Eval(c, st)
       case None => Fault
       case Some(v) =>
         if v == 0 then Normal(st)
         else if fuel == 0 then Timeout
         else match Exec(body, st, fuel - 1)
              case Normal(st') => Exec(s, st', fuel - 1)
              case o => o)
    case Block(list) => ExecList(list, st, fuel)
  }

  function ExecList(ss: Stmts, st: Store, fuel: nat): Outcome
    decreases fuel, ss
  {
    match ss
    case Done => Normal(st)
    case Then(first, rest) =>
      match Exec(first, st, fuel)
      case Normal(st') => ExecList(rest, st', fuel)
      case o => o
  }

  // ---- assembly ----

  datatype BinOp = Add | Sub | Mul | Div | Eq | Lt | Gt | Neq | Leq | Geq

  /** One line of assembly. */
  datatype Instr =
    | Push(addr: int) | Pushi(imm: int) | Pop(addr: int)
    | Bin(op: BinOp)
    | Jump(target: string) | Jeqz(target: string)
    | Label(name: string)
    | Halt

  // ---- the compiler ----

  /** varToMem and nextMemoryLocation. */
  datatype Env = Env(loc: map<string, int>, next: int)

  const INITIAL_ENV := Env(map["x" := 1, "y" := 2], 3)

  /** getOpAsStringBuilder: nothing for any other operator. */
  function OpCode(op: Token): seq<Instr> {
    match op
    case ADD => [Bin(Add)]
    case SUB => [Bin(Sub)]
    case MUL => [Bin(Mul)]
    case QUO => [Bin(Div)]
    case EQL => [Bin(Eq)]
    case LSS => [Bin(Lt)]
    case GTR => [Bin(Gt)]
    case OTHER => []
  }

  /** evalExpr; None is the error "variable does not exist". */
  function CompileExpr(e: Expr, env: Env): Option<seq<Instr>> {
    match e
    case BasicLit(v) => Some([Pushi(v % 256)])
    case Ident(name) => if name in env.loc then Some([Push(env.loc[name])]) else None
    case BinaryExpr(op, x, y) =>
      (match CompileExpr(x, env)
       case None => None
       case Some(cx) =>
         match CompileExpr(y, env)
         case None => None
         case Some(cy) => Some(cx + cy + OpCode(op)))
    case ParenExpr(x) => CompileExpr(x, env)
  }

  datatype Compiled = Compiled(code: seq<Instr>, env: Env)

  /** A new variable takes the next location. */
  function Located(env: Env, name: string): Env {
    if name in env.loc then env else Env(env.loc[name := env.next], env.next + 1)
  }

  /** evalStmt and its five cases. */
  function CompileStmt(s: Stmt, env: Env): Option<Compiled>
    decreases s
  {
    match s
    case Empty => Some(Compiled([], env))
    case Return(e) =>
      (match CompileExpr(e, env)
       case None => None
       case Some(c) => Some(Compiled(c + [Pop(0), Halt], env)))
    case Assign(name, e) =>
      (match CompileExpr(e, env)
       case None => None
       case Some(c) =>
         var env' := Located(env, name);
         Some(Compiled(c + [Pop(env'.loc[name])], env')))
    case If(c, body, els) =>
      (match CompileExpr(c, env)
       case None => None
       case Some(cc) =>
         match CompileStmt(body, env)
         case None => None
         case Some(cb) =>
           match CompileStmt(els, cb.env)
           case None => None
           case Some(ce) =>
             Some(Compiled(cc + [Jeqz("l2"), Label("l1")] + cb.code + [Label("l2")] + ce.code, ce.env)))
    case For(c, body) =>
      (match CompileExpr(c, env)
       case None => None
       case Some(cc) =>
         match CompileStmt(body, env)
         case None => None
         case Some(cb) =>
           Some(Compiled([Jump("l2"), Label("l1")] + cb.code + [Label("l2")] + cc + [Pushi(1), Bin(Neq), Jeqz("l1")],
                         cb.env)))
    case Block(list) => Some(CompileList(list, env))
  }

  /** The block case of evalStmt: an error ends the block, but is not passed on. */
  function CompileList(ss: Stmts, env: Env): Compiled
    decreases ss
  {
    match ss
    case Done => Compiled([], env)
    case Then(first, rest) =>
      match CompileStmt(first, env)
      case None => Compiled([], env)
      case Some(c) =>
        var d := CompileList(rest, c.env);
        Compiled(c.code + d.code, d.env)
  }

  // ---- the programs it is right for ----

  /** No statement of the list is cut off by an error. */
  predicate Clean(s: Stmt, env: Env)
    decreases s
  {
    match s
    case Empty => true
    case Return(e) => CompileExpr(e, env).Some?
    case Assign(_, e) => CompileExpr(e, env).Some?
    case If(c, body, els) =>
      && CompileExpr(c, env).Some? && Clean(body, env) && CompileStmt(body, env).Some?
      && Clean(els, CompileStmt(body, env).value.env)
    case For(c, body) => CompileExpr(c, env).Some? && Clean(body, env)
    case Block(list) => CleanList(list, env)
  }

  predicate CleanList(ss: Stmts, env: Env)
    decreases ss
  {
    match ss
    case Done => true
    case Then(first, rest) =>
      Clean(first, env) && CompileStmt(first, env).Some? && CleanList(rest, CompileStmt(first, env).value.env)
  }

  lemma CleanCompiles(s: Stmt, env: Env)
    requires Clean(s, env)
    ensures CompileStmt(s, env).Some?
    decreases s
  {
    match s
    case If(c, body, els) => CleanCompiles(els, CompileStmt(body, env).value.env);
    case For(c, body) => CleanCompiles(body, env);
    case _ =>
  }

  /** Every path through s ends in a return. */
  predicate Exits(s: Stmt)
    decreases s
  {
    match s
    case Return(_) => true
    case Block(list) => ExitsList(list)
    case _ => false
  }

  predicate ExitsList(ss: Stmts)
    decreases ss
  {
    match ss
    case Done => false
    case Then(first, rest) => Exits(first) || ExitsList(rest)
  }

  predicate IsComparison(e: Expr) {
    match e
    case BinaryExpr(op, _, _) => op == EQL || op == LSS || op == GTR
    case ParenExpr(x) => IsComparison(x)
    case _ => false
  }

  /** An if falls from its body into its else, and a for tests for exactly 1. */
  predicate Shaped(s: Stmt)
    decreases s
  {
    match s
    case If(_, body, els) => Shaped(body) && Shaped(els) && (els == Empty || Exits(body))
    case For(c, body) => Shaped(body) && IsComparison(c)
    case Block(list) => ShapedList(list)
    case _ => true
  }

  predicate ShapedList(ss: Stmts)
    decreases ss
  {
    match ss
    case Done => true
    case Then(first, rest) => Shaped(first) && ShapedList(rest)
  }

  /** Only the seven operators that have an instruction. */
  predicate KnownExpr(e: Expr) {
    match e
    case BinaryExpr(op, x, y) => op != OTHER && KnownExpr(x) && KnownExpr(y)
    case ParenExpr(x) => KnownExpr(x)
    case _ => true
  }

  predicate Known(s: Stmt)
    decreases s
  {
    match s
    case Empty => true
    case Return(e) => KnownExpr(e)
    case Assign(_, e) => KnownExpr(e)
    case If(c, body, els) => KnownExpr(c) && Known(body) && Known(els)
    case For(c, body) => KnownExpr(c) && Known(body)
    case Block(list) => KnownList(list)
  }

  predicate KnownList(ss: Stmts)
    decreases ss
  {
    match ss
    case Done => true
    case Then(first, rest) => Known(first) && KnownList(rest)
  }

  /** The number of ifs and fors; their labels are hardcoded. */
  function Branches(s: Stmt): nat
    decreases s
  {
    match s
    case If(_, body, els) => 1 + Branches(body) + Branches(els)
    case For(_, body) => 1 + Branches(body)
    case Block(list) => BranchesList(list)
    case _ => 0
  }

  function BranchesList(ss: Stmts): nat
    decreases ss
  {
    match ss
    case Done => 0
    case Then(first, rest) => Branches(first) + BranchesList(rest)
  }

  /** A statement that exits never falls through. */
  lemma ExitsNeverFalls(s: Stmt, st: Store, fuel: nat)
    requires Exits(s)
    ensures !Exec(s, st, fuel).Normal?
    decreases s
  {
    if s.Block? {
      ExitsListNeverFalls(s.list, st, fuel);
    }
  }

  lemma ExitsListNeverFalls(ss: Stmts, st: Store, fuel: nat)
    requires ExitsList(ss)
    ensures !ExecList(ss, st, fuel).Normal?
    decreases ss
  {
    var o := Exec(ss.first, st, fuel);
    if Exits(ss.first) {
      ExitsNeverFalls(ss.first, st, fuel);
    } else if o.Normal? {
      ExitsListNeverFalls(ss.rest, o.st, fuel);
    }
  }

  lemma ComparisonIsBit(e: Expr, st: Store)
    requires IsComparison(e) && Eval(e, st).Some?
    ensures Eval(e, st).value == 0 || Eval(e, st).value == 1
  {
  }

  /** An unknown variable silently drops the rest of the block, the return included. */
  lemma BlockSwallowsErrors()
    ensures CompileStmt(Block(Then(Assign("z", Ident("w")), Then(Return(BasicLit(5)), Done))), INITIAL_ENV)
              == Some(Compiled([], INITIAL_ENV))
  {
    assert CompileStmt(Assign("z", Ident("w")), INITIAL_ENV) == None;
  }
}
