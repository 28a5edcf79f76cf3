/** What MInline::PerformInline makes of a call statement, as functions on statement lists. */
module InlineTransform {
  import opened Options
  import opened Mir

  /** stidxOff, labidxOff, and the distance of the new pregs from the callee's. */
  datatype Offsets = Offsets(sym: nat, lab: nat, reg: nat)

  // ---------------------------------------------------------------- renaming

  function RenameSt(o: Offsets, st: StIdx): StIdx {
    match st
    case Local(i) => Local(i + o.sym)
    case Global(i) => st
  }

  function RenameExpr(o: Offsets, e: Expr): Expr {
    match e
    case Const(_) => e
    case Dread(st) => Dread(RenameSt(o, st))
    case Regread(r) => Regread(r + o.reg)
    case Binary(op, a, b) => Binary(op, RenameExpr(o, a), RenameExpr(o, b))
  }

  function RenameExprs(o: Offsets, es: seq<Expr>): (r: seq<Expr>)
    ensures |r| == |es|
  {
    if es == [] then [] else RenameExprs(o, es[..|es| - 1]) + [RenameExpr(o, es[|es| - 1])]
  }

  function RenameDest(o: Offsets, d: RetDest): RetDest {
    match d
    case NoDest => d
    case ToSymbol(st) => ToSymbol(RenameSt(o, st))
    case ToReg(r) => ToReg(r + o.reg)
  }

  function Rename(o: Offsets, ss: seq<Stmt>): seq<Stmt> {
    if ss == [] then [] else [RenameStmt(o, ss[0])] + Rename(o, ss[1..])
  }

  function RenameStmt(o: Offsets, s: Stmt): Stmt {
    match s
    case Dassign(st, e) => Dassign(RenameSt(o, st), RenameExpr(o, e))
    case Regassign(r, e) => Regassign(r + o.reg, RenameExpr(o, e))
    case If(c, t, e) => If(RenameExpr(o, c), Rename(o, t), Rename(o, e))
    case While(first, c, b) => While(first, RenameExpr(o, c), Rename(o, b))
    case Goto(l) => Goto(l + o.lab)
    case CondGoto(onTrue, c, l) => CondGoto(onTrue, RenameExpr(o, c), l + o.lab)
    case Label(l) => Label(l + o.lab)
    case Return(None) => s
    case Return(Some(e)) => Return(Some(RenameExpr(o, e)))
    case Call(id, callee, es, d) => Call(id, callee, RenameExprs(o, es), RenameDest(o, d))
    case AssertNonNull(e) => AssertNonNull(RenameExpr(o, e))
    case Comment => s
  }

  // ---------------------------------------------------------------- returns

  /** `return e` stores the result where the call wanted it. */
  function StoreResult(dest: RetDest, opnd: Option<Expr>): seq<Stmt> {
    match dest
    case NoDest => []
    case ToSymbol(st) => if opnd.Some? then [Dassign(st, opnd.value)] else []
    case ToReg(r) => if opnd.Some? then [Regassign(r, opnd.value)] else []
  }

  /** UpdateReturnStmts: every return, at any depth, becomes a store and a goto. */
  function UpdateReturns(ss: seq<Stmt>, dest: RetDest, retLab: nat): seq<Stmt> {
    if ss == [] then [] else UpdateReturn(ss[0], dest, retLab) + UpdateReturns(ss[1..], dest, retLab)
  }

  function UpdateReturn(s: Stmt, dest: RetDest, retLab: nat): seq<Stmt> {
    match s
    case Return(opnd) => StoreResult(dest, opnd) + [Goto(retLab)]
    case If(c, t, e) => [If(c, UpdateReturns(t, dest, retLab), UpdateReturns(e, dest, retLab))]
    case While(first, c, b) => [While(first, c, UpdateReturns(b, dest, retLab))]
    case _ => [s]
  }

  function CountReturns(ss: seq<Stmt>): nat {
    if ss == [] then 0 else CountReturn(ss[0]) + CountReturns(ss[1..])
  }

  function CountReturn(s: Stmt): nat {
    match s
    case Return(_) => 1
    case If(_, t, e) => CountReturns(t) + CountReturns(e)
    case While(_, _, b) => CountReturns(b)
    case _ => 0
  }

  // ---------------------------------------------------------------- the inlined block

  /** One inlining: the call statement, its callee, and what the tables of the caller gave. */
  datatype Site = Site(
    caller: nat, stmtID: nat, callee: nat, target: Function, opnds: seq<Expr>, dest: RetDest,
    o: Offsets, retLab: nat, reuse: bool)  // reuse: the statement after the call is Label(retLab)

  predicate EndsInReturn(ss: seq<Stmt>) {
    ss != [] && ss[|ss| - 1].Return?
  }

  /** The assignments of the actuals, the last formal first (each is inserted before the others). */
  function AssignActuals(formals: seq<nat>, opnds: seq<Expr>, o: Offsets, n: nat): seq<Stmt>
    requires n <= |formals| && n <= |opnds|
  {
    if n == 0 then []
    else [Dassign(Local(formals[n - 1] + o.sym), opnds[n - 1])] + AssignActuals(formals, opnds, o, n - 1)
  }

  function Prologue(x: Site): seq<Stmt>
    requires |x.opnds| == |x.target.formals|
  {
    AssignActuals(x.target.formals, x.opnds, x.o, |x.opnds|)
    + if x.target.checksThis && |x.opnds| > 0 then [AssertNonNull(x.opnds[0])] else []
  }

  /** The renamed body with its returns rewritten; the goto of a final return is dropped. */
  function InlinedBody(x: Site, ss: seq<Stmt>): seq<Stmt> {
    if EndsInReturn(ss)
    then UpdateReturns(Rename(x.o, ss[..|ss| - 1]), x.dest, x.retLab)
         + StoreResult(x.dest, RenameStmt(x.o, ss[|ss| - 1]).opnd)
    else UpdateReturns(Rename(x.o, ss), x.dest, x.retLab)
  }

  /** The return label is kept when something may still jump to it. */
  predicate KeepsLabel(x: Site) {
    !x.reuse && CountReturns(x.target.body) > 0
    && !(EndsInReturn(x.target.body) && CountReturns(x.target.body) == 1)
  }

  function Epilogue(x: Site): seq<Stmt> {
    (if KeepsLabel(x) then [Label(x.retLab)] else []) + [Comment]
  }

  /** What replaces the call statement. */
  function Inlined(x: Site): seq<Stmt>
    requires |x.opnds| == |x.target.formals|
  {
    if x.target.body == [] then []
    else [Comment] + Prologue(x) + InlinedBody(x, x.target.body) + Epilogue(x)
  }

  predicate IsTarget(x: Site, s: Stmt) {
    s.Call? && s.stmtID == x.stmtID
  }

  /** The caller's statements with the call replaced. */
  function Tr(x: Site, ss: seq<Stmt>): seq<Stmt>
    requires |x.opnds| == |x.target.formals|
  {
    if ss == [] then [] else TrStmt(x, ss[0]) + Tr(x, ss[1..])
  }

  function TrStmt(x: Site, s: Stmt): seq<Stmt>
    requires |x.opnds| == |x.target.formals|
  {
    if IsTarget(x, s) then Inlined(x)
    else
      match s
      case If(c, t, e) => [If(c, Tr(x, t), Tr(x, e))]
      case While(first, c, b) => [While(first, c, Tr(x, b))]
      case _ => [s]
  }

  function TrFunction(x: Site, fn: nat, f: Function): Function
    requires |x.opnds| == |x.target.formals|
  {
    if fn == x.caller then f.(body := Tr(x, f.body)) else f
  }

  /** The program after the inlining. */
  function TrProgram(x: Site, p: Program): Program
    requires |x.opnds| == |x.target.formals|
  {
    map fn | fn in p :: TrFunction(x, fn, p[fn])
  }
}
