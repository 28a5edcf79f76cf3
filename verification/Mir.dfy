/** The statement language the inliner rewrites, and its meaning as a small-step machine.
    What is left to run in a function is a list of statements; a jump replaces it by the list
    that starts at the label, wherever the label is nested. */
module Mir {
  import opened Options

  /** StIdx: a local symbol of the current function, or a global one. */
  datatype StIdx = Local(idx: nat) | Global(idx: nat)

  datatype BinOp = Add | Sub | Mul | Lt | Eq

  datatype Expr =
    | Const(n: int)
    | Dread(st: StIdx)
    | Regread(reg: nat)
    | Binary(op: BinOp, left: Expr, right: Expr)

  /** Where a call puts its result: callassigned to a symbol or a preg, or a plain call. */
  datatype RetDest = NoDest | ToSymbol(st: StIdx) | ToReg(reg: nat)

  datatype Stmt =
    | Dassign(st: StIdx, e: Expr)
    | Regassign(reg: nat, e: Expr)
    | If(cond: Expr, thenPart: seq<Stmt>, elsePart: seq<Stmt>)
    | While(testFirst: bool, cond: Expr, body: seq<Stmt>)  // dowhile when !testFirst
    | Goto(offset: nat)
    | CondGoto(onTrue: bool, cond: Expr, offset: nat)      // brtrue, brfalse
    | Label(labelIdx: nat)
    | Return(opnd: Option<Expr>)
    | Call(stmtID: nat, puIdx: nat, opnds: seq<Expr>, dest: RetDest)
    | AssertNonNull(uOpnd: Expr)
    | Comment

  /** `checksThis`: the first formal is `this`, so that a call on null throws. */
  datatype Function = Function(body: seq<Stmt>, formals: seq<nat>, checksThis: bool)

  type Program = map<nat, Function>

  type Env = map<nat, int>

  // ---------------------------------------------------------------- expressions

  function Apply(op: BinOp, x: int, y: int): int {
    match op
    case Add => x + y
    case Sub => x - y
    case Mul => x * y
    case Lt => if x < y then 1 else 0
    case Eq => if x == y then 1 else 0
  }

  /** None: a symbol or preg is read that was never assigned. */
  function Eval(e: Expr, locals: Env, pregs: Env, globals: Env): Option<int> {
    match e
    case Const(n) => Some(n)
    case Dread(Local(i)) => if i in locals then Some(locals[i]) else None
    case Dread(Global(i)) => if i in globals then Some(globals[i]) else None
    case Regread(r) => if r in pregs then Some(pregs[r]) else None
    case Binary(op, a, b) =>
      var x := Eval(a, locals, pregs, globals);
      var y := Eval(b, locals, pregs, globals);
      if x.Some? && y.Some? then Some(Apply(op, x.value, y.value)) else None
  }

  function EvalAll(es: seq<Expr>, locals: Env, pregs: Env, globals: Env): (r: Option<seq<int>>)
    ensures r.Some? ==> |r.value| == |es|
  {
    if es == [] then Some([])
    else
      var rest := EvalAll(es[..|es| - 1], locals, pregs, globals);
      var v := Eval(es[|es| - 1], locals, pregs, globals);
      if rest.Some? && v.Some? then Some(rest.value + [v.value]) else None
  }

  // ---------------------------------------------------------------- labels

  function Labels(ss: seq<Stmt>): set<nat> {
    if ss == [] then {} else StmtLabels(ss[0]) + Labels(ss[1..])
  }

  function StmtLabels(s: Stmt): set<nat> {
    match s
    case Label(l) => {l}
    case If(_, t, e) => Labels(t) + Labels(e)
    case While(_, _, b) => Labels(b)
    case _ => {}
  }

  /** What a loop statement leaves behind its body. */
  function LoopBack(s: Stmt): Stmt
    requires s.While?
  {
    While(true, s.cond, s.body)
  }

  /** What is left to run after a jump to `l`: from the label, through everything around it. */
  function FindLabel(ss: seq<Stmt>, l: nat): seq<Stmt>
    requires l in Labels(ss)
  {
    if l in StmtLabels(ss[0]) then FindInStmt(ss[0], l) + ss[1..] else FindLabel(ss[1..], l)
  }

  function FindInStmt(s: Stmt, l: nat): seq<Stmt>
    requires l in StmtLabels(s)
  {
    match s
    case Label(_) => [s]
    case If(_, t, e) => if l in Labels(t) then FindLabel(t, l) else FindLabel(e, l)
    case While(_, _, b) => FindLabel(b, l) + [LoopBack(s)]
  }

  // ---------------------------------------------------------------- one step

  datatype Frame = Frame(fn: nat, code: seq<Stmt>, locals: Env, pregs: Env)

  /** What one statement does to the running function. */
  datatype Effect =
    | Next(frame: Frame, globals: Env)
    | Invoke(puIdx: nat, args: seq<int>)
    | Leave(result: Option<int>)
    | Trap
    | Wrong

  function Assign(f: Frame, st: StIdx, v: int, rest: seq<Stmt>, globals: Env): Effect {
    match st
    case Local(i) => Next(f.(code := rest, locals := f.locals[i := v]), globals)
    case Global(i) => Next(f.(code := rest), globals[i := v])
  }

  function JumpTo(p: Program, f: Frame, l: nat, globals: Env): Effect {
    if f.fn in p && l in Labels(p[f.fn].body) then Next(f.(code := FindLabel(p[f.fn].body, l)), globals) else Wrong
  }

  function Test(f: Frame, c: Expr, globals: Env): Option<bool> {
    var v := Eval(c, f.locals, f.pregs, globals);
    if v.Some? then Some(v.value != 0) else None
  }

  function DoDassign(f: Frame, st: StIdx, e: Expr, rest: seq<Stmt>, globals: Env): Effect {
    var v := Eval(e, f.locals, f.pregs, globals);
    if v.Some? then Assign(f, st, v.value, rest, globals) else Wrong
  }

  function DoRegassign(f: Frame, r: nat, e: Expr, rest: seq<Stmt>, globals: Env): Effect {
    var v := Eval(e, f.locals, f.pregs, globals);
    if v.Some? then Next(f.(code := rest, pregs := f.pregs[r := v.value]), globals) else Wrong
  }

  /** Goes on with one of two lists. */
  function DoBranch(f: Frame, c: Expr, yes: seq<Stmt>, no: seq<Stmt>, globals: Env): Effect {
    var b := Test(f, c, globals);
    if b.Some? then Next(f.(code := if b.value then yes else no), globals) else Wrong
  }

  function DoCondGoto(p: Program, f: Frame, onTrue: bool, c: Expr, l: nat, rest: seq<Stmt>, globals: Env): Effect {
    var b := Test(f, c, globals);
    if b.None? then Wrong
    else if b.value == onTrue then JumpTo(p, f, l, globals)
    else Next(f.(code := rest), globals)
  }

  function DoReturn(f: Frame, opnd: Option<Expr>, globals: Env): Effect {
    if opnd.None? then Leave(None)
    else
      var v := Eval(opnd.value, f.locals, f.pregs, globals);
      if v.Some? then Leave(v) else Wrong
  }

  function DoCall(p: Program, f: Frame, callee: nat, es: seq<Expr>, globals: Env): Effect {
    var vs := EvalAll(es, f.locals, f.pregs, globals);
    if vs.None? || callee !in p || |vs.value| != |p[callee].formals| then Wrong
    else if p[callee].checksThis && |vs.value| > 0 && vs.value[0] == 0 then Trap
    else Invoke(callee, vs.value)
  }

  function DoAssertNonNull(f: Frame, e: Expr, rest: seq<Stmt>, globals: Env): Effect {
    var v := Eval(e, f.locals, f.pregs, globals);
    if v.None? then Wrong else if v.value == 0 then Trap else Next(f.(code := rest), globals)
  }

  function StepStmt(p: Program, f: Frame, s: Stmt, rest: seq<Stmt>, globals: Env): Effect {
    match s
    case Dassign(st, e) => DoDassign(f, st, e, rest, globals)
    case Regassign(r, e) => DoRegassign(f, r, e, rest, globals)
    case If(c, t, e) => DoBranch(f, c, t + rest, e + rest, globals)
    case While(true, c, body) => DoBranch(f, c, body + ([s] + rest), rest, globals)
    case While(false, c, body) => Next(f.(code := body + ([LoopBack(s)] + rest)), globals)
    case Goto(l) => JumpTo(p, f, l, globals)
    case CondGoto(onTrue, c, l) => DoCondGoto(p, f, onTrue, c, l, rest, globals)
    case Label(_) => Next(f.(code := rest), globals)
    case Return(opnd) => DoReturn(f, opnd, globals)
    case Call(_, callee, es, _) => DoCall(p, f, callee, es, globals)
    case AssertNonNull(e) => DoAssertNonNull(f, e, rest, globals)
    case Comment => Next(f.(code := rest), globals)
  }

  /** Falling off the end of a function leaves it without a result. */
  function StepFrame(p: Program, f: Frame, globals: Env): Effect {
    if f.code == [] then Leave(None) else StepStmt(p, f, f.code[0], f.code[1..], globals)
  }

  // ---------------------------------------------------------------- whole programs

  /** The stack of pending functions, the running one first. */
  datatype State =
    | Running(stack: seq<Frame>, globals: Env)
    | Finished(globals: Env)
    | Threw(globals: Env)
    | Stuck

  /** All formals get their values at once. */
  function Bind(formals: seq<nat>, vs: seq<int>): Env
    requires |formals| == |vs|
  {
    if formals == [] then map[]
    else Bind(formals[..|formals| - 1], vs[..|vs| - 1])[formals[|formals| - 1] := vs[|vs| - 1]]
  }

  /** The caller takes the result at the call statement it stands on. */
  function Resume(f: Frame, result: Option<int>, globals: Env): Effect {
    if f.code == [] || !f.code[0].Call? then Wrong
    else if result.None? then Next(f.(code := f.code[1..]), globals)
    else
      match f.code[0].dest
      case NoDest => Next(f.(code := f.code[1..]), globals)
      case ToSymbol(st) => Assign(f, st, result.value, f.code[1..], globals)
      case ToReg(r) => Next(f.(code := f.code[1..], pregs := f.pregs[r := result.value]), globals)
  }

  function Step(p: Program, s: State): State {
    if !s.Running? then s
    else if s.stack == [] then Finished(s.globals)
    else
      match StepFrame(p, s.stack[0], s.globals)
      case Next(f, g) => Running([f] + s.stack[1..], g)
      case Invoke(callee, vs) =>
        if callee in p && |p[callee].formals| == |vs|
        then Running([Frame(callee, p[callee].body, Bind(p[callee].formals, vs), map[])] + s.stack, s.globals)
        else Stuck
      case Leave(v) =>
        if |s.stack| == 1 then Finished(s.globals)
        else
          (match Resume(s.stack[1], v, s.globals)
           case Next(f, g) => Running([f] + s.stack[2..], g)
           case _ => Stuck)
      case Trap => Threw(s.globals)
      case Wrong => Stuck
  }

  function Run(p: Program, s: State, n: nat): State {
    if n == 0 then s else Step(p, Run(p, s, n - 1))
  }

  /** The start of a program: one call of `entry` without arguments. */
  function Start(p: Program, entry: nat, globals: Env): State
    requires entry in p
  {
    Running([Frame(entry, p[entry].body, map[], map[])], globals)
  }

  lemma {:induction false} RunSplit(p: Program, s: State, m: nat, n: nat)
    ensures Run(p, s, m + n) == Run(p, Run(p, s, m), n)
  {
    hide Step;
    if n > 0 {
      RunSplit(p, s, m, n - 1);
    }
  }

  lemma {:induction false} RunEnded(p: Program, s: State, n: nat)
    requires !s.Running?
    ensures Run(p, s, n) == s
  {
    if n > 0 {
      RunEnded(p, s, n - 1);
    }
  }

  // ---------------------------------------------------------------- concatenation

  lemma {:induction false} LabelsConcat(a: seq<Stmt>, b: seq<Stmt>)
    ensures Labels(a + b) == Labels(a) + Labels(b)
  {
    if a == [] {
      assert a + b == b;
    } else {
      LabelsConcat(a[1..], b);
      assert (a + b)[1..] == a[1..] + b;
    }
  }

  lemma {:induction false} FindConcatLeft(a: seq<Stmt>, b: seq<Stmt>, l: nat)
    requires l in Labels(a)
    ensures l in Labels(a + b) && FindLabel(a + b, l) == FindLabel(a, l) + b
  {
    LabelsConcat(a, b);
    assert (a + b)[1..] == a[1..] + b;
    if l !in StmtLabels(a[0]) {
      FindConcatLeft(a[1..], b, l);
    }
  }

  lemma {:induction false} FindConcatRight(a: seq<Stmt>, b: seq<Stmt>, l: nat)
    requires l !in Labels(a) && l in Labels(b)
    ensures l in Labels(a + b) && FindLabel(a + b, l) == FindLabel(b, l)
  {
    LabelsConcat(a, b);
    if a == [] {
      assert a + b == b;
    } else {
      assert (a + b)[1..] == a[1..] + b;
      FindConcatRight(a[1..], b, l);
    }
  }
}
