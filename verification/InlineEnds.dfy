/** Entering and leaving the inlined code. */
module InlineEnds {
  import opened Options
  import opened Mir
  import opened Sequences
  import opened InlineTransform
  import opened InlineStructure
  import opened InlineInvariant
  import opened InlineFrames
  import opened InlineSteps
  import opened InlineMerged

  /** `k` steps of one function that neither calls nor leaves. */
  function RunFrame(p: Program, f: Frame, g: Env, k: nat): Effect {
    if k == 0 then Next(f, g)
    else
      match RunFrame(p, f, g, k - 1)
      case Next(f1, g1) => StepFrame(p, f1, g1)
      case _ => Wrong
  }

  /** `f` comes to `f1` in `k` steps. */
  predicate Reaches(p: Program, f: Frame, g: Env, k: nat, f1: Frame, g1: Env) {
    RunFrame(p, f, g, k) == Next(f1, g1)
  }

  lemma {:induction false} ReachesTrans(p: Program, f: Frame, g: Env, j: nat, f1: Frame, g1: Env, k: nat, f2: Frame,
                                        g2: Env)
    requires Reaches(p, f, g, j, f1, g1) && Reaches(p, f1, g1, k, f2, g2)
    ensures Reaches(p, f, g, j + k, f2, g2)
  {
    hide StepFrame;
    if k > 0 {
      var m := RunFrame(p, f1, g1, k - 1);
      ReachesTrans(p, f, g, j, f1, g1, k - 1, m.frame, m.globals);
    }
  }

  lemma ReachesOne(p: Program, f: Frame, g: Env, f1: Frame, g1: Env)
    requires StepFrame(p, f, g) == Next(f1, g1)
    ensures Reaches(p, f, g, 1, f1, g1)
  {
    hide StepFrame;
    assert RunFrame(p, f, g, 0) == Next(f, g);
  }

  // ---------------------------------------------------------------- leaving

  /** The epilogue is a label, if it is kept, and a comment. */
  lemma RunEpilogue(x: Site, p': Program, f: Frame, more: seq<Stmt>, g: Env) returns (k: nat)
    requires f.code == Epilogue(x) + more
    ensures k >= 1 && Reaches(p', f, g, k, f.(code := more), g)
  {
    if KeepsLabel(x) {
      assert f.code[1..] == [Comment] + more;
      var f1 := f.(code := [Comment] + more);
      ReachesOne(p', f, g, f1, g);
      assert f1.code[1..] == more;
      ReachesOne(p', f1, g, f.(code := more), g);
      ReachesTrans(p', f, g, 1, f1, g, 1, f.(code := more), g);
      k := 2;
    } else {
      assert f.code[1..] == more;
      ReachesOne(p', f, g, f.(code := more), g);
      k := 1;
    }
  }

  /** The caller's effect of taking the result and the inlined store agree. */
  ghost predicate StoreAgree(x: Site, z: Sizes, a: Effect, b: Effect, code: seq<Stmt>, more: seq<Stmt>) {
    && a.Next? && b.Next? && a.globals == b.globals
    && a.frame.fn == x.caller && b.frame.fn == x.caller && a.frame.code == code && b.frame.code == more
    && PlainEnv(x, z, a.frame, b.frame)
  }

  lemma StoreSymbol(x: Site, z: Sizes, fr: Frame, f': Frame, st: StIdx, v: int, code: seq<Stmt>, more: seq<Stmt>,
                    g: Env)
    requires fr.fn == x.caller && f'.fn == x.caller && PlainEnv(x, z, fr, f')
    requires SymOk(CallerCheck(TheCall(x), z.syms, z.regs), st)
    ensures StoreAgree(x, z, Assign(fr, st, v, code, g), Assign(f', st, v, more, g), code, more)
  {
  }

  lemma StoreReg(x: Site, z: Sizes, fr: Frame, f': Frame, r: nat, v: int, code: seq<Stmt>, more: seq<Stmt>, g: Env)
    requires fr.fn == x.caller && f'.fn == x.caller && PlainEnv(x, z, fr, f') && r < z.regs
    ensures StoreAgree(x, z, Next(fr.(code := code, pregs := fr.pregs[r := v]), g),
                       Next(f'.(code := more, pregs := f'.pregs[r := v]), g), code, more)
  {
  }

  /** The store of the inlined code, run in `f'`, does what the call does with the result. */
  lemma StoreStep(x: Site, p': Program, z: Sizes, fr: Frame, f': Frame, e: Expr, v: int, more: seq<Stmt>, g: Env)
    requires fr.fn == x.caller && f'.fn == x.caller && PlainEnv(x, z, fr, f')
    requires DestOk(CallerCheck(TheCall(x), z.syms, z.regs), x.dest) && !x.dest.NoDest?
    requires fr.code != [] && fr.code[0] == TheCall(x)
    requires f'.code == StoreResult(x.dest, Some(e)) + more && Eval(e, f'.locals, f'.pregs, g) == Some(v)
    ensures StoreAgree(x, z, Resume(fr, Some(v), g), StepFrame(p', f', g), fr.code[1..], more)
  {
    hide Eval, PlainEnv, StoreAgree;
    assert f'.code[1..] == more;
    match x.dest
    case ToSymbol(st) => StoreSymbol(x, z, fr, f', st, v, fr.code[1..], more, g);
    case ToReg(r) => StoreReg(x, z, fr, f', r, v, fr.code[1..], more, g);
  }

  /** Storing the result of the callee is what the call does with it. */
  lemma RunStore(x: Site, p: Program, z: Sizes, fc: Frame, fr: Frame, f': Frame, opnd: Option<Expr>, more: seq<Stmt>,
                 g: Env)
    returns (k: nat, fr1: Frame, f1: Frame, g1: Env)
    requires ValidSite(x, p, z) && SiteArity(x) && Paired(x, p, z, fc, fr, f')
    requires f'.code == StoreResult(x.dest, RenameStmt(x.o, Return(opnd)).opnd) + more
    requires DoReturn(fc, opnd, g).Leave?
    ensures Resume(fr, DoReturn(fc, opnd, g).result, g) == Next(fr1, g1)
    ensures fr1.fn == x.caller && f1.fn == x.caller && fr.code != [] && fr1.code == fr.code[1..] && f1.code == more
    ensures PlainEnv(x, z, fr1, f1)
    ensures Reaches(TrProgram(x, p), f', g, k, f1, g1)
  {
    hide ValidSite, Eval, StepFrame, Waits;
    WaitsAfter(x, p, z, fr);
    WaitsWrites(x, p, z, fr);
    WaitsInCaller(x, p, z, fr);
    if opnd.None? || x.dest.NoDest? {
      assert f'.code == more;
      k, fr1, f1, g1 := 0, fr.(code := fr.code[1..]), f', g;
    } else {
      var v := Eval(opnd.value, fc.locals, fc.pregs, g).value;
      EvalShifted(x.o, opnd.value, fc.locals, fc.pregs, f'.locals, f'.pregs, g);
      StoreStep(x, TrProgram(x, p), z, fr, f', RenameExpr(x.o, opnd.value), v, more, g);
      var r := Resume(fr, Some(v), g);
      var b := StepFrame(TrProgram(x, p), f', g);
      k, fr1, f1, g1 := 1, r.frame, b.frame, r.globals;
      ReachesOne(TrProgram(x, p), f', g, f1, g1);
    }
  }

  lemma WaitsInCaller(x: Site, p: Program, z: Sizes, fr: Frame)
    requires ValidSite(x, p, z) && Waits(x, p, z, fr)
    ensures fr.fn == x.caller
  {
  }

  lemma WaitsWrites(x: Site, p: Program, z: Sizes, fr: Frame)
    requires ValidSite(x, p, z) && Waits(x, p, z, fr)
    ensures DestOk(CallerCheck(TheCall(x), z.syms, z.regs), x.dest)
  {
    WaitsAfter(x, p, z, fr);
    assert StmtOk(CallerCheck(TheCall(x), z.syms, z.regs), fr.code[0]);
  }

  /** The goto of a rewritten return comes to what follows the call. */
  lemma RunReturnJump(x: Site, p: Program, z: Sizes, f: Frame, more: seq<Stmt>, g: Env) returns (k: nat)
    requires ValidSite(x, p, z) && SiteArity(x) && f.fn == x.caller && f.code == [Goto(x.retLab)] + more
    requires x.reuse || KeepsLabel(x)
    ensures k >= 1 && Reaches(TrProgram(x, p), f, g, k, f.(code := Tr(x, After(x, p))), g)
  {
    hide AllOk, Labels, Inlined, KeepsLabel, Tr, After;
    var p' := TrProgram(x, p);
    var after := Tr(x, After(x, p));
    SiteHasCall(x, p, z);
    if x.reuse {
      JumpReused(x, p, z);
      ReachesOne(p', f, g, f.(code := after), g);
      k := 1;
    } else {
      JumpKept(x, p, z);
      var f1 := f.(code := [Label(x.retLab), Comment] + after);
      ReachesOne(p', f, g, f1, g);
      assert Epilogue(x) == [Label(x.retLab), Comment];
      var j := RunEpilogue(x, p', f1, after, g);
      ReachesTrans(p', f, g, 1, f1, g, j, f.(code := after), g);
      k := 1 + j;
    }
  }

  lemma JumpReused(x: Site, p: Program, z: Sizes)
    requires ValidSite(x, p, z) && SiteArity(x) && x.reuse
    ensures x.caller in p && x.caller in TrProgram(x, p) && CountCalls(x.stmtID, p[x.caller].body) > 0
    ensures x.retLab in Labels(TrProgram(x, p)[x.caller].body)
    ensures FindLabel(TrProgram(x, p)[x.caller].body, x.retLab) == Tr(x, After(x, p))
  {
    var body := p[x.caller].body;
    ReusedLabel(x, body, x.retLab);
    LabelsApart(x, p, z, x.retLab);
    FindTr(x, body, x.retLab);
  }

  lemma JumpKept(x: Site, p: Program, z: Sizes)
    requires ValidSite(x, p, z) && SiteArity(x) && KeepsLabel(x)
    ensures x.caller in p && x.caller in TrProgram(x, p) && CountCalls(x.stmtID, p[x.caller].body) > 0
    ensures x.retLab in Labels(TrProgram(x, p)[x.caller].body)
    ensures FindLabel(TrProgram(x, p)[x.caller].body, x.retLab) == [Label(x.retLab), Comment] + Tr(x, After(x, p))
  {
    var body := p[x.caller].body;
    KeptLabel(x, p, z);
    FindInlined(x, body, x.retLab);
  }

  lemma Rejoin(x: Site, p: Program, z: Sizes, fr: Frame, fr1: Frame, f1: Frame)
    requires ValidSite(x, p, z) && SiteArity(x) && Waits(x, p, z, fr)
    requires fr1.fn == x.caller && f1.fn == x.caller && fr.code != [] && fr1.code == fr.code[1..]
    requires f1.code == Tr(x, fr1.code) && PlainEnv(x, z, fr1, f1)
    ensures Plain(x, p, z, fr1, f1)
  {
  }

  /** When the callee leaves, the inlined code comes to where the caller goes on. */
  lemma LeaveMerged(x: Site, p: Program, z: Sizes, fc: Frame, fr: Frame, f': Frame, g: Env)
    returns (k: nat, fr1: Frame, f1: Frame, g1: Env)
    requires ValidSite(x, p, z) && Merged(x, p, z, fc, fr, f') && StepFrame(p, fc, g).Leave?
    ensures SiteArity(x)
    ensures Resume(fr, StepFrame(p, fc, g).result, g) == Next(fr1, g1)
    ensures k >= 1 && Reaches(TrProgram(x, p), f', g, k, f1, g1)
    ensures Plain(x, p, z, fr1, f1)
  {
    SiteHasArity(x, p, z);
    if fc.code == [] {
      k, fr1, f1, g1 := FallOff(x, p, z, fc, fr, f', g);
    } else {
      LeavesByReturn(p, fc, g);
      if EndsInReturn(x.target.body) && |fc.code| == 1 {
        k, fr1, f1, g1 := LastReturn(x, p, z, fc, fr, f', g);
      } else {
        k, fr1, f1, g1 := InnerReturn(x, p, z, fc, fr, f', g);
      }
    }
  }

  lemma LeavesByReturn(p: Program, fc: Frame, g: Env)
    requires fc.code != [] && StepFrame(p, fc, g).Leave?
    ensures fc.code[0].Return? && StepFrame(p, fc, g) == DoReturn(fc, fc.code[0].opnd, g)
  {
  }

  lemma FallOff(x: Site, p: Program, z: Sizes, fc: Frame, fr: Frame, f': Frame, g: Env)
    returns (k: nat, fr1: Frame, f1: Frame, g1: Env)
    requires ValidSite(x, p, z) && SiteArity(x) && Merged(x, p, z, fc, fr, f') && fc.code == []
    ensures Resume(fr, None, g) == Next(fr1, g1)
    ensures k >= 1 && Reaches(TrProgram(x, p), f', g, k, f1, g1)
    ensures Plain(x, p, z, fr1, f1)
  {
    hide ValidSite, Epilogue, Waits, StepFrame;
    WaitsAfter(x, p, z, fr);
    WaitsInCaller(x, p, z, fr);
    assert InCaller(x, []) == [];
    fr1, g1 := fr.(code := fr.code[1..]), g;
    var more := Tr(x, fr1.code);
    assert f'.code == Epilogue(x) + more;
    k := RunEpilogue(x, TrProgram(x, p), f', more, g);
    f1 := f'.(code := more);
    Rejoin(x, p, z, fr, fr1, f1);
  }

  lemma LastReturn(x: Site, p: Program, z: Sizes, fc: Frame, fr: Frame, f': Frame, g: Env)
    returns (k: nat, fr1: Frame, f1: Frame, g1: Env)
    requires ValidSite(x, p, z) && SiteArity(x) && Merged(x, p, z, fc, fr, f')
    requires EndsInReturn(x.target.body) && |fc.code| == 1 && fc.code[0].Return?
    requires DoReturn(fc, fc.code[0].opnd, g).Leave?
    ensures Resume(fr, DoReturn(fc, fc.code[0].opnd, g).result, g) == Next(fr1, g1)
    ensures k >= 1 && Reaches(TrProgram(x, p), f', g, k, f1, g1)
    ensures Plain(x, p, z, fr1, f1)
  {
    hide ValidSite, Epilogue, Waits, StepFrame, Resume, DoReturn, MergedEnv;
    WaitsInCaller(x, p, z, fr);
    WaitsAfter(x, p, z, fr);
    assert InCaller(x, []) == [] && fc.code[..0] == [];
    var j, fm, h;
    j, fr1, fm, h := RunStore(x, p, z, fc, fr, f', fc.code[0].opnd, Rest(x, fr), g);
    var more := Tr(x, fr1.code);
    var i := RunEpilogue(x, TrProgram(x, p), fm, more, h);
    f1, g1 := fm.(code := more), h;
    ReachesTrans(TrProgram(x, p), f', g, j, fm, h, i, f1, g1);
    k := j + i;
    Rejoin(x, p, z, fr, fr1, f1);
  }

  lemma InnerReturn(x: Site, p: Program, z: Sizes, fc: Frame, fr: Frame, f': Frame, g: Env)
    returns (k: nat, fr1: Frame, f1: Frame, g1: Env)
    requires ValidSite(x, p, z) && SiteArity(x) && Merged(x, p, z, fc, fr, f')
    requires fc.code != [] && (EndsInReturn(x.target.body) ==> |fc.code| > 1)
    requires fc.code[0].Return? && DoReturn(fc, fc.code[0].opnd, g).Leave?
    ensures Resume(fr, DoReturn(fc, fc.code[0].opnd, g).result, g) == Next(fr1, g1)
    ensures k >= 1 && Reaches(TrProgram(x, p), f', g, k, f1, g1)
    ensures Plain(x, p, z, fr1, f1)
  {
    hide ValidSite, Waits, StepFrame, Resume, DoReturn, MergedEnv, MergedCode, CalleeCode, KeepsLabel, StoreResult;
    MergedHead(x, p, z, fc, fr, f');
    WaitsInCaller(x, p, z, fr);
    WaitsAfter(x, p, z, fr);
    SiteHasCall(x, p, z);
    var opnd := fc.code[0].opnd;
    var more := [Goto(x.retLab)] + MergedCode(x, fr, fc.code[1..]);
    Regroup(StoreResult(x.dest, RenameStmt(x.o, Return(opnd)).opnd), [Goto(x.retLab)], MergedCode(x, fr, fc.code[1..]));
    var j, fm, h;
    j, fr1, fm, h := RunStore(x, p, z, fc, fr, f', opnd, more, g);
    var i := RunReturnJump(x, p, z, fm, MergedCode(x, fr, fc.code[1..]), h);
    f1, g1 := fm.(code := Tr(x, After(x, p))), h;
    ReachesTrans(TrProgram(x, p), f', g, j, fm, h, i, f1, g1);
    k := j + i;
    Rejoin(x, p, z, fr, fr1, f1);
  }

  // ---------------------------------------------------------------- entering

  /** The formals got their values, one assignment after the other. */
  ghost predicate FormalsSet(x: Site, vs: seq<int>, n: nat, locals: Env) {
    n <= |vs| && n <= |x.target.formals| &&
    forall i :: 0 <= i < n ==> x.target.formals[i] + x.o.sym in locals && locals[x.target.formals[i] + x.o.sym] == vs[i]
  }

  /** Nothing but the first `n` formals changed. */
  ghost predicate OthersKept(x: Site, n: nat, a: Env, b: Env) {
    n <= |x.target.formals| &&
    forall k :: k in a && (forall i :: 0 <= i < n ==> x.target.formals[i] + x.o.sym != k) ==> k in b && b[k] == a[k]
  }

  lemma {:induction false} EvalPrefix(es: seq<Expr>, n: nat, l: Env, r: Env, g: Env)
    requires n <= |es| && EvalAll(es, l, r, g).Some?
    ensures EvalAll(es[..n], l, r, g) == Some(EvalAll(es, l, r, g).value[..n])
    decreases |es| - n
  {
    if n < |es| {
      EvalPrefix(es, n + 1, l, r, g);
      assert es[..n + 1][..n] == es[..n];
      var vs := EvalAll(es, l, r, g).value;
      assert vs[..n + 1][..n] == vs[..n];
    } else {
      assert es[..n] == es;
      assert EvalAll(es, l, r, g).value[..n] == EvalAll(es, l, r, g).value;
    }
  }

  lemma EvalAt(es: seq<Expr>, i: nat, l: Env, r: Env, g: Env)
    requires i < |es| && EvalAll(es, l, r, g).Some?
    ensures Eval(es[i], l, r, g) == Some(EvalAll(es, l, r, g).value[i])
  {
    EvalPrefix(es, i + 1, l, r, g);
    assert es[..i + 1][i] == es[i];
  }

  /** The formals are new symbols of the caller. */
  ghost predicate FreshFormals(x: Site, z: Sizes) {
    && Distinct(x.target.formals) && z.syms <= x.o.sym + 1
    && (forall i :: 0 <= i < |x.target.formals| ==> x.target.formals[i] >= 1)
  }

  /** One assignment changes the one formal. */
  lemma AssignOne(x: Site, vs: seq<int>, n: nat, a: Env, b: Env)
    requires 0 < n <= |vs| && n <= |x.target.formals| && Distinct(x.target.formals)
    requires FormalsSet(x, vs, n - 1, b)
    requires OthersKept(x, n - 1, a[x.target.formals[n - 1] + x.o.sym := vs[n - 1]], b)
    ensures FormalsSet(x, vs, n, b) && OthersKept(x, n, a, b)
  {
    var key := x.target.formals[n - 1] + x.o.sym;
    assert key in a[key := vs[n - 1]];
    forall k | k in a && (forall i :: 0 <= i < n ==> x.target.formals[i] + x.o.sym != k)
      ensures k in b && b[k] == a[k]
    {
      assert k in a[key := vs[n - 1]];
    }
  }

  /** The assignments of the actuals do together what passing the parameters at once does. */
  lemma {:induction false} RunAssigns(x: Site, p': Program, z: Sizes, fr: Frame, f: Frame, vs: seq<int>, n: nat,
                                      more: seq<Stmt>, g: Env)
    returns (f1: Frame)
    requires FreshFormals(x, z) && SiteArity(x) && n <= |x.opnds|
    requires Inside(fr.locals, f.locals) && Inside(fr.pregs, f.pregs) && Below(fr.locals, z.syms)
    requires EvalAll(x.opnds, fr.locals, fr.pregs, g) == Some(vs)
    requires f.code == AssignActuals(x.target.formals, x.opnds, x.o, n) + more
    ensures Reaches(p', f, g, n, f1, g)
    ensures f1.fn == f.fn && f1.code == more && f1.pregs == f.pregs
    ensures Inside(fr.locals, f1.locals) && FormalsSet(x, vs, n, f1.locals) && OthersKept(x, n, f.locals, f1.locals)
    decreases n
  {
    hide Eval, EvalAll, StepFrame, OthersKept;
    if n == 0 {
      assert f.code == more;
      assert OthersKept(x, 0, f.locals, f.locals) by { KeptSame(x, f.locals); }
      f1 := f;
    } else {
      var e, key := x.opnds[n - 1], x.target.formals[n - 1] + x.o.sym;
      EvalAt(x.opnds, n - 1, fr.locals, fr.pregs, g);
      EvalInside(e, fr.locals, fr.pregs, f.locals, f.pregs, g);
      var rest := AssignActuals(x.target.formals, x.opnds, x.o, n - 1) + more;
      var f0 := f.(code := rest, locals := f.locals[key := vs[n - 1]]);
      Regroup([Dassign(Local(key), e)], AssignActuals(x.target.formals, x.opnds, x.o, n - 1), more);
      AssignStep(p', f, key, e, vs[n - 1], rest, g);
      ReachesOne(p', f, g, f0, g);
      f1 := RunAssigns(x, p', z, fr, f0, vs, n - 1, more, g);
      ReachesTrans(p', f, g, 1, f0, g, n - 1, f1, g);
      AssignOne(x, vs, n, f.locals, f1.locals);
    }
  }

  lemma KeptSame(x: Site, a: Env)
    ensures OthersKept(x, 0, a, a)
  {
  }

  lemma AssignStep(p': Program, f: Frame, key: nat, e: Expr, v: int, rest: seq<Stmt>, g: Env)
    requires f.code == [Dassign(Local(key), e)] + rest && Eval(e, f.locals, f.pregs, g) == Some(v)
    ensures StepFrame(p', f, g) == Next(f.(code := rest, locals := f.locals[key := v]), g)
  {
    assert f.code[1..] == rest;
  }

  /** The formal whose value a symbol of the callee starts with. */
  lemma {:induction false} BindAt(formals: seq<nat>, vs: seq<int>, k: nat) returns (i: nat)
    requires |formals| == |vs| && k in Bind(formals, vs)
    ensures i < |formals| && formals[i] == k && Bind(formals, vs)[k] == vs[i]
  {
    i := |formals| - 1;
    if k != formals[i] {
      i := BindAt(formals[..i], vs[..i], k);
    }
  }

  /** What the callee starts with is found, shifted, among the caller's symbols. */
  lemma FormalsShifted(x: Site, vs: seq<int>, locals: Env)
    requires SiteArity(x) && |vs| == |x.opnds| && Distinct(x.target.formals)
    requires FormalsSet(x, vs, |vs|, locals)
    requires forall i :: 0 <= i < |x.target.formals| ==> x.target.formals[i] >= 1
    ensures Shifted(Bind(x.target.formals, vs), x.o.sym, locals) && FromOne(Bind(x.target.formals, vs))
  {
    var start := Bind(x.target.formals, vs);
    forall k | k in start
      ensures k >= 1 && k + x.o.sym in locals && locals[k + x.o.sym] == start[k]
    {
      var i := BindAt(x.target.formals, vs, k);
    }
  }

  /** The call, before: the effect of its one statement. */
  lemma CallEffect(x: Site, p: Program, z: Sizes, fr: Frame, g: Env)
    requires ValidSite(x, p, z) && Waits(x, p, z, fr)
    ensures SiteArity(x) && fr.code != [] && StepFrame(p, fr, g) == DoCall(p, fr, x.callee, x.opnds, g)
  {
    WaitsAfter(x, p, z, fr);
  }

  lemma StartOfCallee(x: Site)
    requires x.target.body != [] && AllOk(CalleeCheck, x.target.body)
    ensures CalleeCode(x, x.target.body)
  {
    if !x.reuse && !KeepsLabel(x) {
      NoStrayReturns(x);
    }
  }

  /** Entering: the comment, the assignments, and up to the null check. */
  lemma EnterMerged(x: Site, p: Program, z: Sizes, fr: Frame, f': Frame, vs: seq<int>, g: Env)
    returns (k: nat, f1: Frame)
    requires ValidSite(x, p, z) && SiteArity(x) && x.target.body != []
    requires Waits(x, p, z, fr) && Plain(x, p, z, fr, f')
    requires EvalAll(x.opnds, fr.locals, fr.pregs, g) == Some(vs)
    ensures k >= 1 && Reaches(TrProgram(x, p), f', g, k, f1, g)
    ensures f1.fn == x.caller && f1.pregs == f'.pregs
    ensures Inside(fr.locals, f1.locals) && FormalsSet(x, vs, |vs|, f1.locals)
    ensures fr.code != [] && f1.code == NullCheck(x) + (BodyCode(x, x.target.body) + Rest(x, fr))
  {
    hide AllOk, Labels, BodyCode, Epilogue, StepFrame, EvalAll, CallerSide;
    WaitsInCaller(x, p, z, fr);
    WaitsAfter(x, p, z, fr);
    var p' := TrProgram(x, p);
    EnterCode(x, fr);
    var more := NullCheck(x) + (BodyCode(x, x.target.body) + Rest(x, fr));
    var f0 := f'.(code := AssignActuals(x.target.formals, x.opnds, x.o, |x.opnds|) + more);
    CommentStep(p', f', f0.code, g);
    ReachesOne(p', f', g, f0, g);
    f1 := RunAssigns(x, p', z, fr, f0, vs, |x.opnds|, more, g);
    ReachesTrans(p', f', g, 1, f0, g, |x.opnds|, f1, g);
    k := 1 + |x.opnds|;
  }

  function NullCheck(x: Site): seq<Stmt> {
    if x.target.checksThis && |x.opnds| > 0 then [AssertNonNull(x.opnds[0])] else []
  }

  lemma CommentStep(p': Program, f: Frame, rest: seq<Stmt>, g: Env)
    requires f.code == [Comment] + rest
    ensures StepFrame(p', f, g) == Next(f.(code := rest), g)
  {
    assert f.code[1..] == rest;
  }

  lemma EnterCode(x: Site, fr: Frame)
    requires SiteArity(x) && x.target.body != [] && fr.code != [] && IsTarget(x, fr.code[0])
    ensures Tr(x, fr.code) == [Comment] + (AssignActuals(x.target.formals, x.opnds, x.o, |x.opnds|)
      + (NullCheck(x) + (BodyCode(x, x.target.body) + Rest(x, fr))))
  {
    hide BodyCode, Epilogue, AssignActuals;
    InlinedParts(x);
    var a := AssignActuals(x.target.formals, x.opnds, x.o, |x.opnds|);
    var b, e, t := BodyCode(x, x.target.body), Epilogue(x), Tr(x, fr.code[1..]);
    assert Prologue(x) == a + NullCheck(x);
    assert Tr(x, fr.code) == ([Comment] + (a + NullCheck(x)) + (b + e)) + t;
    assert [Comment] + (a + NullCheck(x)) + (b + e) + t == [Comment] + (a + (NullCheck(x) + (b + (e + t))));
  }
}
