/** The inlined callee: two functions before, one after. */
module InlineMerged {
  import opened Mir
  import opened InlineTransform
  import opened InlineStructure
  import opened InlineInvariant
  import opened InlineFrames
  import opened InlineSteps

  /** All of the callee's remaining code but the return whose goto was dropped. */
  function Init(x: Site, code: seq<Stmt>): seq<Stmt> {
    if EndsInReturn(x.target.body) && code != [] then code[..|code| - 1] else code
  }

  ghost predicate CalleeCode(x: Site, code: seq<Stmt>) {
    && EndsLike(code, x.target.body)
    && AllOk(CalleeCheck, code)
    && (!x.reuse && !KeepsLabel(x) ==> AllOk(NoReturnCheck, Init(x, code)))
  }

  ghost predicate MergedEnv(x: Site, z: Sizes, fc: Frame, fr: Frame, f': Frame) {
    && Inside(fr.locals, f'.locals) && Inside(fr.pregs, f'.pregs)
    && Below(fr.locals, z.syms) && Below(fr.pregs, z.regs)
    && Shifted(fc.locals, x.o.sym, f'.locals) && Shifted(fc.pregs, x.o.reg, f'.pregs)
    && FromOne(fc.locals) && FromOne(fc.pregs)
  }

  /** The caller stands on the call while the callee runs. */
  ghost predicate Waits(x: Site, p: Program, z: Sizes, fr: Frame)
    requires ValidSite(x, p, z)
  {
    && AtCall(x, fr)
    && AllOk(CallerCheck(TheCall(x), z.syms, z.regs), fr.code) && Points(x, fr.code, After(x, p))
  }

  /** Before: the callee's frame `fc` on top of the caller's `fr`.  After: `f'` alone. */
  ghost predicate Merged(x: Site, p: Program, z: Sizes, fc: Frame, fr: Frame, f': Frame)
    requires ValidSite(x, p, z)
  {
    && fc.fn == x.callee && f'.fn == x.caller && x.target.body != []
    && Waits(x, p, z, fr) && MergedEnv(x, z, fc, fr, f') && CalleeCode(x, fc.code)
    && f'.code == BodyCode(x, fc.code) + Rest(x, fr)
  }

  /** What follows the inlined body. */
  function Rest(x: Site, fr: Frame): seq<Stmt>
    requires SiteArity(x) && fr.code != []
  {
    Epilogue(x) + Tr(x, fr.code[1..])
  }

  ghost predicate MergedAgree(x: Site, p: Program, z: Sizes, fr: Frame, a: Effect, b: Effect)
    requires ValidSite(x, p, z)
  {
    match a
    case Next(f, g) => b.Next? && b.globals == g && Merged(x, p, z, f, fr, b.frame)
    case Wrong => true
    case Leave(_) => true
    case _ => b == a
  }

  /** `more` is what is left for the merged frame after the statement at hand. */
  function MergedCode(x: Site, fr: Frame, code: seq<Stmt>): seq<Stmt>
    requires SiteArity(x) && fr.code != [] && EndsLike(code, x.target.body)
  {
    BodyCode(x, code) + Rest(x, fr)
  }

  /** The common part of the frames of one step. */
  ghost predicate Paired(x: Site, p: Program, z: Sizes, fc: Frame, fr: Frame, f': Frame)
    requires ValidSite(x, p, z)
  {
    fc.fn == x.callee && f'.fn == x.caller && x.target.body != [] && Waits(x, p, z, fr) && MergedEnv(x, z, fc, fr, f')
  }

  lemma MergedGoOn(x: Site, p: Program, z: Sizes, fc: Frame, fr: Frame, f': Frame, code: seq<Stmt>, g: Env)
    requires ValidSite(x, p, z) && Paired(x, p, z, fc, fr, f') && CalleeCode(x, code)
    ensures SiteArity(x)
    ensures MergedAgree(x, p, z, fr, Next(fc.(code := code), g), Next(f'.(code := MergedCode(x, fr, code)), g))
  {
    SiteHasArity(x, p, z);
    hide ValidSite, Waits, BodyCode, Rest;
  }

  lemma MergedAssign(x: Site, p: Program, z: Sizes, fc: Frame, fr: Frame, f': Frame, st: StIdx, v: int, code: seq<Stmt>,
                     g: Env)
    requires ValidSite(x, p, z) && Paired(x, p, z, fc, fr, f') && CalleeCode(x, code) && SymOk(CalleeCheck, st)
    ensures SiteArity(x)
    ensures MergedAgree(x, p, z, fr, Assign(fc, st, v, code, g),
      Assign(f', RenameSt(x.o, st), v, MergedCode(x, fr, code), g))
  {
    hide CallerSide, Waits, BodyCode, Rest, AllOk, Labels;
  }

  lemma MergedDassign(x: Site, p: Program, z: Sizes, fc: Frame, fr: Frame, f': Frame, st: StIdx, e: Expr,
                      code: seq<Stmt>, g: Env)
    requires ValidSite(x, p, z) && Paired(x, p, z, fc, fr, f') && CalleeCode(x, code) && SymOk(CalleeCheck, st)
    ensures SiteArity(x)
    ensures MergedAgree(x, p, z, fr, DoDassign(fc, st, e, code, g),
                        DoDassign(f', RenameSt(x.o, st), RenameExpr(x.o, e), MergedCode(x, fr, code), g))
  {
    hide ValidSite, Assign, MergedCode, Eval, Merged, CalleeCode, Waits;
    SiteHasArity(x, p, z);
    if Eval(e, fc.locals, fc.pregs, g).Some? {
      EvalShifted(x.o, e, fc.locals, fc.pregs, f'.locals, f'.pregs, g);
      MergedAssign(x, p, z, fc, fr, f', st, Eval(e, fc.locals, fc.pregs, g).value, code, g);
    }
  }

  lemma MergedSetReg(x: Site, p: Program, z: Sizes, fc: Frame, fr: Frame, f': Frame, r: nat, v: int, code: seq<Stmt>,
                     g: Env)
    requires ValidSite(x, p, z) && Paired(x, p, z, fc, fr, f') && CalleeCode(x, code) && r >= 1
    ensures SiteArity(x)
    ensures MergedAgree(x, p, z, fr, Next(fc.(code := code, pregs := fc.pregs[r := v]), g),
                        Next(f'.(code := MergedCode(x, fr, code), pregs := f'.pregs[r + x.o.reg := v]), g))
  {
    hide CallerSide, Waits, BodyCode, Rest, CalleeCode, AllOk, Labels;
  }

  lemma MergedRegassign(x: Site, p: Program, z: Sizes, fc: Frame, fr: Frame, f': Frame, r: nat, e: Expr,
                        code: seq<Stmt>, g: Env)
    requires ValidSite(x, p, z) && Paired(x, p, z, fc, fr, f') && CalleeCode(x, code) && r >= 1
    ensures SiteArity(x)
    ensures MergedAgree(x, p, z, fr, DoRegassign(fc, r, e, code, g),
                        DoRegassign(f', r + x.o.reg, RenameExpr(x.o, e), MergedCode(x, fr, code), g))
  {
    hide ValidSite, MergedCode, Eval, Merged, CalleeCode, Waits;
    SiteHasArity(x, p, z);
    if Eval(e, fc.locals, fc.pregs, g).Some? {
      EvalShifted(x.o, e, fc.locals, fc.pregs, f'.locals, f'.pregs, g);
      MergedSetReg(x, p, z, fc, fr, f', r, Eval(e, fc.locals, fc.pregs, g).value, code, g);
    }
  }

  lemma TestShifted(o: Offsets, f: Frame, f': Frame, c: Expr, g: Env)
    requires Shifted(f.locals, o.sym, f'.locals) && Shifted(f.pregs, o.reg, f'.pregs) && Test(f, c, g).Some?
    ensures Test(f', RenameExpr(o, c), g) == Test(f, c, g)
  {
    EvalShifted(o, c, f.locals, f.pregs, f'.locals, f'.pregs, g);
  }

  lemma MergedBranch(x: Site, p: Program, z: Sizes, fc: Frame, fr: Frame, f': Frame, c: Expr, yes: seq<Stmt>,
                     no: seq<Stmt>, g: Env)
    requires ValidSite(x, p, z) && Paired(x, p, z, fc, fr, f') && CalleeCode(x, yes) && CalleeCode(x, no)
    ensures SiteArity(x)
    ensures MergedAgree(x, p, z, fr, DoBranch(fc, c, yes, no, g),
                        DoBranch(f', RenameExpr(x.o, c), MergedCode(x, fr, yes), MergedCode(x, fr, no), g))
  {
    hide ValidSite, MergedCode, Test, Merged, CalleeCode, Waits;
    SiteHasArity(x, p, z);
    if Test(fc, c, g).Some? {
      TestShifted(x.o, fc, f', c, g);
      MergedGoOn(x, p, z, fc, fr, f', if Test(fc, c, g).value then yes else no, g);
    }
  }

  /** The rest of the callee's code after a jump inside it. */
  lemma JumpCode(x: Site, p: Program, z: Sizes, l: nat)
    requires ValidSite(x, p, z) && l in Labels(x.target.body)
    ensures CalleeCode(x, FindLabel(x.target.body, l))
  {
    hide CallerSide, KeepsLabel;
    var body := x.target.body;
    AllOkFind(CalleeCheck, body, l);
    FindBodyCode(x, l);
    if !x.reuse && !KeepsLabel(x) {
      NoStrayReturns(x);
      if EndsInReturn(body) {
        var last := body[|body| - 1];
        assert body == Init(x, body) + [last];
        LabelsConcat(Init(x, body), [last]);
        assert Labels([last]) == {} by { assert [last][1..] == []; }
        FindConcatLeft(Init(x, body), [last], l);
        assert Init(x, FindLabel(body, l)) == FindLabel(Init(x, body), l);
      }
      AllOkFind(NoReturnCheck, Init(x, body), l);
    }
  }

  lemma NoStrayReturns(x: Site)
    requires !x.reuse && !KeepsLabel(x)
    ensures AllOk(NoReturnCheck, Init(x, x.target.body))
  {
    var body := x.target.body;
    if EndsInReturn(body) {
      var last := body[|body| - 1];
      assert body == Init(x, body) + [last];
      CountConcat(Init(x, body), [last]);
      assert CountReturns([last]) == 1 by { assert [last][1..] == []; }
    }
    CountNoReturns(Init(x, body));
  }

  lemma {:induction false} CountConcat(a: seq<Stmt>, b: seq<Stmt>)
    ensures CountReturns(a + b) == CountReturns(a) + CountReturns(b)
  {
    if a == [] {
      assert a + b == b;
    } else {
      CountConcat(a[1..], b);
      assert (a + b)[1..] == a[1..] + b;
    }
  }

  lemma CalleeCodeConcat(x: Site, a: seq<Stmt>, b: seq<Stmt>)
    requires CalleeCode(x, b) && AllOk(CalleeCheck, a)
    requires !x.reuse && !KeepsLabel(x) ==> AllOk(NoReturnCheck, a)
    ensures CalleeCode(x, a + b) && BodyCode(x, a + b) == InCaller(x, a) + BodyCode(x, b)
  {
    hide KeepsLabel;
    BodyCodeConcat(x, a, b);
    AllOkConcat(CalleeCheck, a, b);
    assert Init(x, a + b) == a + Init(x, b);
    AllOkConcat(NoReturnCheck, a, Init(x, b));
  }

  lemma MergedJump(x: Site, p: Program, z: Sizes, fc: Frame, fr: Frame, f': Frame, l: nat, g: Env)
    requires ValidSite(x, p, z) && SiteArity(x) && Paired(x, p, z, fc, fr, f')
    ensures MergedAgree(x, p, z, fr, JumpTo(p, fc, l, g), JumpTo(TrProgram(x, p), f', l + x.o.lab, g))
  {
    hide MergedEnv, Merged, AllOk, CallerSide, CalleeCode, Points;
    if l in Labels(x.target.body) {
      JumpCode(x, p, z, l);
      ShiftedLabelApart(x, p, z, l);
      SiteHasCall(x, p, z);
      InlinedLabels(x, p[x.caller].body, l + x.o.lab);
      FindInlined(x, p[x.caller].body, l + x.o.lab);
      WaitsAfter(x, p, z, fr);
      Regroup(BodyCode(x, FindLabel(x.target.body, l)), Epilogue(x), Tr(x, After(x, p)));
      MergedGoOn(x, p, z, fc, fr, f', FindLabel(x.target.body, l), g);
    }
  }

  /** Wherever the caller waits, the same statements follow the call. */
  lemma WaitsAfter(x: Site, p: Program, z: Sizes, fr: Frame)
    requires ValidSite(x, p, z) && Waits(x, p, z, fr)
    ensures fr.code != [] && fr.code[0] == TheCall(x) && fr.code[1..] == After(x, p)
  {
    hide CallerSide, After;
    assert StmtOk(CallerCheck(TheCall(x), z.syms, z.regs), fr.code[0]);
    assert AfterCallIn(x, fr.code[0]) == [];
  }

  lemma MergedCondGoto(x: Site, p: Program, z: Sizes, fc: Frame, fr: Frame, f': Frame, onTrue: bool, c: Expr, l: nat,
                       code: seq<Stmt>, g: Env)
    requires ValidSite(x, p, z) && SiteArity(x) && Paired(x, p, z, fc, fr, f') && CalleeCode(x, code)
    ensures MergedAgree(x, p, z, fr, DoCondGoto(p, fc, onTrue, c, l, code, g),
                        DoCondGoto(TrProgram(x, p), f', onTrue, RenameExpr(x.o, c), l + x.o.lab,
                          MergedCode(x, fr, code), g))
  {
    hide ValidSite, MergedCode, Test, Merged, CalleeCode, Waits, JumpTo, TrProgram;
    if Test(fc, c, g).Some? {
      TestShifted(x.o, fc, f', c, g);
      MergedJump(x, p, z, fc, fr, f', l, g);
      MergedGoOn(x, p, z, fc, fr, f', code, g);
    }
  }

  lemma MergedCall(x: Site, p: Program, z: Sizes, fc: Frame, fr: Frame, f': Frame, callee: nat, es: seq<Expr>, g: Env)
    requires ValidSite(x, p, z) && SiteArity(x) && Paired(x, p, z, fc, fr, f')
    ensures MergedAgree(x, p, z, fr, DoCall(p, fc, callee, es, g),
      DoCall(TrProgram(x, p), f', callee, RenameExprs(x.o, es), g))
  {
    hide ValidSite, EvalAll, Waits;
    if EvalAll(es, fc.locals, fc.pregs, g).Some? {
      EvalAllShifted(x.o, es, fc.locals, fc.pregs, f'.locals, f'.pregs, g);
    }
  }

  lemma MergedAssert(x: Site, p: Program, z: Sizes, fc: Frame, fr: Frame, f': Frame, e: Expr, code: seq<Stmt>, g: Env)
    requires ValidSite(x, p, z) && SiteArity(x) && Paired(x, p, z, fc, fr, f') && CalleeCode(x, code)
    ensures MergedAgree(x, p, z, fr, DoAssertNonNull(fc, e, code, g),
      DoAssertNonNull(f', RenameExpr(x.o, e), MergedCode(x, fr, code), g))
  {
    hide ValidSite, MergedCode, Eval, Merged, CalleeCode, Waits;
    if Eval(e, fc.locals, fc.pregs, g).Some? {
      EvalShifted(x.o, e, fc.locals, fc.pregs, f'.locals, f'.pregs, g);
      MergedGoOn(x, p, z, fc, fr, f', code, g);
    }
  }

  /** The statement at hand is not the end of the inlined code. */
  predicate Inner(x: Site, fc: Frame) {
    fc.code != [] && !fc.code[0].Return?
  }

  lemma MergedHead(x: Site, p: Program, z: Sizes, fc: Frame, fr: Frame, f': Frame)
    requires ValidSite(x, p, z) && Merged(x, p, z, fc, fr, f')
    requires fc.code != [] && (EndsInReturn(x.target.body) ==> |fc.code| > 1)
    ensures SiteArity(x) && CalleeCode(x, fc.code[1..]) && StmtOk(CalleeCheck, fc.code[0])
    ensures fr.code != [] && EndsLike(fc.code[1..], x.target.body)
    ensures !x.reuse && !KeepsLabel(x) ==> StmtOk(NoReturnCheck, fc.code[0])
    ensures f'.code == InCallerStmt(x, fc.code[0]) + MergedCode(x, fr, fc.code[1..])
  {
    SiteHasArity(x, p, z);
    hide ValidSite, Waits, MergedEnv, KeepsLabel;
    var s, rest := fc.code[0], fc.code[1..];
    assert fc.code == [s] + rest;
    if EndsInReturn(x.target.body) {
      assert rest != [];
      assert rest[|rest| - 1] == fc.code[|fc.code| - 1];
      assert Init(x, fc.code) == [s] + Init(x, rest);
    }
    AllOkConcat(CalleeCheck, [s], rest);
    AllOkConcat(NoReturnCheck, [s], Init(x, rest));
    AllOkOne(NoReturnCheck, s);
    BodyCodeConcat(x, [s], rest);
    InCallerOne(x, s);
    Regroup(InCallerStmt(x, s), BodyCode(x, rest), Rest(x, fr));
  }

  lemma InCallerOne(x: Site, s: Stmt)
    ensures InCaller(x, [s]) == InCallerStmt(x, s)
  {
    InCallerCons(x, s, []);
    assert [s] + [] == [s];
    assert InCaller(x, []) == [];
  }

  lemma MergedSimple(x: Site, p: Program, z: Sizes, fc: Frame, fr: Frame, f': Frame, s: Stmt, code: seq<Stmt>, g: Env)
    requires ValidSite(x, p, z) && SiteArity(x) && Paired(x, p, z, fc, fr, f') && CalleeCode(x, code)
    requires StmtOk(CalleeCheck, s) && !s.If? && !s.While? && !s.Return?
    ensures InCallerStmt(x, s) == [RenameStmt(x.o, s)]
    ensures MergedAgree(x, p, z, fr, StepStmt(p, fc, s, code, g),
                        StepStmt(TrProgram(x, p), f', RenameStmt(x.o, s), MergedCode(x, fr, code), g))
  {
    hide ValidSite, MergedCode, Merged, CalleeCode, Waits, JumpTo, TrProgram, Paired, MergedAgree;
    hide DoDassign, DoRegassign, DoCondGoto, DoReturn, DoCall, DoAssertNonNull, DoBranch;
    match s
    case Dassign(st, e) => MergedDassign(x, p, z, fc, fr, f', st, e, code, g);
    case Regassign(r, e) => MergedRegassign(x, p, z, fc, fr, f', r, e, code, g);
    case Goto(l) => MergedJump(x, p, z, fc, fr, f', l, g);
    case CondGoto(onTrue, c, l) => MergedCondGoto(x, p, z, fc, fr, f', onTrue, c, l, code, g);
    case Call(_, callee, es, _) => MergedCall(x, p, z, fc, fr, f', callee, es, g);
    case AssertNonNull(e) => MergedAssert(x, p, z, fc, fr, f', e, code, g);
    case Label(_) => MergedGoOn(x, p, z, fc, fr, f', code, g);
    case Comment => MergedGoOn(x, p, z, fc, fr, f', code, g);
  }

  /** A list of the callee's statements put in front of its remaining code. */
  lemma MergedPrefix(x: Site, fr: Frame, a: seq<Stmt>, code: seq<Stmt>)
    requires SiteArity(x) && fr.code != [] && CalleeCode(x, code) && AllOk(CalleeCheck, a)
    requires !x.reuse && !KeepsLabel(x) ==> AllOk(NoReturnCheck, a)
    ensures CalleeCode(x, a + code) && MergedCode(x, fr, a + code) == InCaller(x, a) + MergedCode(x, fr, code)
  {
    hide KeepsLabel, Epilogue;
    CalleeCodeConcat(x, a, code);
    Regroup(InCaller(x, a), BodyCode(x, code), Rest(x, fr));
  }

  lemma MergedNested(x: Site, p: Program, z: Sizes, fc: Frame, fr: Frame, f': Frame, s: Stmt, code: seq<Stmt>, g: Env)
    requires ValidSite(x, p, z) && SiteArity(x) && Paired(x, p, z, fc, fr, f') && CalleeCode(x, code)
    requires StmtOk(CalleeCheck, s) && (s.If? || s.While?)
    requires !x.reuse && !KeepsLabel(x) ==> StmtOk(NoReturnCheck, s)
    ensures |InCallerStmt(x, s)| == 1
    ensures fr.code != [] && EndsLike(code, x.target.body)
    ensures MergedAgree(x, p, z, fr, StepStmt(p, fc, s, code, g),
                        StepStmt(TrProgram(x, p), f', InCallerStmt(x, s)[0], MergedCode(x, fr, code), g))
  {
    hide ValidSite, MergedCode, Merged, JumpTo, TrProgram, MergedAgree, DoBranch, KeepsLabel, MergedEnv, Points;
    match s
    case If(c, t, e) =>
      MergedPrefix(x, fr, t, code);
      MergedPrefix(x, fr, e, code);
      MergedBranch(x, p, z, fc, fr, f', c, t + code, e + code, g);
    case While(first, c, b) =>
      AllOkOne(CalleeCheck, LoopBack(s));
      AllOkOne(NoReturnCheck, LoopBack(s));
      MergedPrefix(x, fr, [LoopBack(s)], code);
      MergedPrefix(x, fr, b, [LoopBack(s)] + code);
      InCallerOne(x, LoopBack(s));
      if first {
        MergedBranch(x, p, z, fc, fr, f', c, b + ([s] + code), code, g);
      } else {
        MergedGoOn(x, p, z, fc, fr, f', b + ([LoopBack(s)] + code), g);
      }
  }

  /** Inside the inlined callee both sides do the same. */
  lemma MergedStep(x: Site, p: Program, z: Sizes, fc: Frame, fr: Frame, f': Frame, g: Env)
    requires ValidSite(x, p, z) && Merged(x, p, z, fc, fr, f') && Inner(x, fc)
    ensures SiteArity(x)
    ensures !StepFrame(p, fc, g).Leave?
    ensures MergedAgree(x, p, z, fr, StepFrame(p, fc, g), StepFrame(TrProgram(x, p), f', g))
  {
    hide ValidSite, MergedCode, TrProgram, MergedEnv, Waits, CalleeCode, InCallerStmt, MergedAgree, KeepsLabel;
    SiteHasArity(x, p, z);
    MoreToRun(x, p, z, fc, fr, f');
    MergedHead(x, p, z, fc, fr, f');
    var s, rest := fc.code[0], fc.code[1..];
    NoLeave(p, fc, s, rest, g);
    hide StepStmt;
    if s.If? || s.While? {
      MergedNested(x, p, z, fc, fr, f', s, rest, g);
    } else {
      MergedSimple(x, p, z, fc, fr, f', s, rest, g);
    }
    assert f'.code == [InCallerStmt(x, s)[0]] + MergedCode(x, fr, rest);
    assert f'.code[1..] == MergedCode(x, fr, rest);
  }

  lemma MoreToRun(x: Site, p: Program, z: Sizes, fc: Frame, fr: Frame, f': Frame)
    requires ValidSite(x, p, z) && Merged(x, p, z, fc, fr, f') && Inner(x, fc)
    ensures EndsInReturn(x.target.body) ==> |fc.code| > 1
  {
  }

  lemma NoLeave(p: Program, f: Frame, s: Stmt, rest: seq<Stmt>, g: Env)
    requires !s.Return?
    ensures !StepStmt(p, f, s, rest, g).Leave?
  {
  }
}
