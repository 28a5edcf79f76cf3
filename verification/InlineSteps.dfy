/** A step of one function, before the inlining and after it. */
module InlineSteps {
  import opened Options
  import opened Mir
  import opened InlineTransform
  import opened InlineStructure
  import opened InlineInvariant
  import opened InlineFrames

  // ---------------------------------------------------------------- functions as they were called

  /** `f'` stands where `f` stood; in the caller the call is replaced, and more symbols may have values. */
  ghost predicate Plain(x: Site, p: Program, z: Sizes, f: Frame, f': Frame)
    requires ValidSite(x, p, z)
  {
    f'.fn == f.fn && f.fn in p && PlainEnv(x, z, f, f') && PlainCode(x, p, z, f.fn, f.code, f'.code)
  }

  ghost predicate PlainEnv(x: Site, z: Sizes, f: Frame, f': Frame) {
    && Inside(f.locals, f'.locals) && Inside(f.pregs, f'.pregs)
    && (f.fn == x.caller ==> Below(f.locals, z.syms) && Below(f.pregs, z.regs))
  }

  ghost predicate PlainCode(x: Site, p: Program, z: Sizes, fn: nat, code: seq<Stmt>, code': seq<Stmt>)
    requires ValidSite(x, p, z)
  {
    if fn == x.caller
    then code' == Tr(x, code) && AllOk(CallerCheck(TheCall(x), z.syms, z.regs), code) && Points(x, code, After(x, p))
    else code' == code
  }

  /** Whether the function is about to make the call that is inlined. */
  predicate AtCall(x: Site, f: Frame) {
    f.fn == x.caller && f.code != [] && IsTarget(x, f.code[0])
  }

  /** The two effects agree, and the frames that follow stay related. */
  ghost predicate PlainAgree(x: Site, p: Program, z: Sizes, a: Effect, b: Effect)
    requires ValidSite(x, p, z)
  {
    match a
    case Next(f, g) => b.Next? && b.globals == g && Plain(x, p, z, f, b.frame)
    case Wrong => true
    case _ => b == a
  }

  /** The statement that stands for `s`. */
  function Same(x: Site, fn: nat, s: Stmt): Stmt
    requires SiteArity(x)
  {
    if fn == x.caller && !IsTarget(x, s) then TrStmt(x, s)[0] else s
  }

  function SameCode(x: Site, fn: nat, ss: seq<Stmt>): seq<Stmt>
    requires SiteArity(x)
  {
    if fn == x.caller then Tr(x, ss) else ss
  }

  ghost predicate SameOk(x: Site, p: Program, z: Sizes, fn: nat, ss: seq<Stmt>)
    requires ValidSite(x, p, z)
  {
    fn == x.caller ==> AllOk(CallerCheck(TheCall(x), z.syms, z.regs), ss) && Points(x, ss, After(x, p))
  }

  lemma SiteHasArity(x: Site, p: Program, z: Sizes)
    requires ValidSite(x, p, z)
    ensures SiteArity(x)
  {
  }

  lemma SiteHasCall(x: Site, p: Program, z: Sizes)
    requires ValidSite(x, p, z)
    ensures x.caller in p && CountCalls(x.stmtID, p[x.caller].body) == 1
  {
  }

  /** Splitting off the statement to be run. */
  lemma PlainHead(x: Site, p: Program, z: Sizes, f: Frame, f': Frame)
    requires ValidSite(x, p, z) && Plain(x, p, z, f, f') && f.code != [] && !AtCall(x, f)
    ensures SiteArity(x) && f'.code == [Same(x, f.fn, f.code[0])] + SameCode(x, f.fn, f.code[1..])
    ensures f'.code[0] == Same(x, f.fn, f.code[0]) && f'.code[1..] == SameCode(x, f.fn, f.code[1..])
    ensures SameOk(x, p, z, f.fn, f.code[1..])
    ensures f.fn == x.caller ==> StmtOk(CallerCheck(TheCall(x), z.syms, z.regs), f.code[0])
  {
    hide After;
  }

  lemma AssignAgree(x: Site, p: Program, z: Sizes, f: Frame, f': Frame, st: StIdx, v: int, rest: seq<Stmt>, g: Env)
    requires ValidSite(x, p, z) && SiteArity(x) && f'.fn == f.fn && f.fn in p && PlainEnv(x, z, f, f')
    requires SameOk(x, p, z, f.fn, rest)
    requires f.fn == x.caller ==> SymOk(CallerCheck(TheCall(x), z.syms, z.regs), st)
    ensures PlainAgree(x, p, z, Assign(f, st, v, rest, g), Assign(f', st, v, SameCode(x, f.fn, rest), g))
  {
    hide ValidSite, Points, AllOk, After, Tr;
  }

  lemma DassignAgree(x: Site, p: Program, z: Sizes, f: Frame, f': Frame, st: StIdx, e: Expr, rest: seq<Stmt>, g: Env)
    requires ValidSite(x, p, z) && SiteArity(x) && f'.fn == f.fn && f.fn in p && PlainEnv(x, z, f, f')
    requires SameOk(x, p, z, f.fn, rest)
    requires f.fn == x.caller ==> SymOk(CallerCheck(TheCall(x), z.syms, z.regs), st)
    ensures PlainAgree(x, p, z, DoDassign(f, st, e, rest, g), DoDassign(f', st, e, SameCode(x, f.fn, rest), g))
  {
    hide ValidSite, SameOk, Assign, SameCode, Eval, Plain;
    if Eval(e, f.locals, f.pregs, g).Some? {
      EvalInside(e, f.locals, f.pregs, f'.locals, f'.pregs, g);
      AssignAgree(x, p, z, f, f', st, Eval(e, f.locals, f.pregs, g).value, rest, g);
    }
  }

  lemma RegassignAgree(x: Site, p: Program, z: Sizes, f: Frame, f': Frame, r: nat, e: Expr, rest: seq<Stmt>, g: Env)
    requires ValidSite(x, p, z) && SiteArity(x) && f'.fn == f.fn && f.fn in p && PlainEnv(x, z, f, f')
    requires SameOk(x, p, z, f.fn, rest)
    requires f.fn == x.caller ==> r < z.regs
    ensures PlainAgree(x, p, z, DoRegassign(f, r, e, rest, g), DoRegassign(f', r, e, SameCode(x, f.fn, rest), g))
  {
    hide ValidSite, Points, AllOk, After, Tr, Eval;
    if Eval(e, f.locals, f.pregs, g).Some? {
      EvalInside(e, f.locals, f.pregs, f'.locals, f'.pregs, g);
    }
  }

  /** Going on with related code in the same environment. */
  lemma GoOn(x: Site, p: Program, z: Sizes, f: Frame, f': Frame, code: seq<Stmt>, g: Env)
    requires ValidSite(x, p, z) && SiteArity(x) && f'.fn == f.fn && f.fn in p && PlainEnv(x, z, f, f')
    requires SameOk(x, p, z, f.fn, code)
    ensures PlainAgree(x, p, z, Next(f.(code := code), g), Next(f'.(code := SameCode(x, f.fn, code)), g))
  {
    hide ValidSite, Points, AllOk, After, Tr;
  }

  lemma TestInside(f: Frame, f': Frame, c: Expr, g: Env)
    requires Inside(f.locals, f'.locals) && Inside(f.pregs, f'.pregs) && Test(f, c, g).Some?
    ensures Test(f', c, g) == Test(f, c, g)
  {
    EvalInside(c, f.locals, f.pregs, f'.locals, f'.pregs, g);
  }

  lemma BranchAgree(x: Site, p: Program, z: Sizes, f: Frame, f': Frame, c: Expr, yes: seq<Stmt>, no: seq<Stmt>, g: Env)
    requires ValidSite(x, p, z) && SiteArity(x) && f'.fn == f.fn && f.fn in p && PlainEnv(x, z, f, f')
    requires SameOk(x, p, z, f.fn, yes) && SameOk(x, p, z, f.fn, no)
    ensures PlainAgree(x, p, z, DoBranch(f, c, yes, no, g),
      DoBranch(f', c, SameCode(x, f.fn, yes), SameCode(x, f.fn, no), g))
  {
    hide ValidSite, SameOk, SameCode, Plain, Test;
    if Test(f, c, g).Some? {
      TestInside(f, f', c, g);
      GoOn(x, p, z, f, f', if Test(f, c, g).value then yes else no, g);
    }
  }

  lemma JumpAgree(x: Site, p: Program, z: Sizes, f: Frame, f': Frame, l: nat, g: Env)
    requires ValidSite(x, p, z) && SiteArity(x) && f'.fn == f.fn && f.fn in p && PlainEnv(x, z, f, f')
    ensures PlainAgree(x, p, z, JumpTo(p, f, l, g), JumpTo(TrProgram(x, p), f', l, g))
  {
    hide PlainEnv, Plain, After;
    var body := p[f.fn].body;
    if l in Labels(body) {
      if f.fn == x.caller {
        LabelsApart(x, p, z, l);
        FindTr(x, body, l);
        AllOkFind(CallerCheck(TheCall(x), z.syms, z.regs), body, l);
        JumpPoints(x, p, z, l);
      }
      GoOn(x, p, z, f, f', FindLabel(body, l), g);
    }
  }

  lemma JumpPoints(x: Site, p: Program, z: Sizes, l: nat)
    requires ValidSite(x, p, z) && l in Labels(p[x.caller].body)
    ensures Points(x, FindLabel(p[x.caller].body, l), After(x, p))
  {
    var body := p[x.caller].body;
    PointsBody(x, body);
    assert body + [] == body;
    PointsFind(x, body, l, [], After(x, p));
    assert FindLabel(body, l) + [] == FindLabel(body, l);
  }

  lemma CondGotoAgree(x: Site, p: Program, z: Sizes, f: Frame, f': Frame, onTrue: bool, c: Expr, l: nat,
                      rest: seq<Stmt>, g: Env)
    requires ValidSite(x, p, z) && SiteArity(x) && f'.fn == f.fn && f.fn in p && PlainEnv(x, z, f, f')
    requires SameOk(x, p, z, f.fn, rest)
    ensures PlainAgree(x, p, z, DoCondGoto(p, f, onTrue, c, l, rest, g),
                       DoCondGoto(TrProgram(x, p), f', onTrue, c, l, SameCode(x, f.fn, rest), g))
  {
    hide ValidSite, SameOk, SameCode, Plain, Test, JumpTo, TrProgram;
    if Test(f, c, g).Some? {
      TestInside(f, f', c, g);
      JumpAgree(x, p, z, f, f', l, g);
      GoOn(x, p, z, f, f', rest, g);
    }
  }

  lemma ReturnAgree(x: Site, p: Program, z: Sizes, f: Frame, f': Frame, opnd: Option<Expr>, g: Env)
    requires ValidSite(x, p, z) && PlainEnv(x, z, f, f')
    ensures PlainAgree(x, p, z, DoReturn(f, opnd, g), DoReturn(f', opnd, g))
  {
    hide ValidSite, Eval;
    if opnd.Some? && Eval(opnd.value, f.locals, f.pregs, g).Some? {
      EvalInside(opnd.value, f.locals, f.pregs, f'.locals, f'.pregs, g);
    }
  }

  lemma CallAgree(x: Site, p: Program, z: Sizes, f: Frame, f': Frame, callee: nat, es: seq<Expr>, g: Env)
    requires ValidSite(x, p, z) && SiteArity(x) && PlainEnv(x, z, f, f')
    ensures PlainAgree(x, p, z, DoCall(p, f, callee, es, g), DoCall(TrProgram(x, p), f', callee, es, g))
  {
    hide ValidSite, EvalAll;
    if EvalAll(es, f.locals, f.pregs, g).Some? {
      EvalAllInside(es, f.locals, f.pregs, f'.locals, f'.pregs, g);
    }
  }

  lemma AssertAgree(x: Site, p: Program, z: Sizes, f: Frame, f': Frame, e: Expr, rest: seq<Stmt>, g: Env)
    requires ValidSite(x, p, z) && SiteArity(x) && f'.fn == f.fn && f.fn in p && PlainEnv(x, z, f, f')
    requires SameOk(x, p, z, f.fn, rest)
    ensures PlainAgree(x, p, z, DoAssertNonNull(f, e, rest, g), DoAssertNonNull(f', e, SameCode(x, f.fn, rest), g))
  {
    hide ValidSite, SameOk, SameCode, Plain, Eval;
    if Eval(e, f.locals, f.pregs, g).Some? {
      EvalInside(e, f.locals, f.pregs, f'.locals, f'.pregs, g);
      GoOn(x, p, z, f, f', rest, g);
    }
  }

  lemma SameConcat(x: Site, fn: nat, a: seq<Stmt>, b: seq<Stmt>)
    requires SiteArity(x)
    ensures SameCode(x, fn, a + b) == SameCode(x, fn, a) + SameCode(x, fn, b)
  {
    TrConcat(x, a, b);
  }

  lemma IfCode(x: Site, p: Program, z: Sizes, fn: nat, s: Stmt, rest: seq<Stmt>)
    requires ValidSite(x, p, z) && SiteArity(x) && s.If? && SameOk(x, p, z, fn, [s] + rest)
    ensures SameOk(x, p, z, fn, s.thenPart + rest) && SameOk(x, p, z, fn, s.elsePart + rest)
    ensures SameCode(x, fn, s.thenPart + rest) == SameCode(x, fn, s.thenPart) + SameCode(x, fn, rest)
    ensures SameCode(x, fn, s.elsePart + rest) == SameCode(x, fn, s.elsePart) + SameCode(x, fn, rest)
    ensures Same(x, fn, s) == If(s.cond, SameCode(x, fn, s.thenPart), SameCode(x, fn, s.elsePart))
  {
    hide After, CallerSide;
    SiteHasCall(x, p, z);
    SameConcat(x, fn, s.thenPart, rest);
    SameConcat(x, fn, s.elsePart, rest);
    if fn == x.caller {
      var k := CallerCheck(TheCall(x), z.syms, z.regs);
      assert ([s] + rest)[1..] == rest && ([s] + rest)[0] == s;
      assert StmtOk(k, s) && AllOk(k, rest);
      AllOkConcat(k, s.thenPart, rest);
      AllOkConcat(k, s.elsePart, rest);
      PointsIf(x, s, rest, After(x, p));
    }
  }

  lemma LoopCode(x: Site, p: Program, z: Sizes, fn: nat, s: Stmt, rest: seq<Stmt>)
    requires ValidSite(x, p, z) && SiteArity(x) && s.While? && SameOk(x, p, z, fn, [s] + rest)
    ensures SameOk(x, p, z, fn, s.body + ([LoopBack(s)] + rest))
    ensures SameCode(x, fn, s.body + ([LoopBack(s)] + rest))
         == SameCode(x, fn, s.body) + ([LoopBack(Same(x, fn, s))] + SameCode(x, fn, rest))
    ensures Same(x, fn, s) == While(s.testFirst, s.cond, SameCode(x, fn, s.body))
  {
    hide After, CallerSide;
    SiteHasCall(x, p, z);
    SameConcat(x, fn, s.body, [LoopBack(s)] + rest);
    SameConcat(x, fn, [LoopBack(s)], rest);
    if fn == x.caller {
      var k := CallerCheck(TheCall(x), z.syms, z.regs);
      TrOne(x, LoopBack(s));
      assert ([s] + rest)[1..] == rest && ([LoopBack(s)] + rest)[1..] == rest && ([s] + rest)[0] == s;
      assert StmtOk(k, s) && StmtOk(k, LoopBack(s)) && AllOk(k, rest);
      AllOkConcat(k, s.body, [LoopBack(s)] + rest);
      PointsLoop(x, s, rest, After(x, p));
    }
  }

  lemma OtherSame(x: Site, fn: nat, s: Stmt)
    requires SiteArity(x) && !s.If? && !s.While? && !(fn == x.caller && IsTarget(x, s))
    ensures Same(x, fn, s) == s
  {
  }

  lemma SimpleAgree(x: Site, p: Program, z: Sizes, f: Frame, f': Frame, s: Stmt, rest: seq<Stmt>, g: Env)
    requires ValidSite(x, p, z) && SiteArity(x) && f'.fn == f.fn && f.fn in p && PlainEnv(x, z, f, f')
    requires SameOk(x, p, z, f.fn, rest)
    requires f.fn == x.caller ==> StmtOk(CallerCheck(TheCall(x), z.syms, z.regs), s)
    requires !s.If? && !s.While?
    ensures PlainAgree(x, p, z, StepStmt(p, f, s, rest, g),
      StepStmt(TrProgram(x, p), f', s, SameCode(x, f.fn, rest), g))
  {
    hide ValidSite, PlainEnv, SameOk, SameCode, PlainAgree, TrProgram, JumpTo;
    hide DoDassign, DoRegassign, DoCondGoto, DoReturn, DoCall, DoAssertNonNull, DoBranch;
    match s
    case Dassign(st, e) => DassignAgree(x, p, z, f, f', st, e, rest, g);
    case Regassign(r, e) => RegassignAgree(x, p, z, f, f', r, e, rest, g);
    case Goto(l) => JumpAgree(x, p, z, f, f', l, g);
    case CondGoto(onTrue, c, l) => CondGotoAgree(x, p, z, f, f', onTrue, c, l, rest, g);
    case Return(opnd) => ReturnAgree(x, p, z, f, f', opnd, g);
    case Call(_, callee, es, _) => CallAgree(x, p, z, f, f', callee, es, g);
    case AssertNonNull(e) => AssertAgree(x, p, z, f, f', e, rest, g);
    case Label(_) => GoOn(x, p, z, f, f', rest, g);
    case Comment => GoOn(x, p, z, f, f', rest, g);
  }

  lemma NestedAgree(x: Site, p: Program, z: Sizes, f: Frame, f': Frame, s: Stmt, rest: seq<Stmt>, g: Env)
    requires ValidSite(x, p, z) && SiteArity(x) && f'.fn == f.fn && f.fn in p && PlainEnv(x, z, f, f')
    requires SameOk(x, p, z, f.fn, [s] + rest) && SameOk(x, p, z, f.fn, rest)
    requires s.If? || s.While?
    ensures PlainAgree(x, p, z, StepStmt(p, f, s, rest, g),
      StepStmt(TrProgram(x, p), f', Same(x, f.fn, s), SameCode(x, f.fn, rest), g))
  {
    hide ValidSite, PlainEnv, SameOk, SameCode, PlainAgree, TrProgram, DoBranch, Same;
    match s
    case If(c, t, e) =>
      IfCode(x, p, z, f.fn, s, rest);
      BranchAgree(x, p, z, f, f', c, t + rest, e + rest, g);
    case While(first, c, b) =>
      LoopCode(x, p, z, f.fn, s, rest);
      if first {
        assert LoopBack(s) == s;
        BranchAgree(x, p, z, f, f', c, b + ([s] + rest), rest, g);
      } else {
        GoOn(x, p, z, f, f', b + ([LoopBack(s)] + rest), g);
      }
  }

  /** A function that was called, not inlined, does the same before and after. */
  lemma PlainStep(x: Site, p: Program, z: Sizes, f: Frame, f': Frame, g: Env)
    requires ValidSite(x, p, z) && Plain(x, p, z, f, f') && !AtCall(x, f)
    ensures SiteArity(x)
    ensures PlainAgree(x, p, z, StepFrame(p, f, g), StepFrame(TrProgram(x, p), f', g))
  {
    hide ValidSite, TrProgram, StepStmt, Same, PlainEnv;
    SiteHasArity(x, p, z);
    if f.code != [] {
      PlainHead(x, p, z, f, f');
      var s, rest := f.code[0], f.code[1..];
      assert f.code == [s] + rest;
      if s.If? || s.While? {
        NestedAgree(x, p, z, f, f', s, rest, g);
      } else {
        OtherSame(x, f.fn, s);
        SimpleAgree(x, p, z, f, f', s, rest, g);
      }
    } else {
      NothingLeft(x, f, f');
    }
  }

  lemma NothingLeft(x: Site, f: Frame, f': Frame)
    requires SiteArity(x) && f.code == []
    ensures Tr(x, f.code) == []
  {
  }
}
