/** What the source guarantees where it inlines, environments before and after, and where the labels
    of the inlined block are found. */
module InlineFrames {
  import opened Options
  import opened Mir
  import opened Sequences
  import opened InlineTransform
  import opened InlineStructure
  import opened InlineInvariant

  /** Sizes of the caller's symbol, preg and label tables before the inlining. */
  datatype Sizes = Sizes(syms: nat, regs: nat, labs: nat)

  /** What the source guarantees where it inlines: one call statement with this id, indices
      within the tables, and names that the tables of the caller made fresh. */
  ghost predicate ValidSite(x: Site, p: Program, z: Sizes) {
    && SiteArity(x)
    && x.caller in p && x.callee in p && p[x.callee] == x.target
    && CallerSide(x, p[x.caller], z)
    && CalleeSide(x, z)
  }

  ghost predicate CalleeSide(x: Site, z: Sizes) {
    && AllOk(CalleeCheck, x.target.body)
    && (forall l :: l in Labels(x.target.body) ==> l >= 1)
    && Distinct(x.target.formals)
    && (forall i :: 0 <= i < |x.target.formals| ==> x.target.formals[i] >= 1)
    && z.syms <= x.o.sym + 1 && z.regs <= x.o.reg + 1 && z.labs <= x.o.lab + 1
    && (!x.reuse ==> z.labs <= x.retLab && x.retLab - x.o.lab !in Labels(x.target.body))
  }

  ghost predicate CallerSide(x: Site, f: Function, z: Sizes) {
    && CountCalls(x.stmtID, f.body) == 1
    && AllOk(CallerCheck(TheCall(x), z.syms, z.regs), f.body)
    && (forall l :: l in Labels(f.body) ==> l < z.labs)
    && (forall i :: 0 <= i < |f.formals| ==> f.formals[i] < z.syms)
    && (x.reuse ==> LabelFollows(x, f.body, x.retLab) && CountLabels(f.body, x.retLab) <= 1)
  }

  function After(x: Site, p: Program): seq<Stmt>
    requires x.caller in p && CountCalls(x.stmtID, p[x.caller].body) > 0
  {
    AfterCall(x, p[x.caller].body)
  }

  // ---------------------------------------------------------------- environments

  ghost predicate Inside(a: Env, b: Env) {
    forall i :: i in a ==> i in b && b[i] == a[i]
  }

  ghost predicate Shifted(a: Env, off: nat, b: Env) {
    forall i :: i in a ==> i + off in b && b[i + off] == a[i]
  }

  ghost predicate Below(a: Env, n: nat) {
    forall i :: i in a ==> i < n
  }

  ghost predicate FromOne(a: Env) {
    forall i :: i in a ==> i >= 1
  }

  lemma {:induction false} EvalInside(e: Expr, l: Env, r: Env, l': Env, r': Env, g: Env)
    requires Inside(l, l') && Inside(r, r') && Eval(e, l, r, g).Some?
    ensures Eval(e, l', r', g) == Eval(e, l, r, g)
  {
    if e.Binary? {
      EvalInside(e.left, l, r, l', r', g);
      EvalInside(e.right, l, r, l', r', g);
    }
  }

  lemma {:induction false} EvalAllInside(es: seq<Expr>, l: Env, r: Env, l': Env, r': Env, g: Env)
    requires Inside(l, l') && Inside(r, r') && EvalAll(es, l, r, g).Some?
    ensures EvalAll(es, l', r', g) == EvalAll(es, l, r, g)
  {
    if es != [] {
      EvalAllInside(es[..|es| - 1], l, r, l', r', g);
      EvalInside(es[|es| - 1], l, r, l', r', g);
    }
  }

  lemma {:induction false} EvalShifted(o: Offsets, e: Expr, l: Env, r: Env, l': Env, r': Env, g: Env)
    requires Shifted(l, o.sym, l') && Shifted(r, o.reg, r') && Eval(e, l, r, g).Some?
    ensures Eval(RenameExpr(o, e), l', r', g) == Eval(e, l, r, g)
  {
    if e.Binary? {
      EvalShifted(o, e.left, l, r, l', r', g);
      EvalShifted(o, e.right, l, r, l', r', g);
    }
  }

  lemma {:induction false} EvalAllShifted(o: Offsets, es: seq<Expr>, l: Env, r: Env, l': Env, r': Env, g: Env)
    requires Shifted(l, o.sym, l') && Shifted(r, o.reg, r') && EvalAll(es, l, r, g).Some?
    ensures EvalAll(RenameExprs(o, es), l', r', g) == EvalAll(es, l, r, g)
  {
    if es != [] {
      EvalAllShifted(o, es[..|es| - 1], l, r, l', r', g);
      EvalShifted(o, es[|es| - 1], l, r, l', r', g);
      var a := RenameExprs(o, es[..|es| - 1]);
      var b := RenameExpr(o, es[|es| - 1]);
      assert (a + [b])[..|a|] == a;
    }
  }

  // ---------------------------------------------------------------- labels of the inlined block

  lemma {:induction false} PrologueLabels(formals: seq<nat>, opnds: seq<Expr>, o: Offsets, n: nat)
    requires n <= |formals| && n <= |opnds|
    ensures Labels(AssignActuals(formals, opnds, o, n)) == {}
  {
    if n > 0 {
      PrologueLabels(formals, opnds, o, n - 1);
      LabelsConcat([Dassign(Local(formals[n - 1] + o.sym), opnds[n - 1])], AssignActuals(formals, opnds, o, n - 1));
    }
  }

  function Head(x: Site): seq<Stmt>
    requires SiteArity(x)
  {
    [Comment] + Prologue(x)
  }

  lemma HeadLabels(x: Site)
    requires SiteArity(x)
    ensures Labels(Head(x)) == {}
  {
    PrologueLabels(x.target.formals, x.opnds, x.o, |x.opnds|);
    var check := if x.target.checksThis && |x.opnds| > 0 then [AssertNonNull(x.opnds[0])] else [];
    LabelsConcat(AssignActuals(x.target.formals, x.opnds, x.o, |x.opnds|), check);
    LabelsConcat([Comment], Prologue(x));
  }

  /** The callee's remaining code as it stands in the caller: the final goto is dropped. */
  function BodyCode(x: Site, code: seq<Stmt>): seq<Stmt>
    requires EndsLike(code, x.target.body)
  {
    if EndsInReturn(x.target.body)
    then InCaller(x, code[..|code| - 1]) + StoreResult(x.dest, RenameStmt(x.o, code[|code| - 1]).opnd)
    else InCaller(x, code)
  }

  lemma BodyCodeConcat(x: Site, a: seq<Stmt>, b: seq<Stmt>)
    requires EndsLike(b, x.target.body)
    ensures EndsLike(a + b, x.target.body)
    ensures BodyCode(x, a + b) == InCaller(x, a) + BodyCode(x, b)
  {
    if EndsInReturn(x.target.body) {
      assert (a + b)[..|a + b| - 1] == a + b[..|b| - 1];
      InCallerConcat(x, a, b[..|b| - 1]);
      Regroup(InCaller(x, a), InCaller(x, b[..|b| - 1]), StoreResult(x.dest, RenameStmt(x.o, b[|b| - 1]).opnd));
    } else {
      InCallerConcat(x, a, b);
    }
  }

  lemma NoLabelsStored(dest: RetDest, opnd: Option<Expr>)
    ensures Labels(StoreResult(dest, opnd)) == {}
  {
  }

  lemma BodyCodeLabels(x: Site, code: seq<Stmt>, l: nat)
    requires EndsLike(code, x.target.body)
    ensures l in Labels(BodyCode(x, code)) <==> l >= x.o.lab && l - x.o.lab in Labels(code)
  {
    if EndsInReturn(x.target.body) {
      var init, last := code[..|code| - 1], code[|code| - 1];
      assert code == init + [last];
      LabelsConcat(init, [last]);
      assert Labels([last]) == {} by { assert [last][1..] == []; }
      InCallerLabels(x, init, l);
      NoLabelsStored(x.dest, RenameStmt(x.o, last).opnd);
      LabelsConcat(InCaller(x, init), StoreResult(x.dest, RenameStmt(x.o, last).opnd));
    } else {
      InCallerLabels(x, code, l);
    }
  }

  lemma FindBodyCode(x: Site, l: nat)
    requires l in Labels(x.target.body)
    ensures EndsLike(FindLabel(x.target.body, l), x.target.body)
    ensures l + x.o.lab in Labels(BodyCode(x, x.target.body))
    ensures FindLabel(BodyCode(x, x.target.body), l + x.o.lab) == BodyCode(x, FindLabel(x.target.body, l))
  {
    var body := x.target.body;
    if EndsInReturn(body) {
      FindKeepsEnd(body, l);
      var init, last := body[..|body| - 1], body[|body| - 1];
      assert body == init + [last];
      LabelsConcat(init, [last]);
      assert Labels([last]) == {} by { assert [last][1..] == []; }
      FindConcatLeft(init, [last], l);
      FindInCaller(x, init, l);
      FindConcatLeft(InCaller(x, init), StoreResult(x.dest, RenameStmt(x.o, last).opnd), l + x.o.lab);
      assert FindLabel(body, l)[..|FindLabel(body, l)| - 1] == FindLabel(init, l);
    } else {
      FindInCaller(x, body, l);
    }
  }

  lemma InlinedParts(x: Site)
    requires SiteArity(x) && x.target.body != []
    ensures Inlined(x) == Head(x) + (BodyCode(x, x.target.body) + Epilogue(x))
  {
    Regroup(Head(x), BodyCode(x, x.target.body), Epilogue(x));
  }

  lemma EpilogueLabels(x: Site, l: nat)
    ensures l in Labels(Epilogue(x)) <==> KeepsLabel(x) && l == x.retLab
  {
    LabelsConcat(if KeepsLabel(x) then [Label(x.retLab)] else [], [Comment]);
    assert Labels([Comment]) == {} by { assert [Comment][1..] == []; }
    assert [Label(x.retLab)][1..] == [];
  }

  lemma InlinedBlockLabels(x: Site, l: nat)
    requires SiteArity(x) && x.target.body != []
    ensures l in Labels(Inlined(x)) <==>
      (l >= x.o.lab && l - x.o.lab in Labels(x.target.body)) || (KeepsLabel(x) && l == x.retLab)
  {
    InlinedParts(x);
    HeadLabels(x);
    LabelsConcat(Head(x), BodyCode(x, x.target.body) + Epilogue(x));
    LabelsConcat(BodyCode(x, x.target.body), Epilogue(x));
    BodyCodeLabels(x, x.target.body, l);
    EpilogueLabels(x, l);
  }

  /** The labels of the caller, of the inlined body and the return label do not clash. */
  lemma LabelsApart(x: Site, p: Program, z: Sizes, l: nat)
    requires ValidSite(x, p, z) && l in Labels(p[x.caller].body)
    ensures l !in Labels(Inlined(x))
  {
    if x.target.body != [] {
      InlinedBlockLabels(x, l);
    }
  }

  lemma ShiftedLabelApart(x: Site, p: Program, z: Sizes, l: nat)
    requires ValidSite(x, p, z) && l in Labels(x.target.body)
    ensures l + x.o.lab !in Labels(p[x.caller].body)
    ensures l + x.o.lab in Labels(Inlined(x))
    ensures EndsLike(FindLabel(x.target.body, l), x.target.body)
    ensures FindLabel(Inlined(x), l + x.o.lab) == BodyCode(x, FindLabel(x.target.body, l)) + Epilogue(x)
  {
    InlinedParts(x);
    HeadLabels(x);
    InlinedBlockLabels(x, l + x.o.lab);
    FindBodyCode(x, l);
    FindConcatLeft(BodyCode(x, x.target.body), Epilogue(x), l + x.o.lab);
    FindConcatRight(Head(x), BodyCode(x, x.target.body) + Epilogue(x), l + x.o.lab);
  }

  lemma KeptLabel(x: Site, p: Program, z: Sizes)
    requires ValidSite(x, p, z) && KeepsLabel(x)
    ensures x.retLab !in Labels(p[x.caller].body)
    ensures x.retLab in Labels(Inlined(x))
    ensures FindLabel(Inlined(x), x.retLab) == [Label(x.retLab), Comment]
  {
    InlinedParts(x);
    HeadLabels(x);
    InlinedBlockLabels(x, x.retLab);
    BodyCodeLabels(x, x.target.body, x.retLab);
    EpilogueLabels(x, x.retLab);
    FindConcatRight(BodyCode(x, x.target.body), Epilogue(x), x.retLab);
    FindConcatRight(Head(x), BodyCode(x, x.target.body) + Epilogue(x), x.retLab);
    assert Epilogue(x) == [Label(x.retLab), Comment];
  }
}
