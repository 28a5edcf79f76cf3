/** How renaming, return rewriting and call replacement commute with concatenation, with the
    search for a label, and with the unfolding of if and loop statements. */
module InlineStructure {
  import opened Options
  import opened Mir
  import opened InlineTransform

  // ---------------------------------------------------------------- the callee's side

  /** The callee's statements as they stand in the caller. */
  function InCaller(x: Site, ss: seq<Stmt>): seq<Stmt> {
    UpdateReturns(Rename(x.o, ss), x.dest, x.retLab)
  }

  function InCallerStmt(x: Site, s: Stmt): seq<Stmt> {
    UpdateReturn(RenameStmt(x.o, s), x.dest, x.retLab)
  }

  lemma InCallerCons(x: Site, s: Stmt, rest: seq<Stmt>)
    ensures InCaller(x, [s] + rest) == InCallerStmt(x, s) + InCaller(x, rest)
  {
    assert ([s] + rest)[1..] == rest;
    assert ([RenameStmt(x.o, s)] + Rename(x.o, rest))[1..] == Rename(x.o, rest);
  }

  lemma {:induction false} InCallerConcat(x: Site, a: seq<Stmt>, b: seq<Stmt>)
    ensures InCaller(x, a + b) == InCaller(x, a) + InCaller(x, b)
  {
    if a == [] {
      assert a + b == b;
    } else {
      InCallerCons(x, a[0], a[1..] + b);
      InCallerCons(x, a[0], a[1..]);
      assert [a[0]] + (a[1..] + b) == a + b && [a[0]] + a[1..] == a;
      InCallerConcat(x, a[1..], b);
    }
  }

  /** Renamed labels are the callee's labels shifted by labidxOff, and none is lost. */
  lemma {:induction false} InCallerLabels(x: Site, ss: seq<Stmt>, l: nat)
    ensures l in Labels(InCaller(x, ss)) <==> l >= x.o.lab && l - x.o.lab in Labels(ss)
    decreases ss, 1
  {
    if ss != [] {
      InCallerCons(x, ss[0], ss[1..]);
      assert [ss[0]] + ss[1..] == ss;
      LabelsConcat(InCallerStmt(x, ss[0]), InCaller(x, ss[1..]));
      InCallerStmtLabels(x, ss[0], l);
      InCallerLabels(x, ss[1..], l);
    }
  }

  lemma {:induction false} InCallerStmtLabels(x: Site, s: Stmt, l: nat)
    ensures l in Labels(InCallerStmt(x, s)) <==> l >= x.o.lab && l - x.o.lab in StmtLabels(s)
    decreases s, 0
  {
    match s
    case If(_, t, e) =>
      InCallerLabels(x, t, l);
      InCallerLabels(x, e, l);
    case While(_, _, b) =>
      InCallerLabels(x, b, l);
    case Return(opnd) =>
      NoLabelsInReturn(x, opnd);
    case _ =>
  }

  lemma NoLabelsInReturn(x: Site, opnd: Option<Expr>)
    ensures Labels(InCallerStmt(x, Return(opnd))) == {}
  {
    var store := StoreResult(x.dest, RenameStmt(x.o, Return(opnd)).opnd);
    LabelsConcat(store, [Goto(x.retLab)]);
    assert Labels(store) == {};
  }

  /** Jumping and inlining commute. */
  lemma {:induction false} FindInCaller(x: Site, ss: seq<Stmt>, l: nat)
    requires l in Labels(ss)
    ensures l + x.o.lab in Labels(InCaller(x, ss))
    ensures FindLabel(InCaller(x, ss), l + x.o.lab) == InCaller(x, FindLabel(ss, l))
    decreases ss, 1
  {
    InCallerLabels(x, ss, l + x.o.lab);
    InCallerCons(x, ss[0], ss[1..]);
    assert [ss[0]] + ss[1..] == ss;
    InCallerStmtLabels(x, ss[0], l + x.o.lab);
    if l in StmtLabels(ss[0]) {
      FindInCallerStmt(x, ss[0], l);
      FindConcatLeft(InCallerStmt(x, ss[0]), InCaller(x, ss[1..]), l + x.o.lab);
      InCallerConcat(x, FindInStmt(ss[0], l), ss[1..]);
    } else {
      FindInCaller(x, ss[1..], l);
      FindConcatRight(InCallerStmt(x, ss[0]), InCaller(x, ss[1..]), l + x.o.lab);
    }
  }

  lemma {:induction false} FindInCallerStmt(x: Site, s: Stmt, l: nat)
    requires l in StmtLabels(s)
    ensures l + x.o.lab in Labels(InCallerStmt(x, s))
    ensures FindLabel(InCallerStmt(x, s), l + x.o.lab) == InCaller(x, FindInStmt(s, l))
    decreases s, 0
  {
    InCallerStmtLabels(x, s, l + x.o.lab);
    match s
    case Label(_) =>
      InCallerCons(x, s, []);
      assert [s] + [] == [s];
    case If(_, t, e) =>
      InCallerLabels(x, t, l + x.o.lab);
      FindInCaller(x, if l in Labels(t) then t else e, l);
    case While(_, _, b) =>
      FindInCaller(x, b, l);
      InCallerConcat(x, FindLabel(b, l), [LoopBack(s)]);
      InCallerCons(x, LoopBack(s), []);
      assert [LoopBack(s)] + [] == [LoopBack(s)];
  }

  // ---------------------------------------------------------------- the caller's side

  predicate SiteArity(x: Site) {
    |x.opnds| == |x.target.formals|
  }

  lemma {:induction false} TrConcat(x: Site, a: seq<Stmt>, b: seq<Stmt>)
    requires SiteArity(x)
    ensures Tr(x, a + b) == Tr(x, a) + Tr(x, b)
  {
    hide TrStmt;
    if a == [] {
      assert a + b == b;
    } else {
      TrConcat(x, a[1..], b);
      assert (a + b)[1..] == a[1..] + b;
      Regroup(TrStmt(x, a[0]), Tr(x, a[1..]), Tr(x, b));
    }
  }

  /** How many times the call statement `id` occurs in a list of statements. */
  function CountCalls(id: nat, ss: seq<Stmt>): nat {
    if ss == [] then 0 else CountCall(id, ss[0]) + CountCalls(id, ss[1..])
  }

  function CountCall(id: nat, s: Stmt): nat {
    match s
    case Call(i, _, _, _) => if i == id then 1 else 0
    case If(_, t, e) => CountCalls(id, t) + CountCalls(id, e)
    case While(_, _, b) => CountCalls(id, b)
    case _ => 0
  }

  lemma {:induction false} CallsConcat(id: nat, a: seq<Stmt>, b: seq<Stmt>)
    ensures CountCalls(id, a + b) == CountCalls(id, a) + CountCalls(id, b)
  {
    if a == [] {
      assert a + b == b;
    } else {
      CallsConcat(id, a[1..], b);
      assert (a + b)[1..] == a[1..] + b;
    }
  }

  /** What is left to run after the call, wherever it is nested. */
  function AfterCall(x: Site, ss: seq<Stmt>): seq<Stmt>
    requires CountCalls(x.stmtID, ss) > 0
  {
    if CountCall(x.stmtID, ss[0]) > 0 then AfterCallIn(x, ss[0]) + ss[1..] else AfterCall(x, ss[1..])
  }

  function AfterCallIn(x: Site, s: Stmt): seq<Stmt>
    requires CountCall(x.stmtID, s) > 0
  {
    match s
    case Call(_, _, _, _) => []
    case If(_, t, e) => if CountCalls(x.stmtID, t) > 0 then AfterCall(x, t) else AfterCall(x, e)
    case While(_, _, b) => AfterCall(x, b) + [LoopBack(s)]
  }

  /** A label of the caller stays where it is. */
  lemma {:induction false} TrLabels(x: Site, ss: seq<Stmt>, l: nat)
    requires SiteArity(x) && l !in Labels(Inlined(x))
    ensures l in Labels(Tr(x, ss)) <==> l in Labels(ss)
    decreases ss, 1
  {
    hide Inlined;
    if ss != [] {
      LabelsConcat(TrStmt(x, ss[0]), Tr(x, ss[1..]));
      TrStmtLabels(x, ss[0], l);
      TrLabels(x, ss[1..], l);
    }
  }

  lemma {:induction false} TrStmtLabels(x: Site, s: Stmt, l: nat)
    requires SiteArity(x) && l !in Labels(Inlined(x))
    ensures l in Labels(TrStmt(x, s)) <==> l in StmtLabels(s)
    decreases s, 0
  {
    hide Inlined;
    match s
    case If(_, t, e) =>
      TrLabels(x, t, l);
      TrLabels(x, e, l);
    case While(_, _, b) =>
      TrLabels(x, b, l);
    case _ =>
  }

  lemma {:induction false} FindTr(x: Site, ss: seq<Stmt>, l: nat)
    requires SiteArity(x) && l in Labels(ss) && l !in Labels(Inlined(x))
    ensures l in Labels(Tr(x, ss)) && FindLabel(Tr(x, ss), l) == Tr(x, FindLabel(ss, l))
    decreases ss, 1
  {
    hide Inlined;
    TrLabels(x, ss, l);
    TrStmtLabels(x, ss[0], l);
    if l in StmtLabels(ss[0]) {
      FindTrStmt(x, ss[0], l);
      FindConcatLeft(TrStmt(x, ss[0]), Tr(x, ss[1..]), l);
      TrConcat(x, FindInStmt(ss[0], l), ss[1..]);
    } else {
      FindTr(x, ss[1..], l);
      FindConcatRight(TrStmt(x, ss[0]), Tr(x, ss[1..]), l);
    }
  }

  lemma TrOne(x: Site, s: Stmt)
    requires SiteArity(x)
    ensures Tr(x, [s]) == TrStmt(x, s)
  {
    assert Tr(x, [s]) == TrStmt(x, s) + Tr(x, []);
  }

  lemma {:induction false} FindTrStmt(x: Site, s: Stmt, l: nat)
    requires SiteArity(x) && l in StmtLabels(s) && l !in Labels(Inlined(x))
    ensures l in Labels(TrStmt(x, s)) && FindLabel(TrStmt(x, s), l) == Tr(x, FindInStmt(s, l))
    decreases s, 0
  {
    hide Inlined;
    TrStmtLabels(x, s, l);
    match s
    case Label(_) =>
      TrOne(x, s);
    case If(_, t, e) =>
      TrLabels(x, t, l);
      FindTr(x, if l in Labels(t) then t else e, l);
    case While(_, _, b) =>
      FindTr(x, b, l);
      TrConcat(x, FindLabel(b, l), [LoopBack(s)]);
      TrOne(x, LoopBack(s));
  }

  /** A label of the inlined block is found inside it, and what follows is what followed the call. */
  lemma {:induction false} InlinedLabels(x: Site, ss: seq<Stmt>, l: nat)
    requires SiteArity(x) && l in Labels(Inlined(x)) && l !in Labels(ss)
    ensures l in Labels(Tr(x, ss)) <==> CountCalls(x.stmtID, ss) > 0
    decreases ss, 1
  {
    hide Inlined;
    if ss != [] {
      LabelsConcat(TrStmt(x, ss[0]), Tr(x, ss[1..]));
      InlinedStmtLabels(x, ss[0], l);
      InlinedLabels(x, ss[1..], l);
    }
  }

  lemma {:induction false} InlinedStmtLabels(x: Site, s: Stmt, l: nat)
    requires SiteArity(x) && l in Labels(Inlined(x)) && l !in StmtLabels(s)
    ensures l in Labels(TrStmt(x, s)) <==> CountCall(x.stmtID, s) > 0
    decreases s, 0
  {
    hide Inlined;
    match s
    case If(_, t, e) =>
      InlinedLabels(x, t, l);
      InlinedLabels(x, e, l);
    case While(_, _, b) =>
      InlinedLabels(x, b, l);
    case _ =>
  }

  lemma Regroup(a: seq<Stmt>, b: seq<Stmt>, c: seq<Stmt>)
    ensures (a + b) + c == a + (b + c)
  {
  }

  lemma {:induction false} FindInlined(x: Site, ss: seq<Stmt>, l: nat)
    requires SiteArity(x) && l in Labels(Inlined(x)) && l !in Labels(ss) && CountCalls(x.stmtID, ss) > 0
    ensures l in Labels(Tr(x, ss)) && FindLabel(Tr(x, ss), l) == FindLabel(Inlined(x), l) + Tr(x, AfterCall(x, ss))
    decreases ss, 1
  {
    hide Inlined, TrStmt, FindInStmt, StmtLabels, AfterCallIn;
    InlinedLabels(x, ss, l);
    InlinedStmtLabels(x, ss[0], l);
    if CountCall(x.stmtID, ss[0]) > 0 {
      FindInlinedStmt(x, ss[0], l);
      FindConcatLeft(TrStmt(x, ss[0]), Tr(x, ss[1..]), l);
      TrConcat(x, AfterCallIn(x, ss[0]), ss[1..]);
      Regroup(FindLabel(Inlined(x), l), Tr(x, AfterCallIn(x, ss[0])), Tr(x, ss[1..]));
    } else {
      FindInlined(x, ss[1..], l);
      FindConcatRight(TrStmt(x, ss[0]), Tr(x, ss[1..]), l);
    }
  }

  lemma {:induction false} FindInlinedStmt(x: Site, s: Stmt, l: nat)
    requires SiteArity(x) && l in Labels(Inlined(x)) && l !in StmtLabels(s) && CountCall(x.stmtID, s) > 0
    ensures l in Labels(TrStmt(x, s))
    ensures FindLabel(TrStmt(x, s), l) == FindLabel(Inlined(x), l) + Tr(x, AfterCallIn(x, s))
    decreases s, 0
  {
    hide Inlined;
    InlinedStmtLabels(x, s, l);
    match s
    case Call(_, _, _, _) =>
    case If(_, t, e) =>
      InlinedLabels(x, t, l);
      FindInlined(x, if CountCalls(x.stmtID, t) > 0 then t else e, l);
    case While(_, _, b) =>
      FindInlined(x, b, l);
      TrConcat(x, AfterCall(x, b), [LoopBack(s)]);
      TrOne(x, LoopBack(s));
      assert TrStmt(x, LoopBack(s)) == [LoopBack(TrStmt(x, s)[0])];
  }
}
