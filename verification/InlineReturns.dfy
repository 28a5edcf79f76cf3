/** Steps of MInline::PerformInline on the cloned body: renaming in three passes, rewriting the
    returns, and the clean-up of the last jump.  mapleall/maple_ipa/src/inline.cpp:179-449. */
module InlineReturns {
  import opened Options
  import opened Mir
  import opened InlineTransform
  import opened InlineStructure
  import opened InlineMerged

  // ---------------------------------------------------------------- renaming in passes

  function Plus(a: Offsets, b: Offsets): Offsets {
    Offsets(a.sym + b.sym, a.lab + b.lab, a.reg + b.reg)
  }

  lemma {:induction false} RenameExprTwice(a: Offsets, b: Offsets, e: Expr)
    ensures RenameExpr(b, RenameExpr(a, e)) == RenameExpr(Plus(a, b), e)
  {
    if e.Binary? {
      RenameExprTwice(a, b, e.left);
      RenameExprTwice(a, b, e.right);
    }
  }

  lemma {:induction false} RenameExprsTwice(a: Offsets, b: Offsets, es: seq<Expr>)
    ensures RenameExprs(b, RenameExprs(a, es)) == RenameExprs(Plus(a, b), es)
  {
    if es != [] {
      var n := |es| - 1;
      RenameExprsTwice(a, b, es[..n]);
      RenameExprTwice(a, b, es[n]);
      assert RenameExprs(a, es)[..n] == RenameExprs(a, es[..n]);
    }
  }

  /** Renaming symbols, labels and pregs one after the other is one renaming. */
  lemma {:induction false} RenameTwice(a: Offsets, b: Offsets, ss: seq<Stmt>)
    ensures Rename(b, Rename(a, ss)) == Rename(Plus(a, b), ss)
    decreases ss, 1
  {
    if ss != [] {
      RenameStmtTwice(a, b, ss[0]);
      RenameTwice(a, b, ss[1..]);
      assert Rename(a, ss)[1..] == Rename(a, ss[1..]);
    }
  }

  lemma {:induction false} RenameStmtTwice(a: Offsets, b: Offsets, s: Stmt)
    ensures RenameStmt(b, RenameStmt(a, s)) == RenameStmt(Plus(a, b), s)
    decreases s, 0
  {
    hide Rename, RenameExprs, RenameExpr;
    match s
    case Dassign(_, e) => RenameExprTwice(a, b, e);
    case Regassign(_, e) => RenameExprTwice(a, b, e);
    case If(c, t, e) =>
      RenameExprTwice(a, b, c);
      RenameTwice(a, b, t);
      RenameTwice(a, b, e);
    case While(_, c, body) =>
      RenameExprTwice(a, b, c);
      RenameTwice(a, b, body);
    case CondGoto(_, c, _) => RenameExprTwice(a, b, c);
    case Return(Some(e)) => RenameExprTwice(a, b, e);
    case Call(_, _, es, _) => RenameExprsTwice(a, b, es);
    case AssertNonNull(e) => RenameExprTwice(a, b, e);
    case _ =>
  }

  /** ReplacePregs finds every preg of the callee's `n` in its map, which has no entry for 0. */
  predicate RegsKnown(n: nat, ss: seq<Stmt>) {
    ss == [] || (StmtRegsKnown(n, ss[0]) && RegsKnown(n, ss[1..]))
  }

  predicate StmtRegsKnown(n: nat, s: Stmt) {
    match s
    case Dassign(_, e) => ExprRegsKnown(n, e)
    case Regassign(r, e) => 1 <= r < n && ExprRegsKnown(n, e)
    case If(c, t, e) => ExprRegsKnown(n, c) && RegsKnown(n, t) && RegsKnown(n, e)
    case While(_, c, b) => ExprRegsKnown(n, c) && RegsKnown(n, b)
    case CondGoto(_, c, _) => ExprRegsKnown(n, c)
    case Return(opnd) => opnd.Some? ==> ExprRegsKnown(n, opnd.value)
    case Call(_, _, es, d) => (forall i :: 0 <= i < |es| ==> ExprRegsKnown(n, es[i])) && (d.ToReg? ==> 1 <= d.reg < n)
    case AssertNonNull(e) => ExprRegsKnown(n, e)
    case _ => true
  }

  predicate ExprRegsKnown(n: nat, e: Expr) {
    match e
    case Regread(r) => 1 <= r < n
    case Binary(_, a, b) => ExprRegsKnown(n, a) && ExprRegsKnown(n, b)
    case _ => true
  }

  // ---------------------------------------------------------------- ReplacePregs

  /** GetNewPregIdx; without an entry the compiler stops. */
  function NewPregIdx(m: map<nat, nat>, r: nat): Option<nat> {
    if r in m then Some(m[r]) else None
  }

  function ReplaceInExpr(m: map<nat, nat>, e: Expr): Option<Expr> {
    match e
    case Regread(r) => if NewPregIdx(m, r).Some? then Some(Regread(NewPregIdx(m, r).value)) else None
    case Binary(op, a, b) =>
      var a', b' := ReplaceInExpr(m, a), ReplaceInExpr(m, b);
      if a'.Some? && b'.Some? then Some(Binary(op, a'.value, b'.value)) else None
    case _ => Some(e)
  }

  function ReplaceInExprs(m: map<nat, nat>, es: seq<Expr>): Option<seq<Expr>> {
    if es == [] then Some([])
    else
      var init, e := ReplaceInExprs(m, es[..|es| - 1]), ReplaceInExpr(m, es[|es| - 1]);
      if init.Some? && e.Some? then Some(init.value + [e.value]) else None
  }

  function ReplaceInDest(m: map<nat, nat>, d: RetDest): Option<RetDest> {
    match d
    case ToReg(r) => if NewPregIdx(m, r).Some? then Some(ToReg(NewPregIdx(m, r).value)) else None
    case _ => Some(d)
  }

  /** Every preg that is written, read or takes a result is looked up in the map. */
  function ReplacePregs(m: map<nat, nat>, ss: seq<Stmt>): Option<seq<Stmt>> {
    if ss == [] then Some([])
    else
      var s, rest := ReplaceInStmt(m, ss[0]), ReplacePregs(m, ss[1..]);
      if s.Some? && rest.Some? then Some([s.value] + rest.value) else None
  }

  function ReplaceInStmt(m: map<nat, nat>, s: Stmt): Option<Stmt> {
    match s
    case Dassign(st, e) =>
      var e' := ReplaceInExpr(m, e);
      if e'.Some? then Some(Dassign(st, e'.value)) else None
    case Regassign(r, e) =>
      var e' := ReplaceInExpr(m, e);
      if NewPregIdx(m, r).Some? && e'.Some? then Some(Regassign(NewPregIdx(m, r).value, e'.value)) else None
    case If(c, t, e) =>
      var c', t', e' := ReplaceInExpr(m, c), ReplacePregs(m, t), ReplacePregs(m, e);
      if c'.Some? && t'.Some? && e'.Some? then Some(If(c'.value, t'.value, e'.value)) else None
    case While(first, c, b) =>
      var c', b' := ReplaceInExpr(m, c), ReplacePregs(m, b);
      if c'.Some? && b'.Some? then Some(While(first, c'.value, b'.value)) else None
    case CondGoto(onTrue, c, l) =>
      var c' := ReplaceInExpr(m, c);
      if c'.Some? then Some(CondGoto(onTrue, c'.value, l)) else None
    case Return(Some(e)) =>
      var e' := ReplaceInExpr(m, e);
      if e'.Some? then Some(Return(e')) else None
    case Call(id, callee, es, d) =>
      var es', d' := ReplaceInExprs(m, es), ReplaceInDest(m, d);
      if es'.Some? && d'.Some? then Some(Call(id, callee, es'.value, d'.value)) else None
    case AssertNonNull(e) =>
      var e' := ReplaceInExpr(m, e);
      if e'.Some? then Some(AssertNonNull(e'.value)) else None
    case _ => Some(s)
  }

  /** The map sends each preg but 0 of the callee's `n` to its copy. */
  ghost predicate Shifts(m: map<nat, nat>, n: nat, off: nat) {
    && (forall r :: r in m <==> 1 <= r < n)
    && (forall r :: r in m ==> m[r] == r + off)
  }

  lemma {:induction false} ReplacedExpr(m: map<nat, nat>, n: nat, off: nat, e: Expr)
    requires Shifts(m, n, off)
    ensures ReplaceInExpr(m, e) == if ExprRegsKnown(n, e) then Some(RenameExpr(Offsets(0, 0, off), e)) else None
  {
    if e.Binary? {
      ReplacedExpr(m, n, off, e.left);
      ReplacedExpr(m, n, off, e.right);
    }
  }

  lemma {:induction false} ReplacedExprs(m: map<nat, nat>, n: nat, off: nat, es: seq<Expr>)
    requires Shifts(m, n, off)
    ensures ReplaceInExprs(m, es) ==
      if forall i :: 0 <= i < |es| ==> ExprRegsKnown(n, es[i]) then Some(RenameExprs(Offsets(0, 0, off), es)) else None
  {
    hide Shifts;
    if es != [] {
      ReplacedExprs(m, n, off, es[..|es| - 1]);
      ReplacedExpr(m, n, off, es[|es| - 1]);
    }
  }

  lemma ReplacedDest(m: map<nat, nat>, n: nat, off: nat, d: RetDest)
    requires Shifts(m, n, off)
    ensures ReplaceInDest(m, d) == if d.ToReg? ==> 1 <= d.reg < n then Some(RenameDest(Offsets(0, 0, off), d)) else None
  {
  }

  /** Looking every preg up in the map is renaming by the offset, and fails exactly where the body
      uses preg 0 or one that is not in the callee's table. */
  lemma {:induction false} ReplacedPregs(m: map<nat, nat>, n: nat, off: nat, ss: seq<Stmt>)
    requires Shifts(m, n, off)
    ensures ReplacePregs(m, ss) == if RegsKnown(n, ss) then Some(Rename(Offsets(0, 0, off), ss)) else None
    decreases ss, 1
  {
    hide Shifts;
    if ss != [] {
      ReplacedInStmt(m, n, off, ss[0]);
      ReplacedPregs(m, n, off, ss[1..]);
    }
  }

  lemma {:induction false} ReplacedInStmt(m: map<nat, nat>, n: nat, off: nat, s: Stmt)
    requires Shifts(m, n, off)
    ensures ReplaceInStmt(m, s) == if StmtRegsKnown(n, s) then Some(RenameStmt(Offsets(0, 0, off), s)) else None
    decreases s, 0
  {
    hide ReplaceInExpr, ReplaceInExprs, RenameExpr, RenameExprs, ExprRegsKnown;
    match s
    case Dassign(_, e) => ReplacedExpr(m, n, off, e);
    case Regassign(_, e) => ReplacedExpr(m, n, off, e);
    case If(c, t, e) =>
      ReplacedExpr(m, n, off, c);
      ReplacedPregs(m, n, off, t);
      ReplacedPregs(m, n, off, e);
    case While(_, c, b) =>
      ReplacedExpr(m, n, off, c);
      ReplacedPregs(m, n, off, b);
    case CondGoto(_, c, _) => ReplacedExpr(m, n, off, c);
    case Return(Some(e)) => ReplacedExpr(m, n, off, e);
    case Call(_, _, es, d) =>
      ReplacedExprs(m, n, off, es);
      ReplacedDest(m, n, off, d);
    case AssertNonNull(e) => ReplacedExpr(m, n, off, e);
    case _ =>
  }

  /** Renaming symbols and labels uses the same pregs. */
  lemma {:induction false} SameRegsExpr(n: nat, o: Offsets, e: Expr)
    requires o.reg == 0
    ensures ExprRegsKnown(n, RenameExpr(o, e)) == ExprRegsKnown(n, e)
  {
    if e.Binary? {
      SameRegsExpr(n, o, e.left);
      SameRegsExpr(n, o, e.right);
    }
  }

  lemma {:induction false} SameRegsExprs(n: nat, o: Offsets, es: seq<Expr>)
    requires o.reg == 0
    ensures forall i :: 0 <= i < |es| ==> (ExprRegsKnown(n, RenameExprs(o, es)[i]) <==> ExprRegsKnown(n, es[i]))
  {
    if es != [] {
      SameRegsExprs(n, o, es[..|es| - 1]);
      SameRegsExpr(n, o, es[|es| - 1]);
    }
  }

  lemma {:induction false} SameRegs(n: nat, o: Offsets, ss: seq<Stmt>)
    requires o.reg == 0
    ensures RegsKnown(n, Rename(o, ss)) == RegsKnown(n, ss)
    decreases ss, 1
  {
    if ss != [] {
      SameRegsIn(n, o, ss[0]);
      SameRegs(n, o, ss[1..]);
      assert Rename(o, ss)[1..] == Rename(o, ss[1..]);
    }
  }

  lemma {:induction false} SameRegsIn(n: nat, o: Offsets, s: Stmt)
    requires o.reg == 0
    ensures StmtRegsKnown(n, RenameStmt(o, s)) == StmtRegsKnown(n, s)
    decreases s, 0
  {
    hide RenameExpr, RenameExprs, ExprRegsKnown;
    match s
    case Dassign(_, e) => SameRegsExpr(n, o, e);
    case Regassign(_, e) => SameRegsExpr(n, o, e);
    case If(c, t, e) =>
      SameRegsExpr(n, o, c);
      SameRegs(n, o, t);
      SameRegs(n, o, e);
    case While(_, c, b) =>
      SameRegsExpr(n, o, c);
      SameRegs(n, o, b);
    case CondGoto(_, c, _) => SameRegsExpr(n, o, c);
    case Return(Some(e)) => SameRegsExpr(n, o, e);
    case Call(_, _, es, _) => SameRegsExprs(n, o, es);
    case AssertNonNull(e) => SameRegsExpr(n, o, e);
    case _ =>
  }

  // ---------------------------------------------------------------- concatenation

  lemma {:induction false} UpdateConcat(a: seq<Stmt>, b: seq<Stmt>, dest: RetDest, retLab: nat)
    ensures UpdateReturns(a + b, dest, retLab) == UpdateReturns(a, dest, retLab) + UpdateReturns(b, dest, retLab)
  {
    if a == [] {
      assert a + b == b;
    } else {
      UpdateConcat(a[1..], b, dest, retLab);
      assert (a + b)[1..] == a[1..] + b;
      Regroup(UpdateReturn(a[0], dest, retLab), UpdateReturns(a[1..], dest, retLab), UpdateReturns(b, dest, retLab));
    }
  }

  lemma UpdateOne(s: Stmt, dest: RetDest, retLab: nat)
    ensures UpdateReturns([s], dest, retLab) == UpdateReturn(s, dest, retLab)
    ensures CountReturns([s]) == CountReturn(s)
  {
    assert [s][1..] == [];
    assert UpdateReturns([], dest, retLab) == [];
  }

  /** Statements without a return are left alone. */
  lemma {:induction false} UpdateNothing(ss: seq<Stmt>, dest: RetDest, retLab: nat)
    requires CountReturns(ss) == 0
    ensures UpdateReturns(ss, dest, retLab) == ss
    decreases ss, 1
  {
    hide UpdateReturn, CountReturn;
    if ss != [] {
      UpdateNothingIn(ss[0], dest, retLab);
      UpdateNothing(ss[1..], dest, retLab);
      assert [ss[0]] + ss[1..] == ss;
    }
  }

  lemma {:induction false} UpdateNothingIn(s: Stmt, dest: RetDest, retLab: nat)
    requires CountReturn(s) == 0
    ensures UpdateReturn(s, dest, retLab) == [s]
    decreases s, 0
  {
    match s
    case If(_, t, e) =>
      UpdateNothing(t, dest, retLab);
      UpdateNothing(e, dest, retLab);
    case While(_, _, b) => UpdateNothing(b, dest, retLab);
    case _ =>
  }

  /** No return is left at any depth. */
  lemma {:induction false} NoReturnRemains(ss: seq<Stmt>, dest: RetDest, retLab: nat)
    ensures CountReturns(UpdateReturns(ss, dest, retLab)) == 0
    decreases ss, 1
  {
    if ss != [] {
      NoReturnRemainsIn(ss[0], dest, retLab);
      NoReturnRemains(ss[1..], dest, retLab);
      CountConcat(UpdateReturn(ss[0], dest, retLab), UpdateReturns(ss[1..], dest, retLab));
    }
  }

  lemma {:induction false} NoReturnRemainsIn(s: Stmt, dest: RetDest, retLab: nat)
    ensures CountReturns(UpdateReturn(s, dest, retLab)) == 0
    decreases s, 0
  {
    match s
    case Return(opnd) =>
      UpdateOne(Goto(retLab), dest, retLab);
      CountConcat(StoreResult(dest, opnd), [Goto(retLab)]);
      assert CountReturns(StoreResult(dest, opnd)) == 0;
    case If(c, t, e) =>
      NoReturnRemains(t, dest, retLab);
      NoReturnRemains(e, dest, retLab);
      UpdateOne(If(c, UpdateReturns(t, dest, retLab), UpdateReturns(e, dest, retLab)), dest, retLab);
    case While(f, c, b) =>
      NoReturnRemains(b, dest, retLab);
      UpdateOne(While(f, c, UpdateReturns(b, dest, retLab)), dest, retLab);
    case _ =>
      UpdateOne(s, dest, retLab);
  }

  // ---------------------------------------------------------------- UpdateReturnStmts

  /** The goto made last: nowhere, in a nested block, or statement `i` of the new body. */
  datatype LastGoto = NoGoto | Nested | At(i: int)

  /** Which goto was made last when the list `ss` is rewritten. */
  function LastMade(ss: seq<Stmt>, dest: RetDest, retLab: nat): (r: LastGoto)
    ensures r.NoGoto? <==> CountReturns(ss) == 0
    ensures r.At? ==>
      0 <= r.i < |UpdateReturns(ss, dest, retLab)| && UpdateReturns(ss, dest, retLab)[r.i] == Goto(retLab)
  {
    if ss == [] then NoGoto
    else
      var init, s := ss[..|ss| - 1], ss[|ss| - 1];
      assert ss == init + [s];
      assert UpdateReturns(ss, dest, retLab) == UpdateReturns(init, dest, retLab) + UpdateReturn(s, dest, retLab)
          && CountReturns(ss) == CountReturns(init) + CountReturn(s) by {
        UpdateConcat(init, [s], dest, retLab);
        UpdateOne(s, dest, retLab);
        CountConcat(init, [s]);
      }
      if s.Return? then At(|UpdateReturns(ss, dest, retLab)| - 1)
      else if CountReturn(s) > 0 then Nested
      else LastMade(init, dest, retLab)
  }

  lemma LastMadeStep(ss: seq<Stmt>, s: Stmt, dest: RetDest, retLab: nat)
    ensures UpdateReturns(ss + [s], dest, retLab) == UpdateReturns(ss, dest, retLab) + UpdateReturn(s, dest, retLab)
    ensures CountReturns(ss + [s]) == CountReturns(ss) + CountReturn(s)
    ensures LastMade(ss + [s], dest, retLab) ==
      if s.Return? then At(|UpdateReturns(ss + [s], dest, retLab)| - 1)
      else if CountReturn(s) > 0 then Nested else LastMade(ss, dest, retLab)
  {
    UpdateConcat(ss, [s], dest, retLab);
    UpdateOne(s, dest, retLab);
    CountConcat(ss, [s]);
    assert (ss + [s])[..|ss + [s]| - 1] == ss;
  }

  lemma NothingMade(ss: seq<Stmt>, dest: RetDest, retLab: nat)
    requires ss == []
    ensures UpdateReturns(ss, dest, retLab) == [] && CountReturns(ss) == 0 && LastMade(ss, dest, retLab) == NoGoto
  {
  }

  /** MInline::UpdateReturnStmts: what it adds to the counter, and which goto it leaves in
      `lastGoto` when it makes one. */
  method UpdateReturnStmts(ss: seq<Stmt>, retLab: nat, dest: RetDest)
    returns (newBody: seq<Stmt>, retCount: nat, lastGoto: LastGoto)
    ensures newBody == UpdateReturns(ss, dest, retLab)
    ensures retCount == CountReturns(ss)
    ensures lastGoto == LastMade(ss, dest, retLab)
    decreases ss, 1
  {
    hide UpdateReturns, CountReturns, LastMade, UpdateReturn, CountReturn;
    newBody, retCount, lastGoto := [], 0, NoGoto;
    NothingMade(ss[..0], dest, retLab);
    var i := 0;
    while i < |ss|
      invariant 0 <= i <= |ss|
      invariant newBody == UpdateReturns(ss[..i], dest, retLab)
      invariant retCount == CountReturns(ss[..i])
      invariant lastGoto == LastMade(ss[..i], dest, retLab)
    {
      assert ss[..i + 1] == ss[..i] + [ss[i]];
      LastMadeStep(ss[..i], ss[i], dest, retLab);
      var made, n := UpdateReturnStmt(ss[i], retLab, dest);
      newBody := newBody + made;
      retCount := retCount + n;
      if ss[i].Return? {
        lastGoto := At(|newBody| - 1);
      } else if n > 0 {
        lastGoto := Nested;
      }
      i := i + 1;
    }
    assert ss[..|ss|] == ss;
  }

  /** One turn of its loop. */
  method UpdateReturnStmt(s: Stmt, retLab: nat, dest: RetDest) returns (made: seq<Stmt>, n: nat)
    ensures made == UpdateReturn(s, dest, retLab) && n == CountReturn(s)
    decreases s, 0
  {
    match s
    case If(c, t, e) =>
      var t', m, _ := UpdateReturnStmts(t, retLab, dest);
      var e', k, _ := UpdateReturnStmts(e, retLab, dest);
      made, n := [If(c, t', e')], m + k;
    case While(first, c, b) =>
      var b', m, _ := UpdateReturnStmts(b, retLab, dest);
      made, n := [While(first, c, b')], m;
    case Return(opnd) =>
      made, n := StoreResult(dest, opnd) + [Goto(retLab)], 1;
    case _ =>
      made, n := [s], 0;
  }

  // ---------------------------------------------------------------- steps 4 to 6.5

  lemma {:induction false} RenameConcat(o: Offsets, a: seq<Stmt>, b: seq<Stmt>)
    ensures Rename(o, a + b) == Rename(o, a) + Rename(o, b)
  {
    if a == [] {
      assert a + b == b;
    } else {
      RenameConcat(o, a[1..], b);
      assert (a + b)[1..] == a[1..] + b;
    }
  }

  lemma {:induction false} CountRenamed(o: Offsets, ss: seq<Stmt>)
    ensures CountReturns(Rename(o, ss)) == CountReturns(ss)
    decreases ss, 1
  {
    if ss != [] {
      CountRenamedIn(o, ss[0]);
      CountRenamed(o, ss[1..]);
      assert Rename(o, ss)[1..] == Rename(o, ss[1..]);
    }
  }

  lemma {:induction false} CountRenamedIn(o: Offsets, s: Stmt)
    ensures CountReturn(RenameStmt(o, s)) == CountReturn(s)
    decreases s, 0
  {
    match s
    case If(_, t, e) =>
      CountRenamed(o, t);
      CountRenamed(o, e);
    case While(_, _, b) => CountRenamed(o, b);
    case _ =>
  }

  lemma RenamedEnd(o: Offsets, ss: seq<Stmt>)
    requires ss != []
    ensures Rename(o, ss) == Rename(o, ss[..|ss| - 1]) + [RenameStmt(o, ss[|ss| - 1])]
    ensures EndsInReturn(Rename(o, ss)) <==> EndsInReturn(ss)
  {
    var last := ss[|ss| - 1];
    assert ss == ss[..|ss| - 1] + [last];
    RenameConcat(o, ss[..|ss| - 1], [last]);
    assert Rename(o, [last]) == [RenameStmt(o, last)] + Rename(o, []);
  }

  /** The last statement is the goto made last exactly when the list ended in a return. */
  lemma LastAtEnd(ss: seq<Stmt>, dest: RetDest, retLab: nat)
    requires ss != []
    ensures LastMade(ss, dest, retLab) == At(|UpdateReturns(ss, dest, retLab)| - 1) <==> EndsInReturn(ss)
  {
    var init, s := ss[..|ss| - 1], ss[|ss| - 1];
    assert ss == init + [s];
    LastMadeStep(init, s, dest, retLab);
    assert |UpdateReturn(s, dest, retLab)| >= 1;
  }

  lemma {:induction false} NoReturnsInActuals(formals: seq<nat>, opnds: seq<Expr>, o: Offsets, n: nat)
    requires n <= |formals| && n <= |opnds|
    ensures CountReturns(AssignActuals(formals, opnds, o, n)) == 0
  {
    if n > 0 {
      NoReturnsInActuals(formals, opnds, o, n - 1);
      CountConcat([Dassign(Local(formals[n - 1] + o.sym), opnds[n - 1])], AssignActuals(formals, opnds, o, n - 1));
    }
  }

  lemma PrologueUntouched(x: Site)
    requires SiteArity(x)
    ensures CountReturns(Prologue(x)) == 0 && UpdateReturns(Prologue(x), x.dest, x.retLab) == Prologue(x)
  {
    NoReturnsInActuals(x.target.formals, x.opnds, x.o, |x.opnds|);
    var check := if x.target.checksThis && |x.opnds| > 0 then [AssertNonNull(x.opnds[0])] else [];
    CountConcat(AssignActuals(x.target.formals, x.opnds, x.o, |x.opnds|), check);
    assert check != [] ==> check[1..] == [];
    assert CountReturns(check) == 0;
    UpdateNothing(Prologue(x), x.dest, x.retLab);
  }

  /** What step 6 makes of the body with its prologue and, if it was created, the label. */
  lemma Rewritten(x: Site, tail: seq<Stmt>)
    requires SiteArity(x) && x.target.body != [] && (tail == [] || tail == [Label(x.retLab)])
    ensures var all := Prologue(x) + Rename(x.o, x.target.body) + tail;
      var made := UpdateReturns(Rename(x.o, x.target.body), x.dest, x.retLab);
      && UpdateReturns(all, x.dest, x.retLab) == Prologue(x) + made + tail
      && CountReturns(all) == CountReturns(x.target.body)
      && (LastMade(all, x.dest, x.retLab) == At(|Prologue(x) + made| - 1) <==> EndsInReturn(x.target.body))
  {
    hide Prologue, Rename, CountReturns, LastMade, UpdateReturns;
    var body := Rename(x.o, x.target.body);
    var top := Prologue(x) + body;
    PrologueUntouched(x);
    UpdateConcat(Prologue(x), body, x.dest, x.retLab);
    CountConcat(Prologue(x), body);
    CountRenamed(x.o, x.target.body);
    RenamedEnd(x.o, x.target.body);
    assert top[|top| - 1] == body[|body| - 1];
    LastAtEnd(top, x.dest, x.retLab);
    if tail == [] {
      assert top + tail == top;
      assert UpdateReturns(top, x.dest, x.retLab) + tail == UpdateReturns(top, x.dest, x.retLab);
    } else {
      LastMadeStep(top, Label(x.retLab), x.dest, x.retLab);
    }
  }

  lemma DropGoto(x: Site)
    requires EndsInReturn(x.target.body)
    ensures UpdateReturns(Rename(x.o, x.target.body), x.dest, x.retLab) ==
      InlinedBody(x, x.target.body) + [Goto(x.retLab)]
  {
    hide Rename, UpdateReturns;
    var n := |x.target.body| - 1;
    var last := RenameStmt(x.o, x.target.body[n]);
    RenamedEnd(x.o, x.target.body);
    LastMadeStep(Rename(x.o, x.target.body[..n]), last, x.dest, x.retLab);
  }

  /** Steps 4 to 6.5 of MInline::PerformInline. */
  method FinishBody(x: Site, renamed: seq<Stmt>) returns (newBody: seq<Stmt>)
    requires SiteArity(x) && x.target.body != [] && renamed == Rename(x.o, x.target.body)
    ensures newBody == Prologue(x) + InlinedBody(x, x.target.body) + if KeepsLabel(x) then [Label(x.retLab)] else []
  {
    hide Rename, UpdateReturns, CountReturns, LastMade, RenameStmt;
    newBody := AddPrologue(x, renamed);
    ghost var tail := if x.reuse then [] else [Label(x.retLab)];
    if !x.reuse {
      newBody := newBody + [Label(x.retLab)];
    }
    assert newBody == Prologue(x) + renamed + tail;
    Rewritten(x, tail);
    var retCount, lastGoto;
    newBody, retCount, lastGoto := UpdateReturnStmts(newBody, x.retLab, x.dest);
    newBody := CleanUp(x, newBody, retCount, lastGoto);
  }

  method AddPrologue(x: Site, renamed: seq<Stmt>) returns (newBody: seq<Stmt>)
    requires SiteArity(x)
    ensures newBody == Prologue(x) + renamed
  {
    hide AssignActuals, Prologue;
    newBody := renamed;
    if x.target.checksThis && |x.opnds| > 0 {
      newBody := [AssertNonNull(x.opnds[0])] + newBody;
    }
    ghost var checked := newBody;
    ActualsStep(x, 0, checked);
    var i := 0;
    while i < |x.opnds|
      invariant 0 <= i <= |x.opnds|
      invariant newBody == AssignActuals(x.target.formals, x.opnds, x.o, i) + checked
    {
      ActualsStep(x, i, checked);
      newBody := [Dassign(Local(x.target.formals[i] + x.o.sym), x.opnds[i])] + newBody;
      i := i + 1;
    }
    PrologueIs(x, renamed);
  }

  /** The assignment of the next formal comes before those there are. */
  lemma ActualsStep(x: Site, i: nat, rest: seq<Stmt>)
    requires SiteArity(x) && i <= |x.opnds|
    ensures AssignActuals(x.target.formals, x.opnds, x.o, 0) + rest == rest
    ensures i < |x.opnds| ==>
      (AssignActuals(x.target.formals, x.opnds, x.o, i + 1) + rest ==
       [Dassign(Local(x.target.formals[i] + x.o.sym), x.opnds[i])]
       + (AssignActuals(x.target.formals, x.opnds, x.o, i) + rest))
  {
    var made := AssignActuals(x.target.formals, x.opnds, x.o, i);
    if i < |x.opnds| {
      var s := [Dassign(Local(x.target.formals[i] + x.o.sym), x.opnds[i])];
      Regroup(s, made, rest);
      assert AssignActuals(x.target.formals, x.opnds, x.o, i + 1) == s + made;
    }
  }

  lemma PrologueIs(x: Site, rest: seq<Stmt>)
    requires SiteArity(x)
    ensures Prologue(x) + rest == AssignActuals(x.target.formals, x.opnds, x.o, |x.opnds|)
      + (if x.target.checksThis && |x.opnds| > 0 then [AssertNonNull(x.opnds[0])] + rest else rest)
  {
    hide AssignActuals;
    var check := if x.target.checksThis && |x.opnds| > 0 then [AssertNonNull(x.opnds[0])] else [];
    Regroup(AssignActuals(x.target.formals, x.opnds, x.o, |x.opnds|), check, rest);
    assert check == [] ==> check + rest == rest;
  }

  /** Step 6.5: the goto made last goes away when the label follows it, and then the label too if
      nothing else jumps to it. */
  method CleanUp(x: Site, made: seq<Stmt>, retCount: nat, lastGoto: LastGoto) returns (newBody: seq<Stmt>)
    requires SiteArity(x) && x.target.body != [] && retCount == CountReturns(x.target.body)
    requires made == Prologue(x) + UpdateReturns(Rename(x.o, x.target.body), x.dest, x.retLab) +
      if x.reuse then [] else [Label(x.retLab)]
    requires lastGoto == At(|Prologue(x) + UpdateReturns(Rename(x.o, x.target.body), x.dest, x.retLab)| - 1)
        <==> EndsInReturn(x.target.body)
    ensures newBody == Prologue(x) + InlinedBody(x, x.target.body) + if KeepsLabel(x) then [Label(x.retLab)] else []
  {
    hide Rename, UpdateReturns, CountReturns, LastMade, Prologue, RenameStmt;
    if EndsInReturn(x.target.body) {
      DropGoto(x);
      EndCounts(x.target.body);
    }
    newBody := made;
    if retCount == 0 {
      if !x.reuse {
        newBody := newBody[..|newBody| - 1];
      }
    } else if !x.reuse {
      if lastGoto == At(|newBody| - 2) {
        newBody := newBody[..|newBody| - 2] + [newBody[|newBody| - 1]];
        if retCount == 1 {
          newBody := newBody[..|newBody| - 1];
        }
      }
    } else {
      if lastGoto == At(|newBody| - 1) {
        newBody := newBody[..|newBody| - 1];
      }
    }
  }

  lemma EndCounts(ss: seq<Stmt>)
    requires EndsInReturn(ss)
    ensures CountReturns(ss) >= 1
  {
    var last := ss[|ss| - 1];
    assert ss == ss[..|ss| - 1] + [last];
    CountConcat(ss[..|ss| - 1], [last]);
    UpdateOne(last, NoDest, 0);
  }
}
