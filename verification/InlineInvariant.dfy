/** What stays true of the statements that are left to run, on both sides of the inlining. */
module InlineInvariant {
  import opened Mir
  import opened InlineTransform
  import opened InlineStructure

  // ---------------------------------------------------------------- properties of every statement

  /** Caller: writes stay below the table sizes from before the inlining, and statements with the
      id of the call are the call.  Callee: index 0 of the tables is never used.  The third check
      is that there is no return. */
  datatype Check = CallerCheck(call: Stmt, syms: nat, regs: nat) | CalleeCheck | NoReturnCheck

  predicate SymOk(k: Check, st: StIdx) {
    st.Local? ==>
      match k
      case CallerCheck(_, syms, _) => st.idx < syms
      case CalleeCheck => st.idx >= 1
      case NoReturnCheck => true
  }

  predicate RegOk(k: Check, r: nat) {
    match k
    case CallerCheck(_, _, regs) => r < regs
    case CalleeCheck => r >= 1
    case NoReturnCheck => true
  }

  predicate DestOk(k: Check, d: RetDest) {
    match d
    case NoDest => true
    case ToSymbol(st) => SymOk(k, st)
    case ToReg(r) => RegOk(k, r)
  }

  function TheCall(x: Site): Stmt {
    Call(x.stmtID, x.callee, x.opnds, x.dest)
  }

  predicate StmtOk(k: Check, s: Stmt) {
    match s
    case Dassign(st, _) => SymOk(k, st)
    case Regassign(r, _) => RegOk(k, r)
    case If(_, t, e) => AllOk(k, t) && AllOk(k, e)
    case While(_, _, b) => AllOk(k, b)
    case Return(_) => !k.NoReturnCheck?
    case Call(_, _, _, d) => DestOk(k, d) && (k.CallerCheck? && k.call.Call? && k.call.stmtID == s.stmtID ==>
      s == k.call)
    case _ => true
  }

  predicate AllOk(k: Check, ss: seq<Stmt>) {
    ss == [] || (StmtOk(k, ss[0]) && AllOk(k, ss[1..]))
  }

  lemma {:induction false} AllOkConcat(k: Check, a: seq<Stmt>, b: seq<Stmt>)
    ensures AllOk(k, a + b) <==> AllOk(k, a) && AllOk(k, b)
  {
    if a == [] {
      assert a + b == b;
    } else {
      AllOkConcat(k, a[1..], b);
      assert (a + b)[1..] == a[1..] + b;
    }
  }

  lemma AllOkOne(k: Check, s: Stmt)
    ensures AllOk(k, [s]) <==> StmtOk(k, s)
  {
    assert [s][1..] == [];
  }

  lemma {:induction false} AllOkFind(k: Check, ss: seq<Stmt>, l: nat)
    requires AllOk(k, ss) && l in Labels(ss)
    ensures AllOk(k, FindLabel(ss, l))
    decreases ss, 1
  {
    if l in StmtLabels(ss[0]) {
      AllOkFindIn(k, ss[0], l);
      AllOkConcat(k, FindInStmt(ss[0], l), ss[1..]);
    } else {
      AllOkFind(k, ss[1..], l);
    }
  }

  lemma {:induction false} AllOkFindIn(k: Check, s: Stmt, l: nat)
    requires StmtOk(k, s) && l in StmtLabels(s)
    ensures AllOk(k, FindInStmt(s, l))
    decreases s, 0
  {
    match s
    case Label(_) => AllOkOne(k, s);
    case If(_, t, e) => AllOkFind(k, if l in Labels(t) then t else e, l);
    case While(_, _, b) =>
      AllOkFind(k, b, l);
      AllOkConcat(k, FindLabel(b, l), [LoopBack(s)]);
      AllOkOne(k, LoopBack(s));
  }

  lemma {:induction false} CountNoReturns(ss: seq<Stmt>)
    ensures AllOk(NoReturnCheck, ss) <==> CountReturns(ss) == 0
    decreases ss, 1
  {
    if ss != [] {
      CountNoReturnsIn(ss[0]);
      CountNoReturns(ss[1..]);
    }
  }

  lemma {:induction false} CountNoReturnsIn(s: Stmt)
    ensures StmtOk(NoReturnCheck, s) <==> CountReturn(s) == 0
    decreases s, 0
  {
    match s
    case If(_, t, e) =>
      CountNoReturns(t);
      CountNoReturns(e);
    case While(_, _, b) => CountNoReturns(b);
    case Call(_, _, _, d) =>
    case _ =>
  }

  // ---------------------------------------------------------------- the place of the call

  /** Wherever the call is met in `ss`, it occurs once in its statement and `after` follows it. */
  predicate Points(x: Site, ss: seq<Stmt>, after: seq<Stmt>) {
    ss == []
    || (CountCall(x.stmtID, ss[0]) <= 1
        && (CountCall(x.stmtID, ss[0]) > 0 ==> AfterCallIn(x, ss[0]) + ss[1..] == after)
        && Points(x, ss[1..], after))
  }

  /** Entering a nested block. */
  lemma {:induction false} PointsInto(x: Site, ss: seq<Stmt>, rest: seq<Stmt>, after: seq<Stmt>)
    requires CountCalls(x.stmtID, ss) <= 1 && Points(x, rest, after)
    requires CountCalls(x.stmtID, ss) > 0 ==> AfterCall(x, ss) + rest == after
    ensures Points(x, ss + rest, after)
  {
    if ss == [] {
      assert ss + rest == rest;
    } else {
      assert (ss + rest)[1..] == ss[1..] + rest;
      if CountCall(x.stmtID, ss[0]) > 0 {
        Regroup(AfterCallIn(x, ss[0]), ss[1..], rest);
      }
      PointsInto(x, ss[1..], rest, after);
    }
  }

  lemma PointsIf(x: Site, s: Stmt, rest: seq<Stmt>, after: seq<Stmt>)
    requires s.If? && Points(x, [s] + rest, after)
    ensures Points(x, s.thenPart + rest, after) && Points(x, s.elsePart + rest, after)
  {
    assert ([s] + rest)[1..] == rest;
    PointsInto(x, s.thenPart, rest, after);
    PointsInto(x, s.elsePart, rest, after);
  }

  lemma PointsLoop(x: Site, s: Stmt, rest: seq<Stmt>, after: seq<Stmt>)
    requires s.While? && Points(x, [s] + rest, after)
    ensures Points(x, s.body + ([LoopBack(s)] + rest), after)
  {
    assert ([s] + rest)[1..] == rest && ([LoopBack(s)] + rest)[1..] == rest;
    assert CountCall(x.stmtID, LoopBack(s)) == CountCall(x.stmtID, s);
    if CountCalls(x.stmtID, s.body) > 0 {
      Regroup(AfterCall(x, s.body), [LoopBack(s)], rest);
    }
    PointsInto(x, s.body, [LoopBack(s)] + rest, after);
  }

  lemma {:induction false} PointsFind(x: Site, ss: seq<Stmt>, l: nat, rest: seq<Stmt>, after: seq<Stmt>)
    requires l in Labels(ss) && Points(x, ss + rest, after)
    ensures Points(x, FindLabel(ss, l) + rest, after)
    decreases ss, 1
  {
    assert (ss + rest)[1..] == ss[1..] + rest;
    if l in StmtLabels(ss[0]) {
      assert ss + rest == [ss[0]] + (ss[1..] + rest);
      PointsFindIn(x, ss[0], l, ss[1..] + rest, after);
      Regroup(FindInStmt(ss[0], l), ss[1..], rest);
    } else {
      PointsFind(x, ss[1..], l, rest, after);
    }
  }

  lemma {:induction false} PointsFindIn(x: Site, s: Stmt, l: nat, rest: seq<Stmt>, after: seq<Stmt>)
    requires l in StmtLabels(s) && Points(x, [s] + rest, after)
    ensures Points(x, FindInStmt(s, l) + rest, after)
    decreases s, 0
  {
    match s
    case Label(_) =>
    case If(_, t, e) =>
      PointsIf(x, s, rest, after);
      PointsFind(x, if l in Labels(t) then t else e, l, rest, after);
    case While(_, _, b) =>
      PointsLoop(x, s, rest, after);
      PointsFind(x, b, l, [LoopBack(s)] + rest, after);
      Regroup(FindLabel(b, l), [LoopBack(s)], rest);
  }

  lemma PointsBody(x: Site, body: seq<Stmt>)
    requires CountCalls(x.stmtID, body) == 1
    ensures Points(x, body, AfterCall(x, body))
  {
    PointsInto(x, body, [], AfterCall(x, body));
    assert AfterCall(x, body) + [] == AfterCall(x, body);
    assert body + [] == body;
  }

  // ---------------------------------------------------------------- a reused label

  function CountLabels(ss: seq<Stmt>, l: nat): nat {
    if ss == [] then 0 else CountLabel(ss[0], l) + CountLabels(ss[1..], l)
  }

  function CountLabel(s: Stmt, l: nat): nat {
    match s
    case Label(m) => if l == m then 1 else 0
    case If(_, t, e) => CountLabels(t, l) + CountLabels(e, l)
    case While(_, _, b) => CountLabels(b, l)
    case _ => 0
  }

  lemma {:induction false} CountIsLabels(ss: seq<Stmt>, l: nat)
    ensures CountLabels(ss, l) > 0 <==> l in Labels(ss)
    decreases ss, 1
  {
    if ss != [] {
      CountIsLabelsIn(ss[0], l);
      CountIsLabels(ss[1..], l);
    }
  }

  lemma {:induction false} CountIsLabelsIn(s: Stmt, l: nat)
    ensures CountLabel(s, l) > 0 <==> l in StmtLabels(s)
    decreases s, 0
  {
    match s
    case If(_, t, e) =>
      CountIsLabels(t, l);
      CountIsLabels(e, l);
    case While(_, _, b) => CountIsLabels(b, l);
    case _ =>
  }

  /** The statement after the call in its own block is the label `l`. */
  predicate LabelFollows(x: Site, ss: seq<Stmt>, l: nat) {
    ss != [] &&
    if CountCall(x.stmtID, ss[0]) > 0 then
      match ss[0]
      case Call(_, _, _, _) => |ss| > 1 && ss[1] == Label(l)
      case If(_, t, e) => if CountCalls(x.stmtID, t) > 0 then LabelFollows(x, t, l) else LabelFollows(x, e, l)
      case While(_, _, b) => LabelFollows(x, b, l)
    else LabelFollows(x, ss[1..], l)
  }

  /** Jumping to the reused label is going on after the call. */
  lemma {:induction false} ReusedLabel(x: Site, ss: seq<Stmt>, l: nat)
    requires LabelFollows(x, ss, l) && CountCalls(x.stmtID, ss) > 0 && CountLabels(ss, l) <= 1
    ensures l in Labels(ss) && FindLabel(ss, l) == AfterCall(x, ss)
    ensures AfterCall(x, ss) != [] && AfterCall(x, ss)[0] == Label(l)
  {
    CountIsLabelsIn(ss[0], l);
    CountIsLabels(ss[1..], l);
    if CountCall(x.stmtID, ss[0]) > 0 {
      match ss[0]
      case Call(_, _, _, _) =>
        assert ss[1..][0] == Label(l);
        assert FindLabel(ss[1..], l) == [Label(l)] + ss[1..][1..];
      case If(_, t, e) =>
        CountIsLabels(t, l);
        CountIsLabels(e, l);
        ReusedLabel(x, if CountCalls(x.stmtID, t) > 0 then t else e, l);
      case While(_, _, b) =>
        ReusedLabel(x, b, l);
    } else {
      ReusedLabel(x, ss[1..], l);
    }
  }

  // ---------------------------------------------------------------- the final return of the callee

  /** While the callee runs, what is left ends with the same statement as its body. */
  predicate EndsLike(code: seq<Stmt>, body: seq<Stmt>) {
    EndsInReturn(body) ==> code != [] && code[|code| - 1] == body[|body| - 1]
  }

  lemma {:induction false} FindKeepsEnd(ss: seq<Stmt>, l: nat)
    requires l in Labels(ss) && EndsInReturn(ss)
    ensures FindLabel(ss, l) != [] && FindLabel(ss, l)[|FindLabel(ss, l)| - 1] == ss[|ss| - 1]
  {
    assert ss[1..] != [] ==> ss[1..][|ss[1..]| - 1] == ss[|ss| - 1];
    if l !in StmtLabels(ss[0]) {
      FindKeepsEnd(ss[1..], l);
    }
  }
}
