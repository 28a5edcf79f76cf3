/** Inlining leaves a caller into which more can be inlined: indices stay within the grown tables,
    every label still stands once, every jump still has its label, and the other calls are where
    they were. */
module InlineAgain {
  import opened Options
  import opened Mir
  import opened Sequences
  import opened InlineTransform
  import opened InlineStructure
  import opened InlineInvariant
  import opened InlineFrames
  import opened InlineMerged

  /** The labels that the statements, at any depth, may jump to. */
  function Jumps(ss: seq<Stmt>): set<nat> {
    if ss == [] then {} else StmtJumps(ss[0]) + Jumps(ss[1..])
  }

  function StmtJumps(s: Stmt): set<nat> {
    match s
    case Goto(l) => {l}
    case CondGoto(_, _, l) => {l}
    case If(_, t, e) => Jumps(t) + Jumps(e)
    case While(_, _, b) => Jumps(b)
    case _ => {}
  }

  /** What the tables of a function guarantee: index 0 is not used, all others are in range, labels
      stand once, no jump lacks its label, formals are different symbols. */
  ghost predicate GoodFunction(f: Function, z: Sizes) {
    && AllOk(CalleeCheck, f.body) && AllOk(InTables(z), f.body)
    && (forall l: nat :: CountLabels(f.body, l) <= if 1 <= l < z.labs then 1 else 0)
    && Jumps(f.body) <= Labels(f.body)
    && Distinct(f.formals)
    && (forall i :: 0 <= i < |f.formals| ==> 1 <= f.formals[i] < z.syms)
  }

  /** Writes stay within the tables. */
  function InTables(z: Sizes): Check {
    CallerCheck(Comment, z.syms, z.regs)
  }

  // ---------------------------------------------------------------- counting labels and calls

  lemma {:induction false} LabelCountConcat(a: seq<Stmt>, b: seq<Stmt>, l: nat)
    ensures CountLabels(a + b, l) == CountLabels(a, l) + CountLabels(b, l)
  {
    if a == [] {
      assert a + b == b;
    } else {
      LabelCountConcat(a[1..], b, l);
      assert (a + b)[1..] == a[1..] + b;
    }
  }

  lemma NoLabelNoCount(ss: seq<Stmt>, l: nat)
    requires Labels(ss) == {}
    ensures CountLabels(ss, l) == 0
  {
    CountIsLabels(ss, l);
  }

  function ShiftedCount(l: nat, off: nat, ss: seq<Stmt>): nat {
    if l >= off then CountLabels(ss, l - off) else 0
  }

  lemma {:induction false} CloneLabels(x: Site, ss: seq<Stmt>, l: nat)
    ensures CountLabels(InCaller(x, ss), l) == ShiftedCount(l, x.o.lab, ss)
    decreases ss, 1
  {
    if ss != [] {
      InCallerCons(x, ss[0], ss[1..]);
      assert [ss[0]] + ss[1..] == ss;
      LabelCountConcat(InCallerStmt(x, ss[0]), InCaller(x, ss[1..]), l);
      CloneStmtLabels(x, ss[0], l);
      CloneLabels(x, ss[1..], l);
    }
  }

  lemma {:induction false} CloneStmtLabels(x: Site, s: Stmt, l: nat)
    ensures CountLabels(InCallerStmt(x, s), l) == if l >= x.o.lab then CountLabel(s, l - x.o.lab) else 0
    decreases s, 0
  {
    match s
    case If(_, t, e) =>
      CloneLabels(x, t, l);
      CloneLabels(x, e, l);
    case While(_, _, b) => CloneLabels(x, b, l);
    case Return(opnd) =>
      NoLabelsInReturn(x, opnd);
      NoLabelNoCount(InCallerStmt(x, s), l);
    case _ =>
  }

  lemma BodyLabels(x: Site, l: nat)
    ensures CountLabels(BodyCode(x, x.target.body), l) == ShiftedCount(l, x.o.lab, x.target.body)
  {
    var body := x.target.body;
    if EndsInReturn(body) {
      var init, last := body[..|body| - 1], body[|body| - 1];
      assert body == init + [last];
      if l >= x.o.lab {
        LabelCountConcat(init, [last], l - x.o.lab);
        assert CountLabels([last], l - x.o.lab) == 0 by { assert [last][1..] == []; }
      }
      CloneLabels(x, init, l);
      var store := StoreResult(x.dest, RenameStmt(x.o, last).opnd);
      NoLabelsStored(x.dest, RenameStmt(x.o, last).opnd);
      NoLabelNoCount(store, l);
      LabelCountConcat(InCaller(x, init), store, l);
    } else {
      CloneLabels(x, body, l);
    }
  }

  /** The block has the callee's labels, shifted, and perhaps the return label. */
  lemma BlockLabels(x: Site, l: nat)
    requires SiteArity(x) && x.target.body != []
    ensures CountLabels(Inlined(x), l) ==
      ShiftedCount(l, x.o.lab, x.target.body) + if KeepsLabel(x) && l == x.retLab then 1 else 0
  {
    hide Head, BodyCode;
    InlinedParts(x);
    HeadLabels(x);
    NoLabelNoCount(Head(x), l);
    BodyLabels(x, l);
    LabelCountConcat(BodyCode(x, x.target.body), Epilogue(x), l);
    LabelCountConcat(Head(x), BodyCode(x, x.target.body) + Epilogue(x), l);
    LabelCountConcat(if KeepsLabel(x) then [Label(x.retLab)] else [], [Comment], l);
    assert CountLabels([Comment], l) == 0 by { assert [Comment][1..] == []; }
    assert [Label(x.retLab)][1..] == [];
    assert CountLabels([Label(x.retLab)], l) == if l == x.retLab then 1 else 0;
  }

  /** Where the call stood the labels of the block stand now. */
  lemma {:induction false} CallerLabels(x: Site, ss: seq<Stmt>, l: nat)
    requires SiteArity(x) && CountCalls(x.stmtID, ss) <= 1
    ensures CountLabels(Tr(x, ss), l) ==
      CountLabels(ss, l) + if CountCalls(x.stmtID, ss) == 1 then CountLabels(Inlined(x), l) else 0
    decreases ss, 1
  {
    if ss != [] {
      LabelCountConcat(TrStmt(x, ss[0]), Tr(x, ss[1..]), l);
      CallerStmtLabels(x, ss[0], l);
      CallerLabels(x, ss[1..], l);
    }
  }

  lemma {:induction false} CallerStmtLabels(x: Site, s: Stmt, l: nat)
    requires SiteArity(x) && CountCall(x.stmtID, s) <= 1
    ensures CountLabels(TrStmt(x, s), l) ==
      CountLabel(s, l) + if CountCall(x.stmtID, s) == 1 then CountLabels(Inlined(x), l) else 0
    decreases s, 0
  {
    match s
    case If(_, t, e) =>
      CallerLabels(x, t, l);
      CallerLabels(x, e, l);
    case While(_, _, b) => CallerLabels(x, b, l);
    case _ =>
  }

  // ---------------------------------------------------------------- jumps and their labels

  lemma {:induction false} JumpsConcat(a: seq<Stmt>, b: seq<Stmt>)
    ensures Jumps(a + b) == Jumps(a) + Jumps(b)
  {
    if a == [] {
      assert a + b == b;
    } else {
      JumpsConcat(a[1..], b);
      assert (a + b)[1..] == a[1..] + b;
    }
  }

  lemma JumpsOne(s: Stmt)
    ensures Jumps([s]) == StmtJumps(s) && CountReturns([s]) == CountReturn(s)
  {
    assert [s][1..] == [];
  }

  /** Jumps of the clone are the callee's, shifted, and for every return one to the return label. */
  lemma {:induction false} CloneJumps(x: Site, ss: seq<Stmt>, l: nat)
    ensures l in Jumps(InCaller(x, ss)) <==>
      (l >= x.o.lab && l - x.o.lab in Jumps(ss)) || (l == x.retLab && CountReturns(ss) > 0)
    decreases ss, 1
  {
    if ss != [] {
      InCallerCons(x, ss[0], ss[1..]);
      assert [ss[0]] + ss[1..] == ss;
      JumpsConcat(InCallerStmt(x, ss[0]), InCaller(x, ss[1..]));
      CloneStmtJumps(x, ss[0], l);
      CloneJumps(x, ss[1..], l);
    }
  }

  lemma {:induction false} CloneStmtJumps(x: Site, s: Stmt, l: nat)
    ensures l in Jumps(InCallerStmt(x, s)) <==>
      (l >= x.o.lab && l - x.o.lab in StmtJumps(s)) || (l == x.retLab && CountReturn(s) > 0)
    decreases s, 0
  {
    match s
    case If(_, t, e) =>
      CloneJumps(x, t, l);
      CloneJumps(x, e, l);
      JumpsOne(InCallerStmt(x, s)[0]);
    case While(_, _, b) =>
      CloneJumps(x, b, l);
      JumpsOne(InCallerStmt(x, s)[0]);
    case Return(opnd) =>
      NoJumpsStored(x.dest, RenameStmt(x.o, s).opnd);
      JumpsConcat(StoreResult(x.dest, RenameStmt(x.o, s).opnd), [Goto(x.retLab)]);
      JumpsOne(Goto(x.retLab));
    case _ =>
      JumpsOne(RenameStmt(x.o, s));
  }

  lemma NoJumpsStored(dest: RetDest, opnd: Option<Expr>)
    ensures Jumps(StoreResult(dest, opnd)) == {}
  {
    var store := StoreResult(dest, opnd);
    if store != [] {
      JumpsOne(store[0]);
      assert store == [store[0]];
    }
  }

  lemma {:induction false} NoJumpsInActuals(formals: seq<nat>, opnds: seq<Expr>, o: Offsets, n: nat)
    requires n <= |formals| && n <= |opnds|
    ensures Jumps(AssignActuals(formals, opnds, o, n)) == {}
  {
    if n > 0 {
      NoJumpsInActuals(formals, opnds, o, n - 1);
      var s := Dassign(Local(formals[n - 1] + o.sym), opnds[n - 1]);
      JumpsOne(s);
      JumpsConcat([s], AssignActuals(formals, opnds, o, n - 1));
    }
  }

  lemma NoJumpsInHead(x: Site)
    requires SiteArity(x)
    ensures Jumps(Head(x)) == {}
  {
    NoJumpsInActuals(x.target.formals, x.opnds, x.o, |x.opnds|);
    var check := if x.target.checksThis && |x.opnds| > 0 then [AssertNonNull(x.opnds[0])] else [];
    if check != [] {
      JumpsOne(check[0]);
    }
    JumpsConcat(AssignActuals(x.target.formals, x.opnds, x.o, |x.opnds|), check);
    JumpsOne(Comment);
    JumpsConcat([Comment], Prologue(x));
  }

  lemma NoJumpsInEpilogue(x: Site)
    ensures Jumps(Epilogue(x)) == {}
  {
    JumpsOne(Comment);
    JumpsOne(Label(x.retLab));
    JumpsConcat(if KeepsLabel(x) then [Label(x.retLab)] else [], [Comment]);
  }

  /** The dropped goto is the one of the final return; the others stay. */
  lemma BodyJumps(x: Site, l: nat)
    ensures l in Jumps(BodyCode(x, x.target.body)) <==>
      (l >= x.o.lab && l - x.o.lab in Jumps(x.target.body))
      || (l == x.retLab && CountReturns(Init(x, x.target.body)) > 0)
  {
    var body := x.target.body;
    if EndsInReturn(body) {
      var init, last := body[..|body| - 1], body[|body| - 1];
      assert body == init + [last];
      JumpsConcat(init, [last]);
      JumpsOne(last);
      CloneJumps(x, init, l);
      NoJumpsStored(x.dest, RenameStmt(x.o, last).opnd);
      JumpsConcat(InCaller(x, init), StoreResult(x.dest, RenameStmt(x.o, last).opnd));
    } else {
      CloneJumps(x, body, l);
    }
  }

  lemma BlockJumps(x: Site, l: nat)
    requires SiteArity(x) && x.target.body != []
    ensures l in Jumps(Inlined(x)) <==>
      (l >= x.o.lab && l - x.o.lab in Jumps(x.target.body))
      || (l == x.retLab && CountReturns(Init(x, x.target.body)) > 0)
  {
    hide Head, BodyCode, Init;
    InlinedParts(x);
    NoJumpsInHead(x);
    BodyJumps(x, l);
    NoJumpsInEpilogue(x);
    JumpsConcat(BodyCode(x, x.target.body), Epilogue(x));
    JumpsConcat(Head(x), BodyCode(x, x.target.body) + Epilogue(x));
  }

  /** The return label that was created is kept exactly when a return still jumps to it. */
  lemma KeptExactly(x: Site)
    requires x.target.body != [] && !x.reuse
    ensures KeepsLabel(x) <==> CountReturns(Init(x, x.target.body)) > 0
  {
    var body := x.target.body;
    if EndsInReturn(body) {
      var last := body[|body| - 1];
      assert body == Init(x, body) + [last];
      CountConcat(Init(x, body), [last]);
      JumpsOne(last);
    }
  }

  /** Removing the last goto and perhaps the label is exact: the block has the created label if and
      only if something in it jumps there. */
  lemma LabelKeptIffUsed(x: Site)
    requires SiteArity(x) && x.target.body != [] && !x.reuse
    requires x.retLab - x.o.lab !in Jumps(x.target.body) + Labels(x.target.body)
    ensures x.retLab in Labels(Inlined(x)) <==> x.retLab in Jumps(Inlined(x))
  {
    BlockJumps(x, x.retLab);
    InlinedBlockLabels(x, x.retLab);
    KeptExactly(x);
  }

  /** Jumps of the caller and, where the call stood, those of the block. */
  lemma {:induction false} CallerJumps(x: Site, ss: seq<Stmt>, l: nat)
    requires SiteArity(x)
    ensures l in Jumps(Tr(x, ss)) <==> l in Jumps(ss) || (CountCalls(x.stmtID, ss) > 0 && l in Jumps(Inlined(x)))
    decreases ss, 1
  {
    hide Inlined;
    if ss != [] {
      JumpsConcat(TrStmt(x, ss[0]), Tr(x, ss[1..]));
      CallerStmtJumps(x, ss[0], l);
      CallerJumps(x, ss[1..], l);
    }
  }

  lemma {:induction false} CallerStmtJumps(x: Site, s: Stmt, l: nat)
    requires SiteArity(x)
    ensures l in Jumps(TrStmt(x, s)) <==> l in StmtJumps(s) || (CountCall(x.stmtID, s) > 0 && l in Jumps(Inlined(x)))
    decreases s, 0
  {
    hide Inlined;
    match s
    case If(_, t, e) =>
      CallerJumps(x, t, l);
      CallerJumps(x, e, l);
      JumpsOne(TrStmt(x, s)[0]);
    case While(_, _, b) =>
      CallerJumps(x, b, l);
      JumpsOne(TrStmt(x, s)[0]);
    case _ =>
      JumpsOne(s);
  }

  /** A jump of the block has its label: in the block, or, for a reused return label, in the caller. */
  lemma BlockJumpsFound(x: Site, f: Function, z: Sizes, l: nat)
    requires SiteArity(x) && CallerSide(x, f, z) && Jumps(x.target.body) <= Labels(x.target.body)
    requires x.target.body != [] && l in Jumps(Inlined(x))
    ensures l in Labels(Inlined(x)) || l in Labels(f.body)
  {
    hide AllOk, Jumps, Init, Inlined;
    BlockJumps(x, l);
    InlinedBlockLabels(x, l);
    if x.reuse {
      ReusedLabel(x, f.body, x.retLab);
    } else {
      KeptExactly(x);
    }
  }

  /** No jump of the caller is left without its label. */
  lemma JumpsFound(x: Site, f: Function, z: Sizes)
    requires SiteArity(x) && CallerSide(x, f, z)
    requires Jumps(f.body) <= Labels(f.body) && Jumps(x.target.body) <= Labels(x.target.body)
    ensures Jumps(Tr(x, f.body)) <= Labels(Tr(x, f.body))
  {
    hide AllOk, Jumps, Labels, Inlined, Tr, LabelFollows;
    forall l | l in Jumps(Tr(x, f.body)) ensures l in Labels(Tr(x, f.body)) {
      CallerJumps(x, f.body, l);
      CallerLabels(x, f.body, l);
      CountIsLabels(Tr(x, f.body), l);
      CountIsLabels(f.body, l);
      CountIsLabels(Inlined(x), l);
      if l !in Jumps(f.body) {
        InlinedIsNot(x, l);
        BlockJumpsFound(x, f, z, l);
      }
    }
  }

  lemma InlinedIsNot(x: Site, l: nat)
    requires SiteArity(x) && l in Jumps(Inlined(x))
    ensures x.target.body != []
  {
  }

  // ---------------------------------------------------------------- indices

  lemma {:induction false} LargerTables(call: Stmt, syms: nat, regs: nat, syms': nat, regs': nat, ss: seq<Stmt>)
    requires syms <= syms' && regs <= regs' && AllOk(CallerCheck(call, syms, regs), ss)
    ensures AllOk(CallerCheck(call, syms', regs'), ss)
    decreases ss, 1
  {
    if ss != [] {
      LargerTablesIn(call, syms, regs, syms', regs', ss[0]);
      LargerTables(call, syms, regs, syms', regs', ss[1..]);
    }
  }

  lemma {:induction false} LargerTablesIn(call: Stmt, syms: nat, regs: nat, syms': nat, regs': nat, s: Stmt)
    requires syms <= syms' && regs <= regs' && StmtOk(CallerCheck(call, syms, regs), s)
    ensures StmtOk(CallerCheck(call, syms', regs'), s)
    decreases s, 0
  {
    match s
    case If(_, t, e) =>
      LargerTables(call, syms, regs, syms', regs', t);
      LargerTables(call, syms, regs, syms', regs', e);
    case While(_, _, b) => LargerTables(call, syms, regs, syms', regs', b);
    case _ =>
  }

  /** `k` holds of the clone when `from` holds of the callee. */
  ghost predicate Carries(x: Site, from: Check, k: Check) {
    && (forall st: StIdx :: SymOk(from, st) ==> SymOk(k, RenameSt(x.o, st)))
    && (forall r: nat :: RegOk(from, r) ==> RegOk(k, r + x.o.reg))
    && (k.CallerCheck? ==> k.call == Comment) && !k.NoReturnCheck?
    && DestOk(k, x.dest)
  }

  lemma {:induction false} CloneOk(x: Site, from: Check, k: Check, ss: seq<Stmt>)
    requires Carries(x, from, k) && AllOk(from, ss)
    ensures AllOk(k, InCaller(x, ss))
    decreases ss, 1
  {
    if ss != [] {
      InCallerCons(x, ss[0], ss[1..]);
      assert [ss[0]] + ss[1..] == ss;
      CloneStmtOk(x, from, k, ss[0]);
      CloneOk(x, from, k, ss[1..]);
      AllOkConcat(k, InCallerStmt(x, ss[0]), InCaller(x, ss[1..]));
    }
  }

  lemma {:induction false} CloneStmtOk(x: Site, from: Check, k: Check, s: Stmt)
    requires Carries(x, from, k) && StmtOk(from, s)
    ensures AllOk(k, InCallerStmt(x, s))
    decreases s, 0
  {
    match s
    case Return(opnd) =>
      StoreOk(x, k, RenameStmt(x.o, s).opnd);
      AllOkOne(k, Goto(x.retLab));
      AllOkConcat(k, StoreResult(x.dest, RenameStmt(x.o, s).opnd), [Goto(x.retLab)]);
    case If(_, t, e) =>
      CloneOk(x, from, k, t);
      CloneOk(x, from, k, e);
      AllOkOne(k, InCallerStmt(x, s)[0]);
    case While(_, _, b) =>
      CloneOk(x, from, k, b);
      AllOkOne(k, InCallerStmt(x, s)[0]);
    case _ =>
      AllOkOne(k, RenameStmt(x.o, s));
  }

  lemma StoreOk(x: Site, k: Check, opnd: Option<Expr>)
    requires DestOk(k, x.dest)
    ensures AllOk(k, StoreResult(x.dest, opnd))
  {
    var store := StoreResult(x.dest, opnd);
    if store != [] {
      AllOkOne(k, store[0]);
      assert store == [store[0]];
    }
  }

  lemma {:induction false} ActualsOk(x: Site, k: Check, n: nat)
    requires n <= |x.opnds| && n <= |x.target.formals|
    requires forall i :: 0 <= i < |x.target.formals| ==> SymOk(k, Local(x.target.formals[i] + x.o.sym))
    ensures AllOk(k, AssignActuals(x.target.formals, x.opnds, x.o, n))
  {
    if n > 0 {
      ActualsOk(x, k, n - 1);
    }
  }

  lemma BlockOk(x: Site, from: Check, k: Check)
    requires SiteArity(x) && Carries(x, from, k) && AllOk(from, x.target.body)
    requires forall i :: 0 <= i < |x.target.formals| ==> SymOk(k, Local(x.target.formals[i] + x.o.sym))
    ensures AllOk(k, Inlined(x))
  {
    hide Carries, RenameStmt, StoreResult, AssignActuals;
    var body := x.target.body;
    if body != [] {
      CarriesDest(x, from, k);
      ActualsOk(x, k, |x.opnds|);
      var a := AssignActuals(x.target.formals, x.opnds, x.o, |x.opnds|);
      var check := if x.target.checksThis && |x.opnds| > 0 then [AssertNonNull(x.opnds[0])] else [];
      AllOkOne(k, AssertNonNull(if |x.opnds| > 0 then x.opnds[0] else Const(0)));
      AllOkConcat(k, a, check);
      AllOkOne(k, Comment);
      AllOkConcat(k, [Comment], Prologue(x));
      BodyCodeOk(x, from, k);
      EpilogueOk(x, k);
      AllOkConcat(k, BodyCode(x, body), Epilogue(x));
      AllOkConcat(k, Head(x), BodyCode(x, body) + Epilogue(x));
      InlinedParts(x);
    }
  }

  lemma CarriesDest(x: Site, from: Check, k: Check)
    requires Carries(x, from, k)
    ensures DestOk(k, x.dest)
  {
  }

  lemma BodyCodeOk(x: Site, from: Check, k: Check)
    requires Carries(x, from, k) && AllOk(from, x.target.body)
    ensures AllOk(k, BodyCode(x, x.target.body))
  {
    hide Carries;
    var body := x.target.body;
    CarriesDest(x, from, k);
    if EndsInReturn(body) {
      var init, last := body[..|body| - 1], body[|body| - 1];
      assert body == init + [last];
      AllOkConcat(from, init, [last]);
      CloneOk(x, from, k, init);
      StoreOk(x, k, RenameStmt(x.o, last).opnd);
      AllOkConcat(k, InCaller(x, init), StoreResult(x.dest, RenameStmt(x.o, last).opnd));
    } else {
      CloneOk(x, from, k, body);
    }
  }

  lemma EpilogueOk(x: Site, k: Check)
    ensures AllOk(k, Epilogue(x))
  {
    AllOkOne(k, Comment);
    AllOkOne(k, Label(x.retLab));
    AllOkConcat(k, if KeepsLabel(x) then [Label(x.retLab)] else [], [Comment]);
  }

  lemma {:induction false} CallerStaysOk(x: Site, k: Check, ss: seq<Stmt>)
    requires SiteArity(x) && AllOk(k, ss) && AllOk(k, Inlined(x))
    ensures AllOk(k, Tr(x, ss))
    decreases ss, 1
  {
    hide Inlined;
    if ss != [] {
      CallerStmtStaysOk(x, k, ss[0]);
      CallerStaysOk(x, k, ss[1..]);
      AllOkConcat(k, TrStmt(x, ss[0]), Tr(x, ss[1..]));
    }
  }

  lemma {:induction false} CallerStmtStaysOk(x: Site, k: Check, s: Stmt)
    requires SiteArity(x) && StmtOk(k, s) && AllOk(k, Inlined(x))
    ensures AllOk(k, TrStmt(x, s))
    decreases s, 0
  {
    hide Inlined;
    match s
    case If(_, t, e) =>
      CallerStaysOk(x, k, t);
      CallerStaysOk(x, k, e);
      AllOkOne(k, TrStmt(x, s)[0]);
    case While(_, _, b) =>
      CallerStaysOk(x, k, b);
      AllOkOne(k, TrStmt(x, s)[0]);
    case _ =>
      AllOkOne(k, s);
  }

  /** The call's own result goes where the caller may write. */
  lemma {:induction false} ResultOk(x: Site, syms: nat, regs: nat, k: Check, ss: seq<Stmt>)
    requires AllOk(CallerCheck(TheCall(x), syms, regs), ss) && AllOk(k, ss) && CountCalls(x.stmtID, ss) > 0
    ensures DestOk(k, x.dest)
    decreases ss, 1
  {
    if CountCall(x.stmtID, ss[0]) > 0 {
      ResultOkIn(x, syms, regs, k, ss[0]);
    } else {
      ResultOk(x, syms, regs, k, ss[1..]);
    }
  }

  lemma {:induction false} ResultOkIn(x: Site, syms: nat, regs: nat, k: Check, s: Stmt)
    requires StmtOk(CallerCheck(TheCall(x), syms, regs), s) && StmtOk(k, s) && CountCall(x.stmtID, s) > 0
    ensures DestOk(k, x.dest)
    decreases s, 0
  {
    match s
    case Call(_, _, _, _) =>
    case If(_, t, e) => ResultOk(x, syms, regs, k, if CountCalls(x.stmtID, t) > 0 then t else e);
    case While(_, _, b) => ResultOk(x, syms, regs, k, b);
  }

  // ---------------------------------------------------------------- the calls that are left

  lemma {:induction false} CloneCalls(x: Site, ss: seq<Stmt>, id: nat)
    ensures CountCalls(id, InCaller(x, ss)) == CountCalls(id, ss)
    decreases ss, 1
  {
    if ss != [] {
      InCallerCons(x, ss[0], ss[1..]);
      assert [ss[0]] + ss[1..] == ss;
      CallsConcat(id, InCallerStmt(x, ss[0]), InCaller(x, ss[1..]));
      CloneStmtCalls(x, ss[0], id);
      CloneCalls(x, ss[1..], id);
    }
  }

  lemma {:induction false} CloneStmtCalls(x: Site, s: Stmt, id: nat)
    ensures CountCalls(id, InCallerStmt(x, s)) == CountCall(id, s)
    decreases s, 0
  {
    match s
    case If(_, t, e) =>
      CloneCalls(x, t, id);
      CloneCalls(x, e, id);
    case While(_, _, b) => CloneCalls(x, b, id);
    case Return(opnd) =>
      NoCallsStored(x.dest, RenameStmt(x.o, s).opnd, id);
      CallsConcat(id, StoreResult(x.dest, RenameStmt(x.o, s).opnd), [Goto(x.retLab)]);
      assert CountCalls(id, [Goto(x.retLab)]) == 0 by { assert [Goto(x.retLab)][1..] == []; }
    case _ =>
  }

  lemma NoCallsStored(dest: RetDest, opnd: Option<Expr>, id: nat)
    ensures CountCalls(id, StoreResult(dest, opnd)) == 0
  {
  }

  lemma {:induction false} NoCallsInActuals(formals: seq<nat>, opnds: seq<Expr>, o: Offsets, n: nat, id: nat)
    requires n <= |formals| && n <= |opnds|
    ensures CountCalls(id, AssignActuals(formals, opnds, o, n)) == 0
  {
    if n > 0 {
      NoCallsInActuals(formals, opnds, o, n - 1, id);
      CallsConcat(id, [Dassign(Local(formals[n - 1] + o.sym), opnds[n - 1])], AssignActuals(formals, opnds, o, n - 1));
    }
  }

  lemma HeadCalls(x: Site, id: nat)
    requires SiteArity(x)
    ensures CountCalls(id, Head(x)) == 0
  {
    NoCallsInActuals(x.target.formals, x.opnds, x.o, |x.opnds|, id);
    var check := if x.target.checksThis && |x.opnds| > 0 then [AssertNonNull(x.opnds[0])] else [];
    CallsConcat(id, AssignActuals(x.target.formals, x.opnds, x.o, |x.opnds|), check);
    CallsConcat(id, [Comment], Prologue(x));
  }

  lemma BodyCalls(x: Site, id: nat)
    ensures CountCalls(id, BodyCode(x, x.target.body)) == CountCalls(id, x.target.body)
  {
    var body := x.target.body;
    if EndsInReturn(body) {
      var init, last := body[..|body| - 1], body[|body| - 1];
      assert body == init + [last];
      CallsConcat(id, init, [last]);
      assert CountCalls(id, [last]) == 0 by { assert [last][1..] == []; }
      CloneCalls(x, init, id);
      NoCallsStored(x.dest, RenameStmt(x.o, last).opnd, id);
      CallsConcat(id, InCaller(x, init), StoreResult(x.dest, RenameStmt(x.o, last).opnd));
    } else {
      CloneCalls(x, body, id);
    }
  }

  /** The block makes the calls of the callee and no other. */
  lemma BlockCalls(x: Site, id: nat)
    requires SiteArity(x) && x.target.body != []
    ensures CountCalls(id, Inlined(x)) == CountCalls(id, x.target.body)
  {
    hide Head, BodyCode;
    InlinedParts(x);
    HeadCalls(x, id);
    BodyCalls(x, id);
    CallsConcat(id, BodyCode(x, x.target.body), Epilogue(x));
    CallsConcat(id, Head(x), BodyCode(x, x.target.body) + Epilogue(x));
    CallsConcat(id, if KeepsLabel(x) then [Label(x.retLab)] else [], [Comment]);
    assert CountCalls(id, [Comment]) == 0 by { assert [Comment][1..] == []; }
    assert CountCalls(id, [Label(x.retLab)]) == 0 by { assert [Label(x.retLab)][1..] == []; }
  }

  lemma {:induction false} OtherCalls(x: Site, ss: seq<Stmt>, id: nat)
    requires SiteArity(x) && id != x.stmtID && CountCalls(id, Inlined(x)) == 0
    ensures CountCalls(id, Tr(x, ss)) == CountCalls(id, ss)
    decreases ss, 1
  {
    hide Inlined;
    if ss != [] {
      CallsConcat(id, TrStmt(x, ss[0]), Tr(x, ss[1..]));
      OtherStmtCalls(x, ss[0], id);
      OtherCalls(x, ss[1..], id);
    }
  }

  lemma {:induction false} OtherStmtCalls(x: Site, s: Stmt, id: nat)
    requires SiteArity(x) && id != x.stmtID && CountCalls(id, Inlined(x)) == 0
    ensures CountCalls(id, TrStmt(x, s)) == CountCall(id, s)
    decreases s, 0
  {
    hide Inlined;
    match s
    case If(_, t, e) =>
      OtherCalls(x, t, id);
      OtherCalls(x, e, id);
    case While(_, _, b) => OtherCalls(x, b, id);
    case _ =>
  }

  lemma {:induction false} NoSuchCall(call: Stmt, syms: nat, regs: nat, ss: seq<Stmt>)
    requires call.Call? && AllOk(CallerCheck(Comment, syms, regs), ss) && CountCalls(call.stmtID, ss) == 0
    ensures AllOk(CallerCheck(call, syms, regs), ss)
    decreases ss, 1
  {
    if ss != [] {
      NoSuchCallIn(call, syms, regs, ss[0]);
      NoSuchCall(call, syms, regs, ss[1..]);
    }
  }

  lemma {:induction false} NoSuchCallIn(call: Stmt, syms: nat, regs: nat, s: Stmt)
    requires call.Call? && StmtOk(CallerCheck(Comment, syms, regs), s) && CountCall(call.stmtID, s) == 0
    ensures StmtOk(CallerCheck(call, syms, regs), s)
    decreases s, 0
  {
    match s
    case If(_, t, e) =>
      NoSuchCall(call, syms, regs, t);
      NoSuchCall(call, syms, regs, e);
    case While(_, _, b) => NoSuchCall(call, syms, regs, b);
    case _ =>
  }

  // ---------------------------------------------------------------- the caller after the inlining

  /** Sizes of the caller's tables after the inlining. */
  function Grown(x: Site, z: Sizes, z': Sizes): Sizes
    requires z.syms >= 1 && z.regs >= 1 && z.labs >= 1 && z'.syms >= 1 && z'.regs >= 1 && z'.labs >= 1
  {
    Sizes(z.syms + z'.syms - 1, z.regs + z'.regs - 1, z.labs + z'.labs - 1 + if x.reuse then 0 else 1)
  }

  /** The site uses the caller's tables as RenameSymbols, RenameLabels and RenamePregs leave them. */
  ghost predicate SiteFits(x: Site, f: Function, z: Sizes, z': Sizes) {
    && SiteArity(x) && z.syms >= 1 && z.regs >= 1 && z.labs >= 1 && z'.syms >= 1 && z'.regs >= 1 && z'.labs >= 1
    && x.o == Offsets(z.syms - 1, z.labs - 1, z.regs - 1)
    && (!x.reuse ==> x.retLab == z.labs + z'.labs - 1)
    && CallerSide(x, f, z)
  }

  lemma WritesStayGood(x: Site, f: Function, z: Sizes, z': Sizes)
    requires SiteFits(x, f, z, z') && GoodFunction(f, z) && GoodFunction(x.target, z')
    ensures AllOk(CalleeCheck, Tr(x, f.body)) && AllOk(InTables(Grown(x, z, z')), Tr(x, f.body))
    ensures AllOk(InTables(Grown(x, z, z')), Inlined(x))
  {
    hide AllOk, CountLabels, Tr, Inlined, LabelFollows, Labels;
    var g := Grown(x, z, z');
    ResultOk(x, z.syms, z.regs, CalleeCheck, f.body);
    ResultOk(x, z.syms, z.regs, InTables(z), f.body);
    assert Carries(x, CalleeCheck, CalleeCheck);
    assert Carries(x, InTables(z'), InTables(g));
    BlockOk(x, CalleeCheck, CalleeCheck);
    BlockOk(x, InTables(z'), InTables(g));
    LargerTables(Comment, z.syms, z.regs, g.syms, g.regs, f.body);
    CallerStaysOk(x, CalleeCheck, f.body);
    CallerStaysOk(x, InTables(g), f.body);
  }

  lemma LabelsStayGood(x: Site, f: Function, z: Sizes, z': Sizes, l: nat)
    requires SiteFits(x, f, z, z') && GoodFunction(f, z) && GoodFunction(x.target, z')
    ensures CountLabels(Tr(x, f.body), l) <= if 1 <= l < Grown(x, z, z').labs then 1 else 0
  {
    hide AllOk, CountLabels, Tr, Inlined, LabelFollows, Labels, KeepsLabel;
    CallerLabels(x, f.body, l);
    if x.target.body != [] {
      BlockLabels(x, l);
      if KeepsLabel(x) {
        KeptIsNew(x);
      }
    } else {
      NoBlock(x, l);
    }
  }

  lemma KeptIsNew(x: Site)
    requires KeepsLabel(x)
    ensures !x.reuse
  {
  }

  lemma NoBlock(x: Site, l: nat)
    requires SiteArity(x) && x.target.body == []
    ensures CountLabels(Inlined(x), l) == 0
  {
  }

  /** The caller is good again, with the larger tables: its indices are in range, each of its
      labels stands once and every jump has its label, so that the next inlining starts from what
      this one started from. */
  lemma StaysGood(x: Site, f: Function, z: Sizes, z': Sizes)
    requires SiteFits(x, f, z, z') && GoodFunction(f, z) && GoodFunction(x.target, z')
    ensures GoodFunction(f.(body := Tr(x, f.body)), Grown(x, z, z'))
  {
    hide AllOk, CountLabels, Tr, SiteFits, InTables, Jumps, Labels;
    SizesFit(x, f, z, z');
    JumpsFound(x, f, z);
    WritesStayGood(x, f, z, z');
    forall l: nat ensures CountLabels(Tr(x, f.body), l) <= if 1 <= l < Grown(x, z, z').labs then 1 else 0 {
      LabelsStayGood(x, f, z, z', l);
    }
  }

  lemma SizesFit(x: Site, f: Function, z: Sizes, z': Sizes)
    requires SiteFits(x, f, z, z')
    ensures SiteArity(x) && z.syms >= 1 && z.regs >= 1 && z.labs >= 1 && z'.syms >= 1 && z'.regs >= 1 && z'.labs >= 1
    ensures z.syms <= Grown(x, z, z').syms && CallerSide(x, f, z)
  {
  }

  /** Another call of the caller is still there, once, and may be inlined next. */
  lemma OtherCallStays(x: Site, f: Function, z: Sizes, z': Sizes, call: Stmt)
    requires SiteFits(x, f, z, z') && GoodFunction(f, z) && GoodFunction(x.target, z')
    requires call.Call? && call.stmtID != x.stmtID && CountCalls(call.stmtID, x.target.body) == 0
    requires CountCalls(call.stmtID, f.body) == 1 && AllOk(CallerCheck(call, z.syms, z.regs), f.body)
    ensures CountCalls(call.stmtID, Tr(x, f.body)) == 1
    ensures AllOk(CallerCheck(call, Grown(x, z, z').syms, Grown(x, z, z').regs), Tr(x, f.body))
  {
    hide AllOk, CountLabels, CountCalls, Tr, Inlined, LabelFollows, Labels;
    var g := Grown(x, z, z');
    if x.target.body != [] {
      BlockCalls(x, call.stmtID);
    } else {
      NoBlockCalls(x, call.stmtID);
    }
    OtherCalls(x, f.body, call.stmtID);
    WritesStayGood(x, f, z, z');
    NoSuchCall(call, g.syms, g.regs, Inlined(x));
    LargerTables(call, z.syms, z.regs, g.syms, g.regs, f.body);
    CallerStaysOk(x, CallerCheck(call, g.syms, g.regs), f.body);
  }

  lemma NoBlockCalls(x: Site, id: nat)
    requires SiteArity(x) && x.target.body == []
    ensures CountCalls(id, Inlined(x)) == 0
  {
  }
}
