/** MInline::InlineCalls: all chosen calls of one caller, one after the other.
    mapleall/maple_ipa/src/inline.cpp:909-958. */
module InlineCalls {
  import opened Options
  import opened Mir
  import opened MirTables
  import opened InlineTransform
  import opened InlineStructure
  import opened InlineInvariant
  import opened InlineFrames
  import opened InlineCorrect
  import opened InlineTheorem
  import opened InlineAgain
  import opened InlineReturns
  import opened PerformInline

  // ---------------------------------------------------------------- the walk

  /** The calls of functions in `toInline`, in the order in which the walk meets them.  What is
      inlined is not walked again. */
  function Chosen(ss: seq<Stmt>, toInline: set<nat>): seq<Stmt> {
    if ss == [] then [] else ChosenIn(ss[0], toInline) + Chosen(ss[1..], toInline)
  }

  function ChosenIn(s: Stmt, toInline: set<nat>): seq<Stmt> {
    match s
    case Call(_, callee, _, _) => if callee in toInline then [s] else []
    case If(_, t, e) => Chosen(t, toInline) + Chosen(e, toInline)
    case While(_, _, b) => Chosen(b, toInline)
    case _ => []
  }

  /** Every call of a function of `toInline` is met, at whatever depth it stands. */
  lemma {:induction false} EveryCallChosen(c: Stmt, toInline: set<nat>, syms: nat, regs: nat, ss: seq<Stmt>)
    requires c.Call? && c.puIdx in toInline && AllOk(CallerCheck(c, syms, regs), ss) && CountCalls(c.stmtID, ss) > 0
    ensures c in Chosen(ss, toInline)
    decreases ss, 1
  {
    if CountCall(c.stmtID, ss[0]) > 0 {
      EveryCallChosenIn(c, toInline, syms, regs, ss[0]);
    } else {
      EveryCallChosen(c, toInline, syms, regs, ss[1..]);
    }
  }

  lemma {:induction false} EveryCallChosenIn(c: Stmt, toInline: set<nat>, syms: nat, regs: nat, s: Stmt)
    requires c.Call? && c.puIdx in toInline && StmtOk(CallerCheck(c, syms, regs), s) && CountCall(c.stmtID, s) > 0
    ensures c in ChosenIn(s, toInline)
    decreases s, 0
  {
    match s
    case Call(_, _, _, _) =>
    case If(_, t, e) => EveryCallChosen(c, toInline, syms, regs, if CountCalls(c.stmtID, t) > 0 then t else e);
    case While(_, _, b) => EveryCallChosen(c, toInline, syms, regs, b);
  }

  /** Nothing else is. */
  lemma {:induction false} OnlyCallsChosen(c: Stmt, toInline: set<nat>, ss: seq<Stmt>)
    requires c in Chosen(ss, toInline)
    ensures c.Call? && c.puIdx in toInline && CountCalls(c.stmtID, ss) > 0
    decreases ss, 1
  {
    if c in ChosenIn(ss[0], toInline) {
      OnlyCallsChosenIn(c, toInline, ss[0]);
    } else {
      OnlyCallsChosen(c, toInline, ss[1..]);
    }
  }

  lemma {:induction false} OnlyCallsChosenIn(c: Stmt, toInline: set<nat>, s: Stmt)
    requires c in ChosenIn(s, toInline)
    ensures c.Call? && c.puIdx in toInline && CountCall(c.stmtID, s) > 0
    decreases s, 0
  {
    match s
    case Call(_, _, _, _) =>
    case If(_, t, e) => OnlyCallsChosen(c, toInline, if c in Chosen(t, toInline) then t else e);
    case While(_, _, b) => OnlyCallsChosen(c, toInline, b);
  }

  /** A call that stands earlier is met earlier, in a list, in the two parts of an `if`, in a loop. */
  lemma {:induction false} ChosenInOrder(a: seq<Stmt>, b: seq<Stmt>, c: Expr, first: bool, toInline: set<nat>)
    ensures Chosen(a + b, toInline) == Chosen(a, toInline) + Chosen(b, toInline)
    ensures Chosen([If(c, a, b)], toInline) == Chosen(a + b, toInline)
    ensures Chosen([While(first, c, a)], toInline) == Chosen(a, toInline)
  {
    assert [If(c, a, b)][1..] == [] && [While(first, c, a)][1..] == [];
    if a == [] {
      assert a + b == b;
    } else {
      ChosenInOrder(a[1..], b, c, first, toInline);
      assert (a + b)[1..] == a[1..] + b;
    }
  }

  // ---------------------------------------------------------------- callees

  datatype Callee = Callee(f: Function, tables: Tables)

  function SizesOf(t: Tables): Sizes {
    Sizes(|t.syms.table|, |t.pregs|, |t.labels|)
  }

  /** A callee that may be inlined: good, wholly copied, and not empty with a null check. */
  ghost predicate MayBeInlined(c: Callee) {
    && GoodFunction(c.f, SizesOf(c.tables)) && AllCopied(c.tables.syms.table) && KeepsNullCheck(c.f)
    && |c.tables.syms.table| >= 1 && |c.tables.pregs| >= 1 && |c.tables.labels| >= 1
  }

  /** Its own names differ, and its pregs are known. */
  ghost predicate CanBeCopied(c: Callee) {
    NamesDiffer(c.tables.syms.table) && RegsKnown(|c.tables.pregs|, c.f.body)
  }

  /** The calls stand for themselves: statement ids are addresses. */
  ghost predicate Apart(calls: seq<Stmt>, callees: map<nat, Callee>) {
    && (forall i :: 0 <= i < |calls| ==> calls[i].Call? && calls[i].puIdx in callees)
    && (forall i :: 0 <= i < |calls| ==> |calls[i].opnds| == |callees[calls[i].puIdx].f.formals|)
    && (forall i, j :: 0 <= i < j < |calls| ==> calls[i].stmtID != calls[j].stmtID)
    && (forall i, q :: 0 <= i < |calls| && q in callees ==> CountCalls(calls[i].stmtID, callees[q].f.body) == 0)
  }

  // ---------------------------------------------------------------- one inlining after the other

  /** The caller and its tables after some of the inlinings. */
  datatype Stage = Stage(f: Function, z: Sizes)

  /** The call is replaced by the block of its callee, at offsets and with a label from the tables. */
  ghost predicate InlinesTo(x: Site, call: Stmt, callees: map<nat, Callee>, before: Stage, after: Stage) {
    && call.Call? && call.puIdx in callees && call == TheCall(x) && x.target == callees[call.puIdx].f
    && SiteFits(x, before.f, before.z, SizesOf(callees[call.puIdx].tables))
    && after.f == before.f.(body := Tr(x, before.f.body))
    && after.z == if x.target.body == [] then before.z else Grown(x, before.z, SizesOf(callees[call.puIdx].tables))
  }

  /** The first calls, one for each site, are inlined one after the other. */
  ghost predicate InlinedInTurn(stages: seq<Stage>, xs: seq<Site>, calls: seq<Stmt>, callees: map<nat, Callee>) {
    && |stages| == |xs| + 1 && |xs| <= |calls|
    && (forall i :: 0 <= i < |xs| ==> InlinesTo(xs[i], calls[i], callees, stages[i], stages[i + 1]))
  }

  lemma OneMoreStage(stages: seq<Stage>, xs: seq<Site>, calls: seq<Stmt>, callees: map<nat, Callee>, x: Site,
                     after: Stage)
    requires InlinedInTurn(stages, xs, calls, callees) && |xs| < |calls|
    requires InlinesTo(x, calls[|xs|], callees, stages[|xs|], after)
    ensures InlinedInTurn(stages + [after], xs + [x], calls, callees)
  {
    hide InlinesTo;
  }

  /** Where the call stood it stands no more. */
  lemma {:induction false} CallGone(x: Site, ss: seq<Stmt>)
    requires SiteArity(x) && CountCalls(x.stmtID, Inlined(x)) == 0
    ensures CountCalls(x.stmtID, Tr(x, ss)) == 0
    decreases ss, 1
  {
    hide Inlined;
    if ss != [] {
      CallsConcat(x.stmtID, TrStmt(x, ss[0]), Tr(x, ss[1..]));
      CallGoneIn(x, ss[0]);
      CallGone(x, ss[1..]);
    }
  }

  lemma {:induction false} CallGoneIn(x: Site, s: Stmt)
    requires SiteArity(x) && CountCalls(x.stmtID, Inlined(x)) == 0
    ensures CountCalls(x.stmtID, TrStmt(x, s)) == 0
    decreases s, 0
  {
    hide Inlined;
    match s
    case If(_, t, e) =>
      CallGone(x, t);
      CallGone(x, e);
    case While(_, _, b) => CallGone(x, b);
    case _ =>
  }

  lemma CallsInBlock(x: Site, id: nat)
    requires SiteArity(x) && CountCalls(id, x.target.body) == 0
    ensures CountCalls(id, Inlined(x)) == 0
  {
    if x.target.body == [] {
      NoBlockCalls(x, id);
    } else {
      BlockCalls(x, id);
    }
  }

  /** An inlined call is gone and does not come back with a later block. */
  lemma {:induction false} InlinedIsGone(stages: seq<Stage>, xs: seq<Site>, calls: seq<Stmt>,
                                         callees: map<nat, Callee>, j: nat, n: nat)
    requires InlinedInTurn(stages, xs, calls, callees) && j < n <= |xs|
    requires calls[j].Call? && forall q :: q in callees ==> CountCalls(calls[j].stmtID, callees[q].f.body) == 0
    ensures CountCalls(calls[j].stmtID, stages[n].f.body) == 0
    decreases n
  {
    hide Tr, Inlined, SiteFits;
    var x, before, id := xs[n - 1], stages[n - 1], calls[j].stmtID;
    assert InlinesTo(x, calls[n - 1], callees, before, stages[n]);
    SizesFit(x, before.f, before.z, SizesOf(callees[calls[n - 1].puIdx].tables));
    CallsInBlock(x, id);
    if id == x.stmtID {
      CallGone(x, before.f.body);
    } else {
      InlinedIsGone(stages, xs, calls, callees, j, n - 1);
      OtherCalls(x, before.f.body, id);
    }
  }

  ghost predicate AllInlined(stages: seq<Stage>, xs: seq<Site>, calls: seq<Stmt>, callees: map<nat, Callee>) {
    InlinedInTurn(stages, xs, calls, callees) && |xs| == |calls|
  }

  /** None of the calls stands in the statements. */
  ghost predicate NoneLeft(calls: seq<Stmt>, ss: seq<Stmt>) {
    forall i :: 0 <= i < |calls| ==> calls[i].Call? && CountCalls(calls[i].stmtID, ss) == 0
  }

  lemma AllGone(stages: seq<Stage>, xs: seq<Site>, calls: seq<Stmt>, callees: map<nat, Callee>)
    requires AllInlined(stages, xs, calls, callees) && Apart(calls, callees)
    ensures NoneLeft(calls, stages[|calls|].f.body)
  {
    hide InlinesTo;
    forall i | 0 <= i < |calls|
      ensures calls[i].Call? && CountCalls(calls[i].stmtID, stages[|calls|].f.body) == 0
    {
      InlinedIsGone(stages, xs, calls, callees, i, |calls|);
    }
  }

  ghost predicate SameEnding(p: Program, p': Program, entry: nat, globals: Env)
    requires entry in p && entry in p'
  {
    forall s: State :: Ends(p, entry, globals, s) <==> Ends(p', entry, globals, s)
  }

  /** A program whose runs never get stuck, in which the caller is `f` and the callees are themselves. */
  ghost predicate Sound(p: Program, callerIdx: nat, f: Function, callees: map<nat, Callee>, entry: nat, globals: Env) {
    && callerIdx in p && p[callerIdx] == f && callerIdx !in callees
    && (forall q :: q in callees ==> q in p && p[q] == callees[q].f)
    && entry in p && p[entry].formals == [] && NeverStuck(p, entry, globals)
  }

  /** What holds after the first `i` calls: the caller is good and the others are still to be found. */
  ghost predicate Walking(f: Function, z: Sizes, calls: seq<Stmt>, i: nat) {
    && z.syms >= 1 && z.regs >= 1 && z.labs >= 1
    && GoodFunction(f, z)
    && (forall j :: i <= j < |calls| ==> calls[j].Call? && OneCall(f, calls[j], z))
  }

  /** With an empty callee the call is removed and the tables stay. */
  lemma EmptyKeepsCall(x: Site, f: Function, z: Sizes, z': Sizes, call: Stmt)
    requires SiteFits(x, f, z, z') && x.target.body == [] && call.Call? && call.stmtID != x.stmtID
    requires OneCall(f, call, z)
    ensures OneCall(f.(body := Tr(x, f.body)), call, z)
  {
    hide CallerSide, Tr;
    OtherCalls(x, f.body, call.stmtID);
    CallerStaysOk(x, CallerCheck(call, z.syms, z.regs), f.body);
  }

  lemma KeepsOtherCall(x: Site, f: Function, z: Sizes, z': Sizes, now: Sizes, call: Stmt)
    requires SiteFits(x, f, z, z') && GoodFunction(f, z) && GoodFunction(x.target, z')
    requires now == if x.target.body == [] then z else Grown(x, z, z')
    requires call.Call? && call.stmtID != x.stmtID && CountCalls(call.stmtID, x.target.body) == 0 && OneCall(f, call, z)
    ensures OneCall(f.(body := Tr(x, f.body)), call, now)
  {
    hide SiteFits, GoodFunction, Tr, Grown;
    if x.target.body == [] {
      EmptyKeepsCall(x, f, z, z', call);
    } else {
      OtherCallStays(x, f, z, z', call);
    }
  }

  /** One more call is inlined. */
  lemma WalkOn(x: Site, f: Function, z: Sizes, c: Callee, now: Sizes, calls: seq<Stmt>, i: nat,
               callees: map<nat, Callee>)
    requires Walking(f, z, calls, i) && i < |calls| && Apart(calls, callees)
    requires calls[i].puIdx in callees && callees[calls[i].puIdx] == c && MayBeInlined(c)
    requires calls[i] == TheCall(x) && x.target == c.f && SiteFits(x, f, z, SizesOf(c.tables))
    requires now == if c.f.body == [] then z else Grown(x, z, SizesOf(c.tables))
    requires GoodFunction(f.(body := Tr(x, f.body)), now)
    ensures Walking(f.(body := Tr(x, f.body)), now, calls, i + 1)
  {
    hide SiteFits, GoodFunction, Tr, OneCall;
    SizesFit(x, f, z, SizesOf(c.tables));
    forall j | i + 1 <= j < |calls| ensures OneCall(f.(body := Tr(x, f.body)), calls[j], now) {
      KeepsOtherCall(x, f, z, SizesOf(c.tables), now, calls[j]);
    }
  }

  /** The program with the new body is as sound and ends in the same way. */
  lemma StepsEnd(p: Program, x: Site, f: Function, z: Sizes, z': Sizes, callees: map<nat, Callee>, entry: nat,
                 globals: Env)
    requires SiteFits(x, f, z, z') && CalleeSide(x, z) && KeepsNullCheck(x.target)
    requires Sound(p, x.caller, f, callees, entry, globals) && x.callee in callees && callees[x.callee].f == x.target
    ensures var f' := f.(body := Tr(x, f.body));
      Sound(p[x.caller := f'], x.caller, f', callees, entry, globals)
        && SameEnding(p, p[x.caller := f'], entry, globals)
  {
    hide CallerSide, CalleeSide, Ends, NeverStuck, Tr, KeepsNullCheck;
    var f' := f.(body := Tr(x, f.body));
    InlinedProgram(p, x, f, f', z, entry, globals);
    assert TrProgram(x, p) == p[x.caller := f'];
    InliningStaysSafe(x, p, z, entry, globals);
  }

  lemma EndingTrans(p: Program, q: Program, r: Program, entry: nat, globals: Env)
    requires entry in p && entry in q && entry in r && SameEnding(p, q, entry, globals)
    requires SameEnding(q, r, entry, globals)
    ensures SameEnding(p, r, entry, globals)
  {
    hide Ends;
  }

  // ---------------------------------------------------------------- names never run out

  function TimesOf(times: map<nat, nat>, q: nat): nat {
    if q in times then times[q] else 0
  }

  /** The names of all inlinings to come are free. */
  ghost predicate AllFree(names: map<string, nat>, idxs: set<nat>, times: map<nat, nat>) {
    forall q :: q in idxs ==> FreeFrom(names, q, TimesOf(times, q))
  }

  lemma AllStayFree(t: seq<Option<Symbol>>, k: nat, pu: nat, before: Contents, now: Contents, idxs: set<nat>,
                    times: map<nat, nat>)
    requires CopiesAdded(t, k, pu, TimesOf(times, pu), before, now) && AllFree(before.names, idxs, times)
    ensures AllFree(now.names, idxs, times[pu := TimesOf(times, pu) + 1])
  {
    hide CopiesAdded, Mangled;
    var times' := times[pu := TimesOf(times, pu) + 1];
    forall q | q in idxs ensures FreeFrom(now.names, q, TimesOf(times', q)) {
      assert FreeFrom(before.names, q, TimesOf(times, q));
      StaysFree(t, k, pu, TimesOf(times, pu), before, now, q, TimesOf(times', q));
    }
  }

  lemma GrownNames(from: Tables, before: Tables, now: Tables, k: nat, extra: seq<string>, pu: nat, times: nat)
    requires TablesGrown(from, before, now, k, extra, pu, times)
    ensures CopiesAdded(from.syms.table, k, pu, times, before.syms, now.syms)
  {
  }

  /** So a callee that can be copied at all can be copied now. */
  lemma FreeCanRename(c: Callee, to: Tables, idxs: set<nat>, times: map<nat, nat>, pu: nat)
    requires CanBeCopied(c) && MayBeInlined(c) && pu in idxs && AllFree(to.syms.names, idxs, times)
    ensures CanRename(c.tables, to, c.f.body, pu, TimesOf(times, pu))
  {
    hide Mangled, RegsKnown, GoodFunction;
    assert FreeFrom(to.syms.names, pu, TimesOf(times, pu));
    AllCopiedNoGap(c.tables.syms.table);
  }

  lemma AllCopiedNoGap(t: seq<Option<Symbol>>)
    requires AllCopied(t)
    ensures NoGap(t)
  {
  }

  // ---------------------------------------------------------------- InlineCalls

  function View(m: MIRFunction): Callee
    reads m, m.symTab, m.labelTab, m.pregTab
  {
    Callee(m.Now(), m.TablesNow())
  }

  function StageOf(m: MIRFunction): Stage
    reads m, m.symTab, m.labelTab, m.pregTab
  {
    Stage(m.Now(), m.TableSizes())
  }

  /** The functions of toInline are themselves, apart from the caller and its tables. */
  ghost predicate CalleesAre(toInline: map<nat, MIRFunction>, caller: MIRFunction, callees: map<nat, Callee>)
    reads toInline.Values, (set m | m in toInline.Values :: m.symTab), (set m | m in toInline.Values :: m.labelTab),
      (set m | m in toInline.Values :: m.pregTab)
  {
    && callees.Keys == toInline.Keys
    && (forall q :: q in toInline ==>
          && toInline[q].puIdx == q && toInline[q] != caller && toInline[q].symTab != caller.symTab
          && toInline[q].labelTab != caller.labelTab && toInline[q].pregTab != caller.pregTab
          && toInline[q].ValidTables() && View(toInline[q]) == callees[q])
  }

  lemma WalkingNow(f: Function, z: Sizes, calls: seq<Stmt>, i: nat)
    requires Walking(f, z, calls, i) && i < |calls|
    ensures GoodFunction(f, z) && calls[i].Call? && OneCall(f, calls[i], z)
  {
  }

  lemma WalkingEnds(f: Function, z: Sizes, calls: seq<Stmt>, i: nat)
    requires Walking(f, z, calls, i)
    ensures GoodFunction(f, z)
  {
  }

  /** The calls that are gone, from what they were in the body and not from the walk. */
  lemma ChosenGone(f: Function, z: Sizes, toInline: set<nat>, body: seq<Stmt>)
    requires NoneLeft(Chosen(f.body, toInline), body)
    ensures forall c: Stmt :: c.Call? && c.puIdx in toInline && OneCall(f, c, z) ==> CountCalls(c.stmtID, body) == 0
  {
    hide Chosen, AllOk;
    forall c: Stmt | c.Call? && c.puIdx in toInline && OneCall(f, c, z) ensures CountCalls(c.stmtID, body) == 0 {
      EveryCallChosen(c, toInline, z.syms, z.regs, f.body);
    }
  }

  /** Each site is that of a call that stood in the body. */
  lemma SitesStood(f: Function, z: Sizes, toInline: set<nat>, stages: seq<Stage>, xs: seq<Site>,
                   callees: map<nat, Callee>)
    requires Walking(f, z, Chosen(f.body, toInline), 0)
    requires AllInlined(stages, xs, Chosen(f.body, toInline), callees)
    ensures forall i :: 0 <= i < |xs| ==> TheCall(xs[i]).puIdx in toInline && OneCall(f, TheCall(xs[i]), z)
  {
    hide Chosen, OneCall, GoodFunction, SiteFits, Tr;
    var calls := Chosen(f.body, toInline);
    forall i | 0 <= i < |xs| ensures TheCall(xs[i]).puIdx in toInline && OneCall(f, TheCall(xs[i]), z) {
      assert InlinesTo(xs[i], calls[i], callees, stages[i], stages[i + 1]);
      OnlyCallsChosen(calls[i], toInline, f.body);
    }
  }

  lemma InlinableNow(c: Callee)
    requires MayBeInlined(c)
    ensures GoodFunction(c.f, SizesOf(c.tables)) && AllCopied(c.tables.syms.table) && KeepsNullCheck(c.f)
  {
  }

  lemma SoundStart(p: Program, callerIdx: nat, f: Function, callees: map<nat, Callee>, entry: nat, globals: Env)
    requires Sound(p, callerIdx, f, callees, entry, globals)
    ensures callerIdx in p && p == p[callerIdx := f] && entry in p && SameEnding(p, p, entry, globals)
  {
  }

  lemma SoundEntry(p: Program, callerIdx: nat, f: Function, callees: map<nat, Callee>, entry: nat, globals: Env)
    requires Sound(p, callerIdx, f, callees, entry, globals)
    ensures entry in p
  {
  }

  /** Whether nothing stands in the way of any inlining to come. */
  ghost predicate NothingInTheWay(names: map<string, nat>, callees: map<nat, Callee>, times: map<nat, nat>) {
    AllFree(names, callees.Keys, times) && forall q :: q in callees ==> CanBeCopied(callees[q])
  }

  lemma StillNothing(c: Callee, before: Tables, now: Tables, k: nat, extra: seq<string>, pu: nat,
                     callees: map<nat, Callee>, times: map<nat, nat>)
    requires TablesGrown(c.tables, before, now, k, extra, pu, TimesOf(times, pu))
    requires NothingInTheWay(before.syms.names, callees, times)
    ensures NothingInTheWay(now.syms.names, callees, times[pu := TimesOf(times, pu) + 1])
  {
    hide TablesGrown, AllFree, CanBeCopied;
    GrownNames(c.tables, before, now, k, extra, pu, TimesOf(times, pu));
    AllStayFree(c.tables.syms.table, k, pu, before.syms, now.syms, callees.Keys, times);
  }

  lemma NothingStops(c: Callee, to: Tables, pu: nat, callees: map<nat, Callee>, times: map<nat, nat>)
    requires NothingInTheWay(to.syms.names, callees, times) && pu in callees && callees[pu] == c && MayBeInlined(c)
    ensures CanRename(c.tables, to, c.f.body, pu, TimesOf(times, pu))
  {
    hide CanRename, MayBeInlined, CanBeCopied, AllFree;
    FreeCanRename(c, to, callees.Keys, times, pu);
  }

  lemma NextCall(calls: seq<Stmt>, i: nat, callees: map<nat, Callee>)
    requires Apart(calls, callees) && i < |calls|
    ensures calls[i].Call? && calls[i].puIdx in callees && |calls[i].opnds| == |callees[calls[i].puIdx].f.formals|
  {
  }

  lemma CalleeOf(toInline: map<nat, MIRFunction>, caller: MIRFunction, callees: map<nat, Callee>, q: nat)
    requires CalleesAre(toInline, caller, callees) && q in callees
    ensures q in toInline && toInline[q].puIdx == q && toInline[q] != caller && toInline[q].ValidTables()
    ensures View(toInline[q]) == callees[q]
  {
  }

  /** One call of the walk. */
  method InlineNext(inliner: MInline, caller: MIRFunction, calls: seq<Stmt>, i: nat, callee: MIRFunction,
                    ghost callees: map<nat, Callee>, ghost p: Program, ghost entry: nat, ghost globals: Env)
    returns (ok: bool, ghost x: Site)
    requires caller.ValidTables() && callee.ValidTables() && callee != caller && i < |calls|
    requires Apart(calls, callees) && calls[i].puIdx == callee.puIdx
    requires callee.puIdx in callees && callees[callee.puIdx] == View(callee) && MayBeInlined(View(callee))
    requires Walking(caller.Now(), caller.TableSizes(), calls, i)
    requires Sound(p, caller.puIdx, caller.Now(), callees, entry, globals)
    modifies inliner, caller`body, caller.symTab, caller.labelTab, caller.pregTab
    ensures ok ==> caller.ValidTables() && Walking(caller.Now(), caller.TableSizes(), calls, i + 1)
    ensures ok ==> InlinesTo(x, calls[i], callees, old(StageOf(caller)), StageOf(caller))
    ensures ok ==> Sound(p[caller.puIdx := caller.Now()], caller.puIdx, caller.Now(), callees, entry, globals)
    ensures ok ==> entry in p && SameEnding(p, p[caller.puIdx := caller.Now()], entry, globals)
    ensures old(NothingInTheWay(caller.symTab.strIdxToStIdxMap, callees, inliner.inlineTimes)) ==>
      ok && NothingInTheWay(caller.symTab.strIdxToStIdxMap, callees, inliner.inlineTimes)
  {
    hide GoodFunction, MayBeInlined, CanRename, TablesGrown, SiteFits, CalleeSide, Tr, OneCall, Grown, Apart;
    hide MIRSymbolTable.Valid, MIRPregTable.Valid, AllCopied, KeepsNullCheck, Walking, Sound, SameEnding;
    hide NothingInTheWay, ReturnLabelName;
    ghost var f, z, c, before, times := caller.Now(), caller.TableSizes(), View(callee), caller.TablesNow(),
      inliner.inlineTimes;
    WalkingNow(f, z, calls, i);
    NextCall(calls, i, callees);
    InlinableNow(c);
    SoundEntry(p, caller.puIdx, f, callees, entry, globals);
    if NothingInTheWay(before.syms.names, callees, times) {
      NothingStops(c, before, callee.puIdx, callees, times);
    }
    var site;
    ghost var k;
    ok, site, k := inliner.InlineCall(caller, calls[i], callee);
    x := site;
    if ok {
      WalkOn(x, f, z, c, caller.TableSizes(), calls, i, callees);
      StepsEnd(p, x, f, z, SizesOf(c.tables), callees, entry, globals);
      if c.f.body != [] && NothingInTheWay(before.syms.names, callees, times) {
        StillNothing(c, before, caller.TablesNow(), k, if x.reuse then []
          else [ReturnLabelName(callee.puIdx, TimesOf(times, callee.puIdx))],
                     callee.puIdx, callees, times);
      }
    }
  }

  /** One turn of the loop over the chosen calls; the callees stay as they are. */
  method InlineOne(inliner: MInline, caller: MIRFunction, toInline: map<nat, MIRFunction>, calls: seq<Stmt>, i: nat,
                   ghost callees: map<nat, Callee>, ghost p: Program, ghost entry: nat, ghost globals: Env)
    returns (ok: bool, ghost x: Site)
    requires caller.ValidTables() && CalleesAre(toInline, caller, callees) && i < |calls|
    requires Apart(calls, callees) && forall q :: q in callees ==> MayBeInlined(callees[q])
    requires Walking(caller.Now(), caller.TableSizes(), calls, i)
    requires Sound(p[caller.puIdx := caller.Now()], caller.puIdx, caller.Now(), callees, entry, globals)
    requires entry in p && SameEnding(p, p[caller.puIdx := caller.Now()], entry, globals)
    modifies inliner, caller`body, caller.symTab, caller.labelTab, caller.pregTab
    ensures CalleesAre(toInline, caller, callees)
    ensures ok ==> caller.ValidTables() && Walking(caller.Now(), caller.TableSizes(), calls, i + 1)
    ensures ok ==> InlinesTo(x, calls[i], callees, old(StageOf(caller)), StageOf(caller))
    ensures ok ==> Sound(p[caller.puIdx := caller.Now()], caller.puIdx, caller.Now(), callees, entry, globals)
    ensures ok ==> SameEnding(p, p[caller.puIdx := caller.Now()], entry, globals)
    ensures old(NothingInTheWay(caller.symTab.strIdxToStIdxMap, callees, inliner.inlineTimes)) ==>
      ok && NothingInTheWay(caller.symTab.strIdxToStIdxMap, callees, inliner.inlineTimes)
  {
    hide GoodFunction, MayBeInlined, Apart, Walking, Sound, SameEnding, NothingInTheWay, InlinesTo;
    hide MIRSymbolTable.Valid, MIRPregTable.Valid;
    NextCall(calls, i, callees);
    CalleeOf(toInline, caller, callees, calls[i].puIdx);
    ghost var now := p[caller.puIdx := caller.Now()];
    ok, x := InlineNext(inliner, caller, calls, i, toInline[calls[i].puIdx], callees, now, entry, globals);
    if ok {
      assert now[caller.puIdx := caller.Now()] == p[caller.puIdx := caller.Now()];
      EndingTrans(p, now, p[caller.puIdx := caller.Now()], entry, globals);
    }
  }

  /** All calls of functions to inline are inlined, one after the other, wherever they stand, and no
      others are; the program ends as it did.  If no name of the caller looks
      like that of an inlined symbol, the compiler does not stop on the way. */
  method InlineCalls(inliner: MInline, caller: MIRFunction, toInline: map<nat, MIRFunction>,
                     ghost callees: map<nat, Callee>, ghost p: Program, ghost entry: nat, ghost globals: Env)
    returns (ok: bool, ghost xs: seq<Site>, ghost stages: seq<Stage>)
    requires caller.ValidTables() && CalleesAre(toInline, caller, callees)
    requires forall q :: q in callees ==> MayBeInlined(callees[q])
    requires Apart(Chosen(caller.body, toInline.Keys), callees)
    requires Walking(caller.Now(), caller.TableSizes(), Chosen(caller.body, toInline.Keys), 0)
    requires Sound(p, caller.puIdx, caller.Now(), callees, entry, globals)
    modifies inliner, caller`body, caller.symTab, caller.labelTab, caller.pregTab
    ensures ok ==> AllInlined(stages, xs, Chosen(old(caller.body), toInline.Keys), callees)
    ensures ok ==> stages[0] == old(StageOf(caller)) && stages[|xs|] == StageOf(caller)
    ensures ok ==> forall c: Stmt ::
      c.Call? && c.puIdx in toInline && old(OneCall(caller.Now(), c, caller.TableSizes())) ==>
        CountCalls(c.stmtID, caller.body) == 0
    ensures ok ==> forall i :: 0 <= i < |xs| ==>
      TheCall(xs[i]).puIdx in toInline && old(OneCall(caller.Now(), TheCall(xs[i]), caller.TableSizes()))
    ensures ok ==> entry in p && SameEnding(p, p[caller.puIdx := caller.Now()], entry, globals)
    ensures ok ==> Sound(p[caller.puIdx := caller.Now()], caller.puIdx, caller.Now(), callees, entry, globals)
    ensures ok ==> caller.ValidTables() && GoodFunction(caller.Now(), caller.TableSizes())
    ensures old(NothingInTheWay(caller.symTab.strIdxToStIdxMap, callees, inliner.inlineTimes)) ==> ok
  {
    hide GoodFunction, MayBeInlined, Apart, Walking, Sound, SameEnding, NothingInTheWay, Chosen, CalleesAre, InlinesTo;
    hide OneCall, MIRSymbolTable.Valid, MIRPregTable.Valid;
    var calls := Chosen(caller.body, toInline.Keys);
    ghost var free := NothingInTheWay(caller.symTab.strIdxToStIdxMap, callees, inliner.inlineTimes);
    ghost var f, z := caller.Now(), caller.TableSizes();
    SoundStart(p, caller.puIdx, caller.Now(), callees, entry, globals);
    xs, stages := [], [StageOf(caller)];
    var i := 0;
    while i < |calls|
      invariant 0 <= i <= |calls| && caller.ValidTables() && CalleesAre(toInline, caller, callees)
      invariant |xs| == i && InlinedInTurn(stages, xs, calls, callees)
      invariant stages[0] == old(StageOf(caller)) && stages[i] == StageOf(caller)
      invariant Walking(caller.Now(), caller.TableSizes(), calls, i)
      invariant entry in p && SameEnding(p, p[caller.puIdx := caller.Now()], entry, globals)
      invariant Sound(p[caller.puIdx := caller.Now()], caller.puIdx, caller.Now(), callees, entry, globals)
      invariant free ==> NothingInTheWay(caller.symTab.strIdxToStIdxMap, callees, inliner.inlineTimes)
    {
      ghost var x;
      ok, x := InlineOne(inliner, caller, toInline, calls, i, callees, p, entry, globals);
      if !ok {
        return;
      }
      OneMoreStage(stages, xs, calls, callees, x, StageOf(caller));
      xs, stages := xs + [x], stages + [StageOf(caller)];
      i := i + 1;
    }
    AllGone(stages, xs, calls, callees);
    ChosenGone(f, z, toInline.Keys, caller.body);
    SitesStood(f, z, toInline.Keys, stages, xs, callees);
    WalkingEnds(caller.Now(), caller.TableSizes(), calls, i);
    ok := true;
  }
}
