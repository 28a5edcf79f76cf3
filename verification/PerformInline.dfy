/** MInline::PerformInline and the walk that comes to the call:
    mapleall/maple_ipa/src/inline.cpp:452-586 and 920-958. */
module PerformInline {
  import opened Options
  import opened Mir
  import opened MirTables
  import opened InlineTransform
  import opened InlineStructure
  import opened InlineInvariant
  import opened InlineFrames
  import opened InlineCorrect
  import opened InlineTheorem
  import opened InlineAgain
  import opened InlineReturns

  class MIRFunction {
    const puIdx: nat
    const formals: seq<nat>      // symbols of formalDefVec
    const checksThis: bool       // the first formal is named _this
    const symTab: MIRSymbolTable
    const labelTab: MIRLabelTable
    const pregTab: MIRPregTable
    var body: seq<Stmt>

    constructor (pu: nat, fs: seq<nat>, this': bool, syms: MIRSymbolTable, labs: MIRLabelTable, regs: MIRPregTable,
                 ss: seq<Stmt>)
      ensures puIdx == pu && formals == fs && checksThis == this' && body == ss
      ensures symTab == syms && labelTab == labs && pregTab == regs
    {
      puIdx, formals, checksThis, body := pu, fs, this', ss;
      symTab, labelTab, pregTab := syms, labs, regs;
    }

    /** The function as the machine runs it. */
    function Now(): Function
      reads this
    {
      Function(body, formals, checksThis)
    }

    ghost predicate ValidTables()
      reads this, symTab, labelTab, pregTab
    {
      symTab.Valid() && labelTab.labelTable != [] && pregTab.Valid()
    }

    function TablesNow(): Tables
      reads this, symTab, labelTab, pregTab
    {
      Tables(symTab.Now(), labelTab.labelTable, pregTab.pregTable, pregTab.maxPregNo)
    }

    function TableSizes(): Sizes
      reads this, symTab, labelTab, pregTab
    {
      Sizes(|symTab.symbolTable|, |pregTab.pregTable|, |labelTab.labelTable|)
    }
  }

  // ---------------------------------------------------------------- steps 1 to 3

  datatype Tables = Tables(syms: Contents, labels: seq<string>, pregs: seq<Option<MIRPreg>>, maxPregNo: nat)

  /** Whether the clone can be renamed; otherwise the compiler stops. */
  ghost predicate CanRename(from: Tables, to: Tables, body: seq<Stmt>, puIdx: nat, times: nat) {
    CanCopy(from.syms.table, to.syms, puIdx, times) && RegsKnown(|from.pregs|, body)
  }

  /** The tables of the caller after the renaming: copies of the callee's behind its own, and
      then the return label if one was made. */
  ghost predicate TablesGrown(from: Tables, before: Tables, now: Tables, k: nat, extra: seq<string>, puIdx: nat,
                              times: nat) {
    && CopiesAdded(from.syms.table, k, puIdx, times, before.syms, now.syms)
    && (forall i: nat :: Copied(from.syms.table, i) <==> 1 <= i <= k)
    && from.labels != [] && from.pregs != []
    && now.labels == before.labels + LabelCopies(from.labels, |from.labels| - 1, puIdx, times) + extra
    && now.pregs == before.pregs + PregCopies(from.pregs, |from.pregs| - 1, before.maxPregNo)
  }

  function OffsetsFor(z: Sizes): Offsets
    requires z.syms >= 1 && z.labs >= 1 && z.regs >= 1
  {
    Offsets(z.syms - 1, z.labs - 1, z.regs - 1)
  }

  method CloneAndRename(caller: MIRFunction, callee: MIRFunction, times: nat)
    returns (ok: bool, o: Offsets, newBody: seq<Stmt>, ghost k: nat)
    requires caller.ValidTables() && callee.ValidTables()
    modifies caller.symTab, caller.labelTab, caller.pregTab
    ensures ok <==> CanRename(old(callee.TablesNow()), old(caller.TablesNow()), callee.body, callee.puIdx, times)
    ensures ok ==> o == OffsetsFor(old(caller.TableSizes())) && newBody == Rename(o, callee.body)
    ensures ok ==> caller.ValidTables() && TablesGrown(old(callee.TablesNow()), old(caller.TablesNow()),
      caller.TablesNow(), k, [], callee.puIdx, times)
  {
    hide RegsKnown, Rename, ReplacePregs, Mangled, Copies, PregCopies, LabelCopies, CopiesAdded, CanCopy, RenamedEntry;
    hide MIRSymbolTable.Valid, MIRPregTable.Valid;
    SizesPositive(caller);
    newBody := callee.body;
    ghost var pregs, pregOff := |callee.pregTab.pregTable|, |caller.pregTab.pregTable| - 1;
    var symOk, stidxOff, n := RenameSymbols(caller.symTab, callee.symTab, callee.puIdx, times);
    k := n;
    if !symOk {
      return false, Offsets(0, 0, 0), newBody, k;
    }
    var labidxOff := RenameLabels(caller.labelTab, callee.labelTab, callee.puIdx, times);
    o := Offsets(stidxOff, labidxOff, |caller.pregTab.pregTable| - 1);
    var pregOld2new := RenamePregs(caller.pregTab, callee.pregTab);
    newBody := Rename(Offsets(stidxOff, 0, 0), newBody);
    SameRegs(pregs, Offsets(stidxOff, 0, 0), callee.body);
    SameRegs(pregs, Offsets(0, labidxOff, 0), newBody);
    newBody := Rename(Offsets(0, labidxOff, 0), newBody);
    ReplacedPregs(pregOld2new, pregs, pregOff, newBody);
    var replaced := ReplacePregs(pregOld2new, newBody);
    if replaced.None? {
      return false, o, newBody, k;
    }
    RenameTwice(Offsets(stidxOff, 0, 0), Offsets(0, labidxOff, 0), callee.body);
    RenameTwice(Offsets(stidxOff, labidxOff, 0), Offsets(0, 0, pregOff), callee.body);
    ok, newBody := true, replaced.value;
  }

  lemma SizesPositive(f: MIRFunction)
    requires f.ValidTables()
    ensures |f.symTab.symbolTable| >= 1 && |f.pregTab.pregTable| >= 1 && |f.labelTab.labelTable| >= 1
  {
  }

  // ---------------------------------------------------------------- the call in its block

  predicate NextIsLabel(block: seq<Stmt>, i: nat) {
    i + 1 < |block| && block[i + 1].Label?
  }

  /** The inlining that PerformInline does at `block[i]`. */
  ghost predicate SiteAt(x: Site, callerIdx: nat, block: seq<Stmt>, i: nat, calleeIdx: nat, target: Function, z: Sizes,
                         calleeLabels: nat)
    requires i < |block| && block[i].Call? && z.syms >= 1 && z.labs >= 1 && z.regs >= 1
  {
    && x.caller == callerIdx && x.callee == calleeIdx && x.target == target
    && x.stmtID == block[i].stmtID && x.opnds == block[i].opnds && x.dest == block[i].dest
    && x.o == OffsetsFor(z)
    && x.reuse == NextIsLabel(block, i)
    && x.retLab == if NextIsLabel(block, i) then block[i + 1].labelIdx else z.labs + calleeLabels - 1
  }

  lemma {:induction false} TrNothing(x: Site, ss: seq<Stmt>)
    requires SiteArity(x) && CountCalls(x.stmtID, ss) == 0
    ensures Tr(x, ss) == ss
    decreases ss, 1
  {
    if ss != [] {
      TrNothingIn(x, ss[0]);
      TrNothing(x, ss[1..]);
    }
  }

  lemma {:induction false} TrNothingIn(x: Site, s: Stmt)
    requires SiteArity(x) && CountCall(x.stmtID, s) == 0
    ensures TrStmt(x, s) == [s]
    decreases s, 0
  {
    match s
    case If(_, t, e) =>
      TrNothing(x, t);
      TrNothing(x, e);
    case While(_, _, b) => TrNothing(x, b);
    case _ =>
  }

  /** Only the statement with the call changes. */
  lemma TrFocus(x: Site, block: seq<Stmt>, i: nat)
    requires SiteArity(x) && i < |block| && CountCalls(x.stmtID, block) == 1 && CountCall(x.stmtID, block[i]) == 1
    requires CountCalls(x.stmtID, block[..i]) == 0
    ensures Tr(x, block) == block[..i] + TrStmt(x, block[i]) + block[i + 1..]
  {
    hide Tr, TrStmt;
    assert block == block[..i] + block[i..] && block[i..] == [block[i]] + block[i + 1..];
    CallsConcat(x.stmtID, block[..i], block[i..]);
    TrConcat(x, block[..i], block[i..]);
    TrConcat(x, [block[i]], block[i + 1..]);
    TrOne(x, block[i]);
    TrNothing(x, block[..i]);
    TrNothing(x, block[i + 1..]);
    Regroup(block[..i], TrStmt(x, block[i]), block[i + 1..]);
  }

  lemma {:induction false} FollowsFocus(x: Site, block: seq<Stmt>, i: nat, l: nat)
    requires i <= |block| && CountCalls(x.stmtID, block[..i]) == 0
    ensures LabelFollows(x, block, l) <==> LabelFollows(x, block[i..], l)
    decreases i
  {
    if i == 0 {
      assert block[0..] == block;
    } else {
      assert block[..i][1..] == block[1..][..i - 1] && block[1..][i - 1..] == block[i..];
      FollowsFocus(x, block[1..], i - 1, l);
    }
  }

  /** The label behind the call is reused exactly if there is one. */
  ghost predicate Reuses(x: Site, ss: seq<Stmt>) {
    (x.reuse ==> LabelFollows(x, ss, x.retLab)) && forall l: nat :: LabelFollows(x, ss, l) ==> x.reuse
  }

  lemma ReusesFocus(x: Site, block: seq<Stmt>, i: nat)
    requires i < |block| && CountCalls(x.stmtID, block[..i]) == 0 && CountCall(x.stmtID, block[i]) > 0
    requires match block[i]
      case If(_, t, e) => Reuses(x, if CountCalls(x.stmtID, t) > 0 then t else e)
      case While(_, _, b) => Reuses(x, b)
      case _ => x.reuse == NextIsLabel(block, i) && (x.reuse ==> x.retLab == block[i + 1].labelIdx)
    ensures Reuses(x, block)
  {
    var from := block[i..];
    assert from[0] == block[i];
    if NextIsLabel(block, i) {
      assert from[1] == block[i + 1];
    }
    FollowsFocus(x, block, i, x.retLab);
    forall l: nat ensures LabelFollows(x, block, l) ==> x.reuse {
      FollowsFocus(x, block, i, l);
      match from[0]
      case If(_, t, e) =>
      case While(_, _, b) =>
      case _ =>
        assert LabelFollows(x, from, l) ==> block[i + 1] == Label(l);
    }
  }

  lemma ReusesExactly(x: Site, ss: seq<Stmt>)
    requires Reuses(x, ss)
    ensures x.reuse <==> exists l: nat :: LabelFollows(x, ss, l)
  {
    hide LabelFollows;
    if x.reuse {
      assert LabelFollows(x, ss, x.retLab);
    }
    if l: nat :| LabelFollows(x, ss, l) {
      assert x.reuse;
    }
  }

  lemma {:induction false} OkAt(k: Check, block: seq<Stmt>, i: nat)
    requires AllOk(k, block) && i < |block|
    ensures StmtOk(k, block[i])
  {
    if i > 0 {
      OkAt(k, block[1..], i - 1);
    }
  }

  class MInline {
    var inlineTimes: map<nat, nat>      // inline_times_map_

    constructor ()
      ensures inlineTimes == map[]
    {
      inlineTimes := map[];
    }

    function Times(puIdx: nat): nat
      reads this
    {
      if puIdx in inlineTimes then inlineTimes[puIdx] else 0
    }

    /** What the steps do to the block of the call.  The compiler stops when the names clash, a
        preg of the callee is unknown, or the arguments do not match. */
    method PerformInline(caller: MIRFunction, block: seq<Stmt>, i: nat, callee: MIRFunction)
      returns (ok: bool, x: Site, newBlock: seq<Stmt>, ghost k: nat)
      requires caller.ValidTables() && callee.ValidTables() && i < |block| && block[i].Call?
      modifies this, caller.symTab, caller.labelTab, caller.pregTab
      ensures ok <==> (callee.body == []
        || (CanRename(old(callee.TablesNow()), old(caller.TablesNow()), callee.body, callee.puIdx,
          old(Times(callee.puIdx)))
            && |block[i].opnds| == |callee.formals|))
      ensures SiteAt(x, caller.puIdx, block, i, callee.puIdx, callee.Now(), old(caller.TableSizes()),
        old(|callee.labelTab.labelTable|))
      ensures x.reuse <==> i + 1 < |block| && block[i + 1].Label?
      ensures ok && SiteArity(x) ==> newBlock == block[..i] + Inlined(x) + block[i + 1..]
      ensures ok ==> caller.ValidTables() && (callee.body != [] ==> SiteArity(x))
      ensures ok && callee.body != [] ==>
        TablesGrown(old(callee.TablesNow()), old(caller.TablesNow()), caller.TablesNow(), k,
                    if x.reuse then [] else [ReturnLabelName(callee.puIdx, old(Times(callee.puIdx)))],
                    callee.puIdx, old(Times(callee.puIdx)))
      ensures ok && callee.body == [] ==> caller.TablesNow() == old(caller.TablesNow())
      ensures ok ==> inlineTimes == if callee.body == [] then old(inlineTimes)
                                    else old(inlineTimes)[callee.puIdx := old(Times(callee.puIdx)) + 1]
    {
      hide CanRename, TablesGrown, Inlined, Rename, MIRSymbolTable.Valid, MIRPregTable.Valid, ReturnLabelName;
      var z, labels := caller.TableSizes(), |callee.labelTab.labelTable|;
      SizesPositive(caller);
      SizesPositive(callee);
      var reuse := NextIsLabel(block, i);
      var retLab := if reuse then block[i + 1].labelIdx else z.labs + labels - 1;
      x := Site(caller.puIdx, block[i].stmtID, callee.puIdx, callee.Now(), block[i].opnds, block[i].dest, OffsetsFor(z),
                retLab, reuse);
      newBlock, k := block[..i] + block[i + 1..], 0;
      if callee.body == [] {
        NothingInlined(x, block, i);
        return true, x, newBlock, 0;
      }
      var times := Times(callee.puIdx);
      ghost var from, before := callee.TablesNow(), caller.TablesNow();
      var o, newBody;
      ok, o, newBody, k := CloneAndRename(caller, callee, times);
      if !ok || |block[i].opnds| != |callee.formals| {
        return false, x, newBlock, k;
      }
      if !reuse {
        ReturnLabelAdded(from, before, caller.TablesNow(), k, ReturnLabelName(callee.puIdx, times), callee.puIdx,
                         times);
        var made := CreateReturnLabel(caller.labelTab, callee.puIdx, times);
        assert made == retLab;
      }
      newBody := FinishBody(x, newBody);
      newBlock := block[..i] + ([Comment] + newBody + [Comment]) + block[i + 1..];
      InlinedIs(x, newBody);
      inlineTimes := inlineTimes[callee.puIdx := times + 1];
    }

    /** The walk comes to the call at any depth and leaves everything else as it is. */
    method InlineCallsBlock(caller: MIRFunction, block: seq<Stmt>, call: Stmt, callee: MIRFunction)
      returns (ok: bool, x: Site, newBlock: seq<Stmt>, ghost k: nat)
      requires caller.ValidTables() && callee.ValidTables() && call.Call? && call.puIdx == callee.puIdx
      requires CountCalls(call.stmtID, block) == 1
      requires AllOk(CallerCheck(call, caller.TableSizes().syms, caller.TableSizes().regs), block)
      modifies this, caller.symTab, caller.labelTab, caller.pregTab
      ensures ok <==> (callee.body == []
        || (CanRename(old(callee.TablesNow()), old(caller.TablesNow()), callee.body, callee.puIdx,
          old(Times(callee.puIdx)))
            && |call.opnds| == |callee.formals|))
      ensures SiteOf(x, caller.puIdx, call, callee.Now(), old(caller.TableSizes()), old(|callee.labelTab.labelTable|))
      ensures Reuses(x, block)
      ensures ok && SiteArity(x) ==> newBlock == Tr(x, block)
      ensures ok ==> caller.ValidTables() && (callee.body != [] ==> SiteArity(x))
      ensures ok && callee.body != [] ==>
        TablesGrown(old(callee.TablesNow()), old(caller.TablesNow()), caller.TablesNow(), k,
                    if x.reuse then [] else [ReturnLabelName(callee.puIdx, old(Times(callee.puIdx)))],
                    callee.puIdx, old(Times(callee.puIdx)))
      ensures ok && callee.body == [] ==> caller.TablesNow() == old(caller.TablesNow())
      ensures ok ==> inlineTimes == if callee.body == [] then old(inlineTimes)
                                    else old(inlineTimes)[callee.puIdx := old(Times(callee.puIdx)) + 1]
      decreases block
    {
      hide CanRename, TablesGrown, Inlined, Tr, TrStmt, MIRSymbolTable.Valid, MIRPregTable.Valid, ReturnLabelName;
      hide Reuses;
      SizesPositive(caller);
      SizesPositive(callee);
      var i := FindCall(block, call.stmtID);
      OkAt(CallerCheck(call, caller.TableSizes().syms, caller.TableSizes().regs), block, i);
      match block[i] {
        case Call(_, _, _, _) =>
          assert block[i] == call;
          ok, x, newBlock, k := PerformInline(caller, block, i, callee);
          if SiteArity(x) {
            TargetIsInlined(x, block[i]);
          }
        case If(c, t, e) =>
          var inner;
          if CountCalls(call.stmtID, t) > 0 {
            ok, x, inner, k := InlineCallsBlock(caller, t, call, callee);
            newBlock := block[..i] + [If(c, inner, e)] + block[i + 1..];
          } else {
            ok, x, inner, k := InlineCallsBlock(caller, e, call, callee);
            newBlock := block[..i] + [If(c, t, inner)] + block[i + 1..];
          }
          if SiteArity(x) {
            IfInlined(x, block[i]);
          }
        case While(first, c, b) =>
          var inner;
          ok, x, inner, k := InlineCallsBlock(caller, b, call, callee);
          newBlock := block[..i] + [While(first, c, inner)] + block[i + 1..];
          if SiteArity(x) {
            WhileInlined(x, block[i]);
          }
      }
      if SiteArity(x) {
        TrFocus(x, block, i);
      }
      ReusesFocus(x, block, i);
    }

    /** One inlining in the body of the caller, which is good again with its larger tables. */
    method InlineCall(caller: MIRFunction, call: Stmt, callee: MIRFunction) returns (ok: bool, x: Site, ghost k: nat)
      requires caller.ValidTables() && callee.ValidTables() && call.Call? && call.puIdx == callee.puIdx
      requires GoodFunction(caller.Now(), caller.TableSizes()) && GoodFunction(callee.Now(), callee.TableSizes())
      requires OneCall(caller.Now(), call, caller.TableSizes())
      modifies this, caller`body, caller.symTab, caller.labelTab, caller.pregTab
      ensures ok <==> (old(callee.body) == []
        || (CanRename(old(callee.TablesNow()), old(caller.TablesNow()), old(callee.body), callee.puIdx,
          old(Times(callee.puIdx)))
            && |call.opnds| == |callee.formals|))
      ensures SiteOf(x, caller.puIdx, call, old(callee.Now()), old(caller.TableSizes()),
        old(|callee.labelTab.labelTable|))
      ensures SiteArity(x) ==> SiteFits(x, old(caller.Now()), old(caller.TableSizes()), old(callee.TableSizes()))
      ensures SiteArity(x) ==> CalleeSide(x, old(caller.TableSizes()))
      ensures x.reuse <==> exists l: nat :: LabelFollows(x, old(caller.body), l)
      ensures ok && SiteArity(x) ==> caller.body == Tr(x, old(caller.body))
      ensures ok && SiteArity(x) && AllCopied(old(callee.symTab.symbolTable)) ==>
        GoodFunction(caller.Now(), caller.TableSizes())
      ensures ok && old(callee.body) != [] && AllCopied(old(callee.symTab.symbolTable)) ==>
        caller.TableSizes() == Grown(x, old(caller.TableSizes()), old(callee.TableSizes()))
      ensures ok ==> caller.ValidTables()
      ensures ok && old(callee.body) != [] ==>
        TablesGrown(old(callee.TablesNow()), old(caller.TablesNow()), caller.TablesNow(), k,
                    if x.reuse then [] else [ReturnLabelName(callee.puIdx, old(Times(callee.puIdx)))],
                    callee.puIdx, old(Times(callee.puIdx)))
      ensures ok && old(callee.body) == [] ==> caller.TablesNow() == old(caller.TablesNow())
      ensures ok ==> inlineTimes == if old(callee.body) == [] then old(inlineTimes)
                                    else old(inlineTimes)[callee.puIdx := old(Times(callee.puIdx)) + 1]
    {
      hide CanRename, TablesGrown, Inlined, Tr, TrStmt, MIRSymbolTable.Valid, MIRPregTable.Valid, CalleeSide;
      hide GoodFunction, SiteFits, AllCopied, ReturnLabelName;
      SizesPositive(caller);
      SizesPositive(callee);
      ghost var z, z', f, from, before := caller.TableSizes(), callee.TableSizes(), caller.Now(), callee.TablesNow(),
        caller.TablesNow();
      var newBody;
      ok, x, newBody, k := InlineCallsBlock(caller, caller.body, call, callee);
      ReusesExactly(x, f.body);
      if SiteArity(x) {
        SitesSides(x, f, call, z, z');
      }
      if ok {
        caller.body := newBody;
        if SiteArity(x) {
          if x.target.body == [] {
            EmptyStaysGood(x, f, z, z');
          } else {
            StaysGood(x, f, z, z');
            SizesGrown(x, from, before, caller.TablesNow(), k, callee.puIdx, old(Times(callee.puIdx)), z, z');
          }
        }
      }
    }
  }

  /** The first statement that holds the call. */
  method FindCall(block: seq<Stmt>, id: nat) returns (i: nat)
    requires CountCalls(id, block) == 1
    ensures i < |block| && CountCall(id, block[i]) == 1 && CountCalls(id, block[..i]) == 0
  {
    i := 0;
    assert block[0..] == block;
    while CountCall(id, block[i]) == 0
      invariant i < |block| && CountCalls(id, block[..i]) == 0 && CountCalls(id, block[i..]) == 1
      decreases |block| - i
    {
      assert block[..i + 1] == block[..i] + [block[i]] && block[i..][1..] == block[i + 1..];
      CallsConcat(id, block[..i], [block[i]]);
      assert CountCalls(id, [block[i]]) == CountCall(id, block[i]) + CountCalls(id, [block[i]][1..]);
      i := i + 1;
    }
  }

  /** The call stands once in the function. */
  ghost predicate OneCall(f: Function, call: Stmt, z: Sizes)
    requires call.Call?
  {
    CountCalls(call.stmtID, f.body) == 1 && AllOk(CallerCheck(call, z.syms, z.regs), f.body)
  }

  /** Every entry of the table is copied by RenameSymbols. */
  ghost predicate AllCopied(t: seq<Option<Symbol>>) {
    forall i: nat :: 1 <= i < |t| ==> Copied(t, i)
  }

  lemma SizesGrown(x: Site, from: Tables, before: Tables, now: Tables, k: nat, puIdx: nat, times: nat, z: Sizes,
                   z': Sizes)
    requires TablesGrown(from, before, now, k, if x.reuse then [] else [ReturnLabelName(puIdx, times)], puIdx, times)
    requires z == Sizes(|before.syms.table|, |before.pregs|, |before.labels|)
    requires z' == Sizes(|from.syms.table|, |from.pregs|, |from.labels|)
    requires z.syms >= 1 && z.regs >= 1 && z.labs >= 1 && z'.syms >= 1 && z'.regs >= 1 && z'.labs >= 1
    ensures AllCopied(from.syms.table) ==> Sizes(|now.syms.table|, |now.pregs|, |now.labels|) == Grown(x, z, z')
  {
    hide ReturnLabelName, NamesAdded;
    if AllCopied(from.syms.table) && z'.syms > 1 {
      assert Copied(from.syms.table, z'.syms - 1);
    }
  }

  lemma EmptyStaysGood(x: Site, f: Function, z: Sizes, z': Sizes)
    requires SiteFits(x, f, z, z') && GoodFunction(f, z) && GoodFunction(x.target, z') && x.target.body == []
    ensures GoodFunction(f.(body := Tr(x, f.body)), z)
  {
    hide Tr, LabelFollows, Labels, Jumps;
    JumpsFound(x, f, z);
    CallerStaysOk(x, CalleeCheck, f.body);
    CallerStaysOk(x, InTables(z), f.body);
    forall l: nat ensures CountLabels(Tr(x, f.body), l) <= if 1 <= l < z.labs then 1 else 0 {
      CallerLabels(x, f.body, l);
    }
  }

  ghost predicate SiteOf(x: Site, callerIdx: nat, call: Stmt, target: Function, z: Sizes, calleeLabels: nat)
    requires z.syms >= 1 && z.labs >= 1 && z.regs >= 1
  {
    && call == TheCall(x) && x.caller == callerIdx && x.target == target && x.o == OffsetsFor(z)
    && (!x.reuse ==> x.retLab == z.labs + calleeLabels - 1)
  }

  /** Offsets and labels that come from the tables are what the theorem about inlining needs. */
  lemma SitesSides(x: Site, f: Function, call: Stmt, z: Sizes, z': Sizes)
    requires z.syms >= 1 && z.regs >= 1 && z.labs >= 1 && z'.syms >= 1 && z'.regs >= 1 && z'.labs >= 1
    requires SiteOf(x, x.caller, call, x.target, z, z'.labs) && SiteArity(x)
    requires GoodFunction(f, z) && OneCall(f, call, z) && GoodFunction(x.target, z')
    requires x.reuse ==> LabelFollows(x, f.body, x.retLab)
    ensures SiteFits(x, f, z, z') && CalleeSide(x, z)
  {
    hide AllOk, LabelFollows, Labels, CountLabels, CountCalls;
    forall l | l in Labels(f.body) ensures l < z.labs {
      CountIsLabels(f.body, l);
    }
    forall l | l in Labels(x.target.body) ensures 1 <= l < z'.labs {
      CountIsLabels(x.target.body, l);
    }
  }

  lemma TargetIsInlined(x: Site, s: Stmt)
    requires SiteArity(x) && IsTarget(x, s)
    ensures TrStmt(x, s) == Inlined(x)
  {
  }

  lemma IfInlined(x: Site, s: Stmt)
    requires SiteArity(x) && s.If? && CountCall(x.stmtID, s) == 1
    ensures TrStmt(x, s) == if CountCalls(x.stmtID, s.thenPart) > 0
      then [If(s.cond, Tr(x, s.thenPart), s.elsePart)] else [If(s.cond, s.thenPart, Tr(x, s.elsePart))]
  {
    TrNothing(x, if CountCalls(x.stmtID, s.thenPart) > 0 then s.elsePart else s.thenPart);
  }

  lemma WhileInlined(x: Site, s: Stmt)
    requires SiteArity(x) && s.While?
    ensures TrStmt(x, s) == [While(s.testFirst, s.cond, Tr(x, s.body))]
  {
  }

  lemma NothingInlined(x: Site, block: seq<Stmt>, i: nat)
    requires i < |block| && x.target.body == []
    ensures SiteArity(x) ==> block[..i] + block[i + 1..] == block[..i] + Inlined(x) + block[i + 1..]
  {
  }

  lemma InlinedIs(x: Site, newBody: seq<Stmt>)
    requires SiteArity(x) && x.target.body != []
    requires newBody == Prologue(x) + InlinedBody(x, x.target.body) + if KeepsLabel(x) then [Label(x.retLab)] else []
    ensures [Comment] + newBody + [Comment] == Inlined(x)
  {
    hide Prologue, InlinedBody, KeepsLabel;
  }

  lemma ReturnLabelAdded(from: Tables, before: Tables, now: Tables, k: nat, name: string, puIdx: nat, times: nat)
    requires TablesGrown(from, before, now, k, [], puIdx, times)
    ensures |now.labels| == |before.labels| + |from.labels| - 1
    ensures TablesGrown(from, before, now.(labels := now.labels + [name]), k, [name], puIdx, times)
  {
  }

  /** What InlineCall leaves is as good as what it found: a program that never reads what was not
      assigned ends in the same way with the caller's new body. */
  lemma InlinedProgram(p: Program, x: Site, before: Function, after: Function, z: Sizes, entry: nat, globals: Env)
    requires SiteArity(x) && CallerSide(x, before, z) && CalleeSide(x, z) && KeepsNullCheck(x.target)
    requires x.caller in p && p[x.caller] == before && x.callee in p && p[x.callee] == x.target
    requires after == before.(body := Tr(x, before.body))
    requires entry in p && p[entry].formals == [] && NeverStuck(p, entry, globals)
    ensures forall s: State :: Ends(p, entry, globals, s) <==> Ends(p[x.caller := after], entry, globals, s)
  {
    hide CallerSide, CalleeSide, Ends, NeverStuck, Tr, KeepsNullCheck;
    assert TrProgram(x, p) == p[x.caller := after];
    forall s: State ensures Ends(p, entry, globals, s) <==> Ends(p[x.caller := after], entry, globals, s) {
      InliningKeepsEnds(x, p, z, entry, globals, s);
    }
  }
}
