/** The theorem over whole runs, both ways, and the exact condition of the null check. */
module InlineTheorem {
  import opened Options
  import opened Mir
  import opened Sequences
  import opened InlineTransform
  import opened InlineStructure
  import opened InlineInvariant
  import opened InlineFrames
  import opened InlineSteps
  import opened InlineMerged
  import opened InlineEnds
  import opened InlineCorrect

  // ---------------------------------------------------------------- inside the inlined callee

  lemma MergedTop(x: Site, p: Program, z: Sizes, s: State, s': State)
    requires ValidSite(x, p, z) && SiteArity(x) && s.Running? && s'.Running? && s'.globals == s.globals
    requires MatchMerged(x, p, z, s.stack, s'.stack) && Inner(x, s.stack[0])
    requires StepFrame(p, s.stack[0], s.globals).Next? || StepFrame(p, s.stack[0], s.globals).Trap?
    ensures Corresponds(x, p, z, Step(p, s), Step(TrProgram(x, p), s'))
  {
    hide ValidSite, Plain, StepFrame, MatchBelow, Merged, Skipped;
    MergedStep(x, p, z, s.stack[0], s.stack[1], s'.stack[0], s.globals);
    var e := StepFrame(p, s.stack[0], s.globals);
    if e.Next? {
      assert ([e.frame] + s.stack[1..])[2..] == s.stack[2..];
    }
  }

  lemma MergedInvokes(x: Site, p: Program, z: Sizes, s: State, s': State)
    requires ValidSite(x, p, z) && SiteArity(x) && s.Running? && s'.Running? && s'.globals == s.globals
    requires MatchMerged(x, p, z, s.stack, s'.stack) && Inner(x, s.stack[0])
    requires StepFrame(p, s.stack[0], s.globals).Invoke? && Step(p, s) != Stuck
    ensures Corresponds(x, p, z, Step(p, s), Step(TrProgram(x, p), s'))
  {
    hide ValidSite, Plain, StepFrame, Merged, Skipped, Bind, TrProgram;
    MergedStep(x, p, z, s.stack[0], s.stack[1], s'.stack[0], s.globals);
    var e := StepFrame(p, s.stack[0], s.globals);
    InvokesAtCall(p, s.stack[0], s.globals);
    PushMatches(x, p, z, e.puIdx, e.args);
    MergedWaits(x, p, z, s, s');
  }

  lemma MergedWaits(x: Site, p: Program, z: Sizes, s: State, s': State)
    requires ValidSite(x, p, z) && s.Running? && s'.Running?
    requires MatchMerged(x, p, z, s.stack, s'.stack) && AtSomeCall(s.stack[0])
    ensures MatchBelow(x, p, z, s.stack, s'.stack)
  {
  }

  /** The callee returns to the caller; the inlined code comes to the same place. */
  lemma MergedLeaves(x: Site, p: Program, z: Sizes, s: State, s': State) returns (k: nat)
    requires ValidSite(x, p, z) && SiteArity(x) && s.Running? && s'.Running? && s'.globals == s.globals
    requires MatchMerged(x, p, z, s.stack, s'.stack)
    requires StepFrame(p, s.stack[0], s.globals).Leave?
    ensures k >= 1 && Corresponds(x, p, z, Step(p, s), Run(TrProgram(x, p), s', k))
  {
    hide ValidSite, Plain, StepFrame, MatchBelow, Merged, Skipped, Resume, TrProgram;
    var fr1, f1, g1;
    k, fr1, f1, g1 := LeaveMerged(x, p, z, s.stack[0], s.stack[1], s'.stack[0], s.globals);
    StackSplit(s');
    TopRuns(TrProgram(x, p), s'.stack[0], s.globals, k, f1, g1, s'.stack[1..]);
    assert ([fr1] + s.stack[2..])[1..] == s.stack[2..] && ([f1] + s'.stack[1..])[1..] == s'.stack[1..];
  }

  ghost predicate SkippedState(x: Site, p: Program, z: Sizes, s: State, s': State)
    requires ValidSite(x, p, z)
  {
    s.Running? && s'.Running? && s'.globals == s.globals && MatchSkipped(x, p, z, s.stack, s'.stack)
  }

  /** An empty callee returns at once, and no second call follows the call. */
  lemma SkippedLeaves(x: Site, p: Program, z: Sizes, s: State, s': State)
    requires ValidSite(x, p, z) && SiteArity(x) && SkippedState(x, p, z, s, s')
    ensures Corresponds(x, p, z, Step(p, s), s')
    ensures !AtCallState(x, Step(p, s)) && !SkippedState(x, p, z, Step(p, s), s')
  {
    hide ValidSite, Plain, MatchBelow, Merged, Waits, AtCall;
    var fr := s.stack[1];
    WaitsAfter(x, p, z, fr);
    WaitsInCaller(x, p, z, fr);
    NoSecondCall(x, p, z, fr);
    OtherCallee(x, p, z);
    assert Resume(fr, None, s.globals) == Next(fr.(code := fr.code[1..]), s.globals);
    assert ([fr.(code := fr.code[1..])] + s.stack[2..])[1..] == s.stack[2..];
  }

  lemma NoSecondCall(x: Site, p: Program, z: Sizes, fr: Frame)
    requires ValidSite(x, p, z) && Waits(x, p, z, fr) && fr.code != []
    ensures !AtCall(x, fr.(code := fr.code[1..]))
  {
    hide CallerSide, After;
    WaitsAfter(x, p, z, fr);
    AfterPlain(x, p, z, fr);
    SiteHasCall(x, p, z);
    var rest, after := fr.code[1..], After(x, p);
    if rest != [] && IsTarget(x, rest[0]) {
      AfterIsShorter(x, rest, after);
    }
  }

  lemma AfterIsShorter(x: Site, ss: seq<Stmt>, after: seq<Stmt>)
    requires Points(x, ss, after) && ss != [] && IsTarget(x, ss[0])
    ensures |after| < |ss|
  {
    assert AfterCallIn(x, ss[0]) == [];
  }

  lemma OtherCallee(x: Site, p: Program, z: Sizes)
    requires ValidSite(x, p, z) && x.target.body == []
    ensures x.callee != x.caller
  {
  }

  // ---------------------------------------------------------------- one step

  lemma PlainSim(x: Site, p: Program, z: Sizes, s: State, s': State) returns (k: nat)
    requires ValidSite(x, p, z) && SiteArity(x) && KeepsNullCheck(x.target)
    requires s.Running? && s'.Running? && s'.globals == s.globals && MatchPlain(x, p, z, s.stack, s'.stack)
    requires Step(p, s) != Stuck
    ensures Corresponds(x, p, z, Step(p, s), Run(TrProgram(x, p), s', k))
    ensures k >= 1 || (AtCallState(x, s) && SkippedState(x, p, z, Step(p, s), s'))
  {
    hide ValidSite, Corresponds, MatchPlain, StepFrame, AtCall, MatchSkipped;
    PlainNotEmpty(x, p, z, s, s');
    if AtCall(x, s.stack[0]) {
      if x.target.body == [] {
        CallSkipped(x, p, z, s, s');
        k := 0;
      } else {
        k := CallInlined(x, p, z, s, s');
      }
    } else {
      k := 1;
      match StepFrame(p, s.stack[0], s.globals)
      case Next(_, _) => PlainTop(x, p, z, s, s');
      case Trap => PlainTop(x, p, z, s, s');
      case Invoke(_, _) => PlainInvokes(x, p, z, s, s');
      case Leave(_) => PlainLeaves(x, p, z, s, s');
      case Wrong =>
    }
  }

  lemma PlainNotEmpty(x: Site, p: Program, z: Sizes, s: State, s': State)
    requires ValidSite(x, p, z) && s.Running? && s'.Running? && MatchPlain(x, p, z, s.stack, s'.stack)
    ensures s.stack != [] && s'.stack != []
  {
  }

  lemma MergedSim(x: Site, p: Program, z: Sizes, s: State, s': State) returns (k: nat)
    requires ValidSite(x, p, z) && SiteArity(x)
    requires s.Running? && s'.Running? && s'.globals == s.globals && MatchMerged(x, p, z, s.stack, s'.stack)
    requires Step(p, s) != Stuck
    ensures k >= 1 && Corresponds(x, p, z, Step(p, s), Run(TrProgram(x, p), s', k))
  {
    hide ValidSite, Corresponds, Merged, StepFrame, MatchBelow, Inner;
    match StepFrame(p, s.stack[0], s.globals)
    case Leave(_) => k := MergedLeaves(x, p, z, s, s');
    case Wrong =>
    case _ =>
      StaysInner(x, p, s.stack[0], s.globals);
      k := 1;
      if StepFrame(p, s.stack[0], s.globals).Invoke? {
        MergedInvokes(x, p, z, s, s');
      } else {
        MergedTop(x, p, z, s, s');
      }
  }

  lemma StaysInner(x: Site, p: Program, fc: Frame, g: Env)
    requires !StepFrame(p, fc, g).Leave? && StepFrame(p, fc, g) != Wrong
    ensures Inner(x, fc)
  {
  }

  predicate AtCallState(x: Site, s: State) {
    s.Running? && s.stack != [] && AtCall(x, s.stack[0])
  }

  /** How many steps the transformed program has saved lately: the call and the return of an
      empty callee. */
  ghost function Lag(x: Site, p: Program, z: Sizes, s: State, s': State): nat
    requires ValidSite(x, p, z)
  {
    if AtCallState(x, s) then 0 else if SkippedState(x, p, z, s, s') then 1 else 2
  }

  /** One step before is some steps after. */
  lemma SimStep(x: Site, p: Program, z: Sizes, s: State, s': State) returns (k: nat)
    requires ValidSite(x, p, z) && SiteArity(x) && KeepsNullCheck(x.target)
    requires Corresponds(x, p, z, s, s') && Step(p, s) != Stuck
    ensures Corresponds(x, p, z, Step(p, s), Run(TrProgram(x, p), s', k))
    ensures 1 + Lag(x, p, z, s, s') <= 3 * k + Lag(x, p, z, Step(p, s), Run(TrProgram(x, p), s', k))
  {
    hide ValidSite, MatchPlain, MatchMerged, MatchSkipped, Step, AtCallState;
    if !s.Running? {
      k := 1;
      NotRunning(p, s);
      NotRunning(TrProgram(x, p), s);
      assert Run(TrProgram(x, p), s', 0) == s';
    } else if MatchPlain(x, p, z, s.stack, s'.stack) {
      k := PlainSim(x, p, z, s, s');
      if k == 0 {
        SkippedNotAtCall(x, p, z, Step(p, s), s');
      }
      assert k == 0 ==> Run(TrProgram(x, p), s', k) == s';
    } else if MatchMerged(x, p, z, s.stack, s'.stack) {
      k := MergedSim(x, p, z, s, s');
    } else {
      SkippedLeaves(x, p, z, s, s');
      SkippedNotAtCall(x, p, z, s, s');
      k := 0;
      assert Run(TrProgram(x, p), s', k) == s';
    }
  }

  lemma NotRunning(p: Program, s: State)
    requires !s.Running?
    ensures Step(p, s) == s
  {
  }

  lemma SkippedNotAtCall(x: Site, p: Program, z: Sizes, s: State, s': State)
    requires ValidSite(x, p, z) && SkippedState(x, p, z, s, s')
    ensures !AtCallState(x, s)
  {
  }

  // ---------------------------------------------------------------- whole runs

  lemma StartCorresponds(x: Site, p: Program, z: Sizes, entry: nat, globals: Env)
    requires ValidSite(x, p, z) && SiteArity(x) && entry in p && p[entry].formals == []
    ensures entry in TrProgram(x, p)
    ensures Corresponds(x, p, z, Start(p, entry, globals), Start(TrProgram(x, p), entry, globals))
  {
    hide ValidSite, TrProgram, Plain;
    PushMatches(x, p, z, entry, []);
    assert Bind([], []) == map[];
  }

  /** Inlining preserves meaning: after any number of steps of the program there is a number of
      steps of the transformed program that comes to the corresponding state - the same globals,
      and the same end if the run has ended.  Their number grows with that of the program. */
  lemma {:induction false} InliningPreserves(x: Site, p: Program, z: Sizes, entry: nat, globals: Env, n: nat)
    returns (m: nat)
    requires ValidSite(x, p, z) && SiteArity(x) && KeepsNullCheck(x.target)
    requires entry in p && p[entry].formals == [] && Run(p, Start(p, entry, globals), n) != Stuck
    ensures entry in TrProgram(x, p)
    ensures Corresponds(x, p, z, Run(p, Start(p, entry, globals), n),
                        Run(TrProgram(x, p), Start(TrProgram(x, p), entry, globals), m))
    ensures n <= 3 * m + Lag(x, p, z, Run(p, Start(p, entry, globals), n),
                             Run(TrProgram(x, p), Start(TrProgram(x, p), entry, globals), m))
  {
    hide ValidSite, Corresponds, Step, Start, TrProgram, KeepsNullCheck, Lag;
    StartCorresponds(x, p, z, entry, globals);
    m := 0;
    if n > 0 {
      StuckStays(p, Run(p, Start(p, entry, globals), n - 1));
      m := InliningPreserves(x, p, z, entry, globals, n - 1);
      var s' := Run(TrProgram(x, p), Start(TrProgram(x, p), entry, globals), m);
      var k := SimStep(x, p, z, Run(p, Start(p, entry, globals), n - 1), s');
      RunSplit(TrProgram(x, p), Start(TrProgram(x, p), entry, globals), m, k);
      m := m + k;
    }
  }

  lemma StuckStays(p: Program, s: State)
    requires Step(p, s) != Stuck
    ensures s != Stuck
  {
  }

  /** `s` is how the run ends. */
  ghost predicate Ends(p: Program, entry: nat, globals: Env, s: State)
    requires entry in p
  {
    !s.Running? && exists n: nat :: Run(p, Start(p, entry, globals), n) == s
  }

  ghost predicate NeverStuck(p: Program, entry: nat, globals: Env)
    requires entry in p
  {
    forall n: nat :: Run(p, Start(p, entry, globals), n) != Stuck
  }

  lemma {:induction false} OneEnd(p: Program, s: State, m: nat, n: nat)
    requires !Run(p, s, m).Running? && !Run(p, s, n).Running?
    ensures Run(p, s, m) == Run(p, s, n)
  {
    if m <= n {
      RunSplit(p, s, m, n - m);
      RunEnded(p, Run(p, s, m), n - m);
    } else {
      OneEnd(p, s, n, m);
    }
  }

  /** A program that never reads what was not assigned ends in the same way, with the same
      globals, after the inlining; and it does not end before if it does not end after. */
  lemma InliningKeepsEnds(x: Site, p: Program, z: Sizes, entry: nat, globals: Env, s: State)
    requires ValidSite(x, p, z) && SiteArity(x) && KeepsNullCheck(x.target)
    requires entry in p && p[entry].formals == [] && NeverStuck(p, entry, globals)
    ensures entry in TrProgram(x, p)
    ensures Ends(p, entry, globals, s) <==> Ends(TrProgram(x, p), entry, globals, s)
  {
    hide ValidSite, Start, TrProgram, Step, Run, KeepsNullCheck;
    var p' := TrProgram(x, p);
    StartCorresponds(x, p, z, entry, globals);
    var start, start' := Start(p, entry, globals), Start(p', entry, globals);
    if Ends(p, entry, globals, s) {
      var n: nat :| Run(p, start, n) == s;
      var m := InliningPreserves(x, p, z, entry, globals, n);
      assert Run(p', start', m) == s;
    }
    if Ends(p', entry, globals, s) {
      var m: nat :| Run(p', start', m) == s;
      var k := InliningPreserves(x, p, z, entry, globals, 3 * m + 2);
      RunSplit(p', start', m, k - m);
      RunEnded(p', s, k - m);
      assert Run(p, start, 3 * m + 2) == s;
    }
  }

  /** The transformed program never gets stuck either, so that more calls may be inlined. */
  lemma InliningStaysSafe(x: Site, p: Program, z: Sizes, entry: nat, globals: Env)
    requires ValidSite(x, p, z) && SiteArity(x) && KeepsNullCheck(x.target)
    requires entry in p && p[entry].formals == [] && NeverStuck(p, entry, globals)
    ensures entry in TrProgram(x, p) && NeverStuck(TrProgram(x, p), entry, globals)
  {
    hide ValidSite, TrProgram, Start, Run, KeepsNullCheck;
    InliningKeepsEnds(x, p, z, entry, globals, Stuck);
    forall n: nat ensures Run(TrProgram(x, p), Start(TrProgram(x, p), entry, globals), n) != Stuck {
      if Run(TrProgram(x, p), Start(TrProgram(x, p), entry, globals), n) == Stuck {
        StuckEnds(TrProgram(x, p), entry, globals, n);
        NotStuckEnds(p, entry, globals);
      }
    }
  }

  lemma StuckEnds(p: Program, entry: nat, globals: Env, n: nat)
    requires entry in p && Run(p, Start(p, entry, globals), n) == Stuck
    ensures Ends(p, entry, globals, Stuck)
  {
  }

  lemma NotStuckEnds(p: Program, entry: nat, globals: Env)
    requires entry in p && NeverStuck(p, entry, globals)
    ensures !Ends(p, entry, globals, Stuck)
  {
  }

  /** Each program comes from the one before by one inlining. */
  ghost predicate Inlinings(ps: seq<Program>, xs: seq<Site>, zs: seq<Sizes>) {
    && |ps| == |xs| + 1 && |zs| == |xs|
    && (forall i :: 0 <= i < |xs| ==> OneInlining(ps[i], xs[i], zs[i], ps[i + 1]))
  }

  ghost predicate OneInlining(p: Program, x: Site, z: Sizes, p': Program) {
    SiteArity(x) && ValidSite(x, p, z) && KeepsNullCheck(x.target) && p' == TrProgram(x, p)
  }

  /** Any number of inlinings, one after the other, keep how the program ends. */
  lemma {:induction false} ManyInlinings(ps: seq<Program>, xs: seq<Site>, zs: seq<Sizes>, entry: nat, globals: Env,
                                         n: nat)
    requires Inlinings(ps, xs, zs) && n <= |xs|
    requires entry in ps[0] && ps[0][entry].formals == [] && NeverStuck(ps[0], entry, globals)
    ensures entry in ps[n] && ps[n][entry].formals == [] && NeverStuck(ps[n], entry, globals)
    ensures forall s: State :: Ends(ps[0], entry, globals, s) <==> Ends(ps[n], entry, globals, s)
  {
    hide ValidSite, KeepsNullCheck, NeverStuck, Ends;
    if n > 0 {
      ManyInlinings(ps, xs, zs, entry, globals, n - 1);
      var p, x, z := ps[n - 1], xs[n - 1], zs[n - 1];
      assert OneInlining(p, x, z, ps[n]);
      InliningStaysSafe(x, p, z, entry, globals);
      forall s: State ensures Ends(ps[0], entry, globals, s) <==> Ends(ps[n], entry, globals, s) {
        InliningKeepsEnds(x, p, z, entry, globals, s);
      }
    }
  }

  // ---------------------------------------------------------------- when the call may be replaced

  /** A call of `f` that stands in a program whose runs never get stuck. */
  ghost predicate Use(f: Function, x: Site, p: Program, z: Sizes, entry: nat, globals: Env) {
    && x.target == f && SiteArity(x) && ValidSite(x, p, z)
    && entry in p && p[entry].formals == [] && NeverStuck(p, entry, globals)
  }

  ghost predicate SameEnds(x: Site, p: Program, entry: nat, globals: Env)
    requires SiteArity(x) && entry in p
  {
    forall s: State :: Ends(p, entry, globals, s) <==> Ends(TrProgram(x, p), entry, globals, s)
  }

  /** However the call stands in whatever program, the inlining keeps the ends of all runs. */
  ghost predicate Replaceable(f: Function) {
    forall x: Site, p: Program, z: Sizes, entry: nat, globals: Env ::
      Use(f, x, p, z, entry, globals) ==> SameEnds(x, p, entry, globals)
  }

  /** A function may be inlined unless it is empty and called on an object. */
  lemma ReplaceableExactly(f: Function)
    requires Distinct(f.formals) && forall i :: 0 <= i < |f.formals| ==> f.formals[i] >= 1
    ensures Replaceable(f) <==> KeepsNullCheck(f)
  {
    hide ValidSite, TrProgram, Ends, NeverStuck;
    if KeepsNullCheck(f) {
      forall x: Site, p: Program, z: Sizes, entry: nat, globals: Env | Use(f, x, p, z, entry, globals)
        ensures SameEnds(x, p, entry, globals)
      {
        StartCorresponds(x, p, z, entry, globals);
        forall s: State ensures Ends(p, entry, globals, s) <==> Ends(TrProgram(x, p), entry, globals, s) {
          InliningKeepsEnds(x, p, z, entry, globals, s);
        }
      }
    } else {
      NullCheckLost(f);
    }
  }

  /** `f(null, ..., null)` as the whole program. */
  function CallOnNull(f: Function): Site {
    Site(0, 1, 1, f, Nulls(|f.formals|), NoDest, Offsets(0, 0, 0), 1, false)
  }

  function Nulls(n: nat): (r: seq<Expr>)
    ensures |r| == n
  {
    if n == 0 then [] else Nulls(n - 1) + [Const(0)]
  }

  lemma {:induction false} NullsAreNull(n: nat)
    ensures EvalAll(Nulls(n), map[], map[], map[]).Some?
    ensures forall i :: 0 <= i < n ==> EvalAll(Nulls(n), map[], map[], map[]).value[i] == 0
  {
    if n > 0 {
      NullsAreNull(n - 1);
      assert Nulls(n)[..n - 1] == Nulls(n - 1);
    }
  }

  function NullProgram(f: Function): Program {
    map[0 := Function([TheCall(CallOnNull(f))], [], false), 1 := f]
  }

  lemma NullSiteValid(f: Function)
    requires Distinct(f.formals) && (forall i :: 0 <= i < |f.formals| ==> f.formals[i] >= 1) && f.body == []
    ensures ValidSite(CallOnNull(f), NullProgram(f), Sizes(1, 1, 1))
  {
    var x := CallOnNull(f);
    var body := [TheCall(x)];
    assert body[1..] == [];
    assert CountCalls(x.stmtID, body) == CountCall(x.stmtID, TheCall(x)) + CountCalls(x.stmtID, []);
    assert AllOk(CallerCheck(TheCall(x), 1, 1), body) by { AllOkOne(CallerCheck(TheCall(x), 1, 1), TheCall(x)); }
    assert Labels(body) == {};
  }

  lemma NullCheckLost(f: Function)
    requires Distinct(f.formals) && (forall i :: 0 <= i < |f.formals| ==> f.formals[i] >= 1)
    requires !KeepsNullCheck(f)
    ensures !Replaceable(f)
  {
    var x, p := CallOnNull(f), NullProgram(f);
    var p' := TrProgram(x, p);
    NullSiteValid(f);
    NullsAreNull(|f.formals|);
    var start, start' := Start(p, 0, map[]), Start(p', 0, map[]);
    assert Run(p, start, 0) == start && Run(p', start', 0) == start';
    assert Run(p, start, 1) == Threw(map[]);
    assert p'[0].body == [] by {
      assert Tr(x, [TheCall(x)]) == Inlined(x) + Tr(x, []);
    }
    assert Run(p', start', 1) == Finished(map[]);
    forall n: nat ensures Run(p, start, n) != Stuck {
      ThrowsAtOnce(p, start, n);
    }
    if Ends(p', 0, map[], Threw(map[])) {
      var n: nat :| Run(p', start', n) == Threw(map[]);
      OneEnd(p', start', 1, n);
      assert false;
    }
    assert Ends(p, 0, map[], Threw(map[]));
    assert Use(f, x, p, Sizes(1, 1, 1), 0, map[]);
  }

  lemma ThrowsAtOnce(p: Program, s: State, n: nat)
    requires s.Running? && Run(p, s, 1) == Threw(map[])
    ensures Run(p, s, n) != Stuck
  {
    if n >= 1 {
      RunSplit(p, s, 1, n - 1);
      RunEnded(p, Threw(map[]), n - 1);
    }
  }
}
