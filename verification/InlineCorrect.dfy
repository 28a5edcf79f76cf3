/** The relation between stacks before and after the inlining, and how calling, entering the inlined
    block and returning keep it. */
module InlineCorrect {
  import opened Options
  import opened Mir
  import opened InlineTransform
  import opened InlineStructure
  import opened InlineInvariant
  import opened InlineFrames
  import opened InlineSteps
  import opened InlineMerged
  import opened InlineEnds

  /** An empty callee is simply deleted, and with it the null check of `this`. */
  predicate KeepsNullCheck(f: Function) {
    f.body != [] || !f.checksThis || f.formals == []
  }

  // ---------------------------------------------------------------- related stacks

  predicate AtSomeCall(f: Frame) {
    f.code != [] && f.code[0].Call?
  }

  /** The frame of an empty callee, which the transformed program never makes. */
  ghost predicate Skipped(x: Site, p: Program, z: Sizes, fc: Frame, fr: Frame, f': Frame)
    requires ValidSite(x, p, z)
  {
    && x.target.body == [] && fc.fn == x.callee && fc.code == [] && Waits(x, p, z, fr)
    && fr.code != [] && Plain(x, p, z, fr.(code := fr.code[1..]), f')
  }

  /** Frames that wait for a call to return. */
  ghost predicate MatchBelow(x: Site, p: Program, z: Sizes, fs: seq<Frame>, fs': seq<Frame>)
    requires ValidSite(x, p, z)
  {
    if fs == [] || fs' == [] then fs == fs'
    else
      (Plain(x, p, z, fs[0], fs'[0]) && !AtCall(x, fs[0]) && AtSomeCall(fs[0])
        && MatchBelow(x, p, z, fs[1..], fs'[1..]))
      || (|fs| > 1 && Merged(x, p, z, fs[0], fs[1], fs'[0]) && AtSomeCall(fs[0])
        && MatchBelow(x, p, z, fs[2..], fs'[1..]))
  }

  ghost predicate MatchPlain(x: Site, p: Program, z: Sizes, fs: seq<Frame>, fs': seq<Frame>)
    requires ValidSite(x, p, z)
  {
    fs != [] && fs' != [] && Plain(x, p, z, fs[0], fs'[0]) && MatchBelow(x, p, z, fs[1..], fs'[1..])
  }

  ghost predicate MatchMerged(x: Site, p: Program, z: Sizes, fs: seq<Frame>, fs': seq<Frame>)
    requires ValidSite(x, p, z)
  {
    |fs| > 1 && fs' != [] && Merged(x, p, z, fs[0], fs[1], fs'[0]) && MatchBelow(x, p, z, fs[2..], fs'[1..])
  }

  ghost predicate MatchSkipped(x: Site, p: Program, z: Sizes, fs: seq<Frame>, fs': seq<Frame>)
    requires ValidSite(x, p, z)
  {
    |fs| > 1 && fs' != [] && Skipped(x, p, z, fs[0], fs[1], fs'[0]) && MatchBelow(x, p, z, fs[2..], fs'[1..])
  }

  /** The states of the two programs correspond: the same globals, and the same end. */
  ghost predicate Corresponds(x: Site, p: Program, z: Sizes, s: State, s': State)
    requires ValidSite(x, p, z)
  {
    if s.Running?
    then s'.Running? && s'.globals == s.globals
         && (MatchPlain(x, p, z, s.stack, s'.stack) || MatchMerged(x, p, z, s.stack, s'.stack)
           || MatchSkipped(x, p, z, s.stack, s'.stack))
    else s' == s
  }

  // ---------------------------------------------------------------- frames and states

  /** Steps of the function on top are steps of the program. */
  lemma {:induction false} TopRuns(p: Program, f: Frame, g: Env, k: nat, f1: Frame, g1: Env, below: seq<Frame>)
    requires Reaches(p, f, g, k, f1, g1)
    ensures Run(p, Running([f] + below, g), k) == Running([f1] + below, g1)
  {
    hide StepFrame;
    if k > 0 {
      var m := RunFrame(p, f, g, k - 1);
      TopRuns(p, f, g, k - 1, m.frame, m.globals, below);
      assert ([m.frame] + below)[1..] == below;
    }
  }

  lemma StackSplit(s: State)
    requires s.Running? && s.stack != []
    ensures s == Running([s.stack[0]] + s.stack[1..], s.globals)
  {
  }

  /** A call pushes the same frame on both sides. */
  lemma PushMatches(x: Site, p: Program, z: Sizes, callee: nat, vs: seq<int>)
    requires ValidSite(x, p, z) && SiteArity(x) && callee in p && |p[callee].formals| == |vs|
    ensures callee in TrProgram(x, p) && TrProgram(x, p)[callee].formals == p[callee].formals
    ensures Plain(x, p, z, Frame(callee, p[callee].body, Bind(p[callee].formals, vs), map[]),
                  Frame(callee, TrProgram(x, p)[callee].body, Bind(p[callee].formals, vs), map[]))
  {
    hide AllOk, Tr;
    var locals := Bind(p[callee].formals, vs);
    if callee == x.caller {
      PointsBody(x, p[callee].body);
      BindKeys(p[callee].formals, vs);
    }
  }

  lemma {:induction false} BindKeys(formals: seq<nat>, vs: seq<int>)
    requires |formals| == |vs|
    ensures forall k :: k in Bind(formals, vs) ==> k in formals
  {
    if formals != [] {
      BindKeys(formals[..|formals| - 1], vs[..|vs| - 1]);
    }
  }

  // ---------------------------------------------------------------- one step of the program

  /** A called function on top, not at the inlined call: one step on each side. */
  lemma PlainTop(x: Site, p: Program, z: Sizes, s: State, s': State)
    requires ValidSite(x, p, z) && SiteArity(x) && s.Running? && s'.Running? && s'.globals == s.globals
    requires MatchPlain(x, p, z, s.stack, s'.stack) && !AtCall(x, s.stack[0])
    requires StepFrame(p, s.stack[0], s.globals).Next? || StepFrame(p, s.stack[0], s.globals).Trap?
    ensures Corresponds(x, p, z, Step(p, s), Step(TrProgram(x, p), s'))
  {
    hide ValidSite, Plain, StepFrame, MatchBelow, Merged, Skipped;
    PlainStep(x, p, z, s.stack[0], s'.stack[0], s.globals);
  }

  lemma PlainInvokes(x: Site, p: Program, z: Sizes, s: State, s': State)
    requires ValidSite(x, p, z) && SiteArity(x) && s.Running? && s'.Running? && s'.globals == s.globals
    requires MatchPlain(x, p, z, s.stack, s'.stack) && !AtCall(x, s.stack[0])
    requires StepFrame(p, s.stack[0], s.globals).Invoke? && Step(p, s) != Stuck
    ensures Corresponds(x, p, z, Step(p, s), Step(TrProgram(x, p), s'))
  {
    hide ValidSite, Plain, StepFrame, Merged, Skipped, Bind, TrProgram;
    PlainStep(x, p, z, s.stack[0], s'.stack[0], s.globals);
    var e := StepFrame(p, s.stack[0], s.globals);
    InvokesAtCall(p, s.stack[0], s.globals);
    PushMatches(x, p, z, e.puIdx, e.args);
    PushedStacks(x, p, z, s, s');
  }

  lemma InvokesAtCall(p: Program, f: Frame, g: Env)
    requires StepFrame(p, f, g).Invoke?
    ensures AtSomeCall(f)
  {
  }

  lemma PushedStacks(x: Site, p: Program, z: Sizes, s: State, s': State)
    requires ValidSite(x, p, z) && s.Running? && s'.Running?
    requires MatchPlain(x, p, z, s.stack, s'.stack) && !AtCall(x, s.stack[0]) && AtSomeCall(s.stack[0])
    ensures MatchBelow(x, p, z, s.stack, s'.stack)
  {
  }

  /** A result is taken the same way on both sides. */
  lemma ResumePlain(x: Site, p: Program, z: Sizes, f: Frame, f': Frame, v: Option<int>, g: Env)
    requires ValidSite(x, p, z) && Plain(x, p, z, f, f') && !AtCall(x, f) && AtSomeCall(f)
    ensures Resume(f, v, g).Next?
    ensures PlainAgree(x, p, z, Resume(f, v, g), Resume(f', v, g))
  {
    hide ValidSite, PlainEnv, SameOk, SameCode, PlainAgree, Assign, AllOk, Points;
    PlainHead(x, p, z, f, f');
    var s, rest := f.code[0], f.code[1..];
    OtherSame(x, f.fn, s);
    AssignIsNext(f, v, g);
    if v.None? || s.dest.NoDest? {
      GoOn(x, p, z, f, f', rest, g);
    } else {
      match s.dest
      case ToSymbol(st) => AssignAgree(x, p, z, f, f', st, v.value, rest, g);
      case ToReg(r) => SetRegAgree(x, p, z, f, f', r, v.value, rest, g);
    }
  }

  lemma AssignIsNext(f: Frame, v: Option<int>, g: Env)
    requires AtSomeCall(f)
    ensures Resume(f, v, g).Next?
  {
  }

  lemma SetRegAgree(x: Site, p: Program, z: Sizes, f: Frame, f': Frame, r: nat, v: int, rest: seq<Stmt>, g: Env)
    requires ValidSite(x, p, z) && SiteArity(x) && f'.fn == f.fn && f.fn in p && PlainEnv(x, z, f, f')
    requires SameOk(x, p, z, f.fn, rest)
    requires f.fn == x.caller ==> r < z.regs
    ensures PlainAgree(x, p, z, Next(f.(code := rest, pregs := f.pregs[r := v]), g),
                       Next(f'.(code := SameCode(x, f.fn, rest), pregs := f'.pregs[r := v]), g))
  {
    hide ValidSite, Points, AllOk, After, Tr;
  }

  lemma ResumeMerged(x: Site, p: Program, z: Sizes, fc: Frame, fr: Frame, f': Frame, v: Option<int>, g: Env)
    requires ValidSite(x, p, z) && Merged(x, p, z, fc, fr, f') && AtSomeCall(fc)
    ensures Resume(fc, v, g).Next?
    ensures MergedAgree(x, p, z, fr, Resume(fc, v, g), Resume(f', v, g))
  {
    hide ValidSite, MergedEnv, MergedCode, MergedAgree, Assign, AllOk, Points, KeepsLabel, Waits, CalleeCode;
    AssignIsNext(fc, v, g);
    MoreToRun(x, p, z, fc, fr, f');
    MergedHead(x, p, z, fc, fr, f');
    var s, rest := fc.code[0], fc.code[1..];
    assert InCallerStmt(x, s) == [RenameStmt(x.o, s)];
    assert f'.code[1..] == MergedCode(x, fr, rest);
    CallDestOk(s);
    if v.None? || s.dest.NoDest? {
      MergedGoOn(x, p, z, fc, fr, f', rest, g);
    } else {
      match s.dest
      case ToSymbol(st) => MergedAssign(x, p, z, fc, fr, f', st, v.value, rest, g);
      case ToReg(r) => MergedSetReg(x, p, z, fc, fr, f', r, v.value, rest, g);
    }
  }

  lemma CallDestOk(s: Stmt)
    requires s.Call? && StmtOk(CalleeCheck, s)
    ensures DestOk(CalleeCheck, s.dest)
  {
  }

  /** A called function returns. */
  lemma PlainLeaves(x: Site, p: Program, z: Sizes, s: State, s': State)
    requires ValidSite(x, p, z) && SiteArity(x) && s.Running? && s'.Running? && s'.globals == s.globals
    requires MatchPlain(x, p, z, s.stack, s'.stack) && !AtCall(x, s.stack[0])
    requires StepFrame(p, s.stack[0], s.globals).Leave?
    ensures Corresponds(x, p, z, Step(p, s), Step(TrProgram(x, p), s'))
  {
    hide ValidSite, Plain, StepFrame, Merged, Skipped, Resume, TrProgram;
    PlainStep(x, p, z, s.stack[0], s'.stack[0], s.globals);
    var v := StepFrame(p, s.stack[0], s.globals).result;
    var fs, fs' := s.stack[1..], s'.stack[1..];
    if fs != [] {
      assert fs[1..] == s.stack[2..] && fs'[1..] == s'.stack[2..];
      if Plain(x, p, z, fs[0], fs'[0]) && !AtCall(x, fs[0]) && AtSomeCall(fs[0])
        && MatchBelow(x, p, z, fs[1..], fs'[1..]) {
        ResumePlain(x, p, z, fs[0], fs'[0], v, s.globals);
      } else {
        ResumeMerged(x, p, z, fs[0], fs[1], fs'[0], v, s.globals);
        MergedOnTop(x, p, z, s, s', v);
      }
    }
  }

  lemma MergedOnTop(x: Site, p: Program, z: Sizes, s: State, s': State, v: Option<int>)
    requires ValidSite(x, p, z) && s.Running? && s'.Running? && s'.globals == s.globals
    requires |s.stack| > 2 && |s'.stack| > 1
    requires MatchBelow(x, p, z, s.stack[3..], s'.stack[2..])
    requires Resume(s.stack[1], v, s.globals).Next?
    requires MergedAgree(x, p, z, s.stack[2], Resume(s.stack[1], v, s.globals), Resume(s'.stack[1], v, s.globals))
    ensures MatchMerged(x, p, z, [Resume(s.stack[1], v, s.globals).frame] + s.stack[2..],
                        [Resume(s'.stack[1], v, s.globals).frame] + s'.stack[2..])
  {
    hide ValidSite, Merged, Resume, MatchBelow;
    var a, b := Resume(s.stack[1], v, s.globals).frame, Resume(s'.stack[1], v, s.globals).frame;
    assert ([a] + s.stack[2..])[2..] == s.stack[3..] && ([b] + s'.stack[2..])[1..] == s'.stack[2..];
  }

  // ---------------------------------------------------------------- the inlined call itself

  /** A state of the caller about to make the call. */
  ghost predicate Calling(x: Site, p: Program, z: Sizes, s: State, s': State)
    requires ValidSite(x, p, z)
  {
    && s.Running? && s'.Running? && s'.globals == s.globals
    && MatchPlain(x, p, z, s.stack, s'.stack) && AtCall(x, s.stack[0])
  }

  lemma CallingWaits(x: Site, p: Program, z: Sizes, s: State, s': State)
    requires ValidSite(x, p, z) && Calling(x, p, z, s, s')
    ensures Waits(x, p, z, s.stack[0])
  {
  }

  lemma MergedEntry(x: Site, p: Program, z: Sizes, fr: Frame, f': Frame, f1: Frame, vs: seq<int>)
    requires ValidSite(x, p, z) && SiteArity(x) && x.target.body != [] && Waits(x, p, z, fr) && Plain(x, p, z, fr, f')
    requires f1.fn == x.caller && f1.pregs == f'.pregs && Inside(fr.locals, f1.locals)
    requires |vs| == |x.opnds| && FormalsSet(x, vs, |vs|, f1.locals)
    requires fr.code != [] && f1.code == BodyCode(x, x.target.body) + Rest(x, fr)
    ensures Merged(x, p, z, Frame(x.callee, x.target.body, Bind(x.target.formals, vs), map[]), fr, f1)
  {
    hide BodyCode, Epilogue, Labels, CallerSide;
    FormalsShifted(x, vs, f1.locals);
    StartOfCallee(x);
  }

  /** With a body to inline: the call enters the callee, or throws, on both sides. */
  lemma CallInlined(x: Site, p: Program, z: Sizes, s: State, s': State) returns (k: nat)
    requires ValidSite(x, p, z) && SiteArity(x) && Calling(x, p, z, s, s') && x.target.body != [] && Step(p, s) != Stuck
    ensures k >= 1 && Corresponds(x, p, z, Step(p, s), Run(TrProgram(x, p), s', k))
  {
    hide ValidSite, Plain, StepFrame, Merged, Skipped, EvalAll, Bind, TrProgram, Waits, MatchBelow, BodyCode, Epilogue;
    var fr, f', g, p' := s.stack[0], s'.stack[0], s.globals, TrProgram(x, p);
    CallingWaits(x, p, z, s, s');
    CallEffect(x, p, z, fr, g);
    CallValues(x, p, fr, g);
    SiteCallee(x, p, z);
    var vs := EvalAll(x.opnds, fr.locals, fr.pregs, g).value;
    var j, f1 := EnterMerged(x, p, z, fr, f', vs, g);
    StackSplit(s');
    TopRuns(p', f', g, j, f1, g, s'.stack[1..]);
    if NullCheck(x) == [] {
      assert f1.code == BodyCode(x, x.target.body) + Rest(x, fr);
      MergedEntry(x, p, z, fr, f', f1, vs);
      k := j;
      PushedMerged(x, p, z, s, s', vs, f1);
    } else {
      k := ThisChecked(x, p, z, s, s', vs, j, f1);
    }
  }

  lemma CallValues(x: Site, p: Program, fr: Frame, g: Env)
    requires DoCall(p, fr, x.callee, x.opnds, g) != Wrong
    ensures EvalAll(x.opnds, fr.locals, fr.pregs, g).Some?
  {
  }

  lemma SiteCallee(x: Site, p: Program, z: Sizes)
    requires ValidSite(x, p, z)
    ensures x.callee in p && p[x.callee] == x.target && SiteArity(x)
  {
  }

  lemma PushedMerged(x: Site, p: Program, z: Sizes, s: State, s': State, vs: seq<int>, f1: Frame)
    requires ValidSite(x, p, z) && SiteArity(x) && Calling(x, p, z, s, s')
    requires |vs| == |x.opnds| && x.callee in p && p[x.callee] == x.target
    requires Step(p, s) != Stuck && StepFrame(p, s.stack[0], s.globals) == Invoke(x.callee, vs)
    requires Merged(x, p, z, Frame(x.callee, x.target.body, Bind(x.target.formals, vs), map[]), s.stack[0], f1)
    ensures Corresponds(x, p, z, Step(p, s), Running([f1] + s'.stack[1..], s.globals))
  {
    hide ValidSite, Plain, Merged, Skipped, MatchBelow, StepFrame;
    var fc := Frame(x.callee, x.target.body, Bind(x.target.formals, vs), map[]);
    assert ([fc] + s.stack)[2..] == s.stack[1..] && ([f1] + s'.stack[1..])[1..] == s'.stack[1..];
  }

  /** The null check of `this` throws exactly when the call does. */
  lemma ThisChecked(x: Site, p: Program, z: Sizes, s: State, s': State, vs: seq<int>, j: nat, f1: Frame)
    returns (k: nat)
    requires ValidSite(x, p, z) && SiteArity(x) && Calling(x, p, z, s, s') && x.target.body != [] && NullCheck(x) != []
    requires Step(p, s) != Stuck && x.callee in p && p[x.callee] == x.target
    requires EvalAll(x.opnds, s.stack[0].locals, s.stack[0].pregs, s.globals) == Some(vs)
    requires StepFrame(p, s.stack[0], s.globals) == DoCall(p, s.stack[0], x.callee, x.opnds, s.globals)
    requires f1.fn == x.caller && f1.pregs == s'.stack[0].pregs && Inside(s.stack[0].locals, f1.locals)
    requires FormalsSet(x, vs, |vs|, f1.locals)
    requires f1.code == NullCheck(x) + (BodyCode(x, x.target.body) + Rest(x, s.stack[0]))
    requires Run(TrProgram(x, p), s', j) == Running([f1] + s'.stack[1..], s.globals)
    ensures k >= 1 && Corresponds(x, p, z, Step(p, s), Run(TrProgram(x, p), s', k))
  {
    hide ValidSite, Merged, Skipped, Bind, TrProgram, Waits, MatchBelow, BodyCode, Epilogue, StepFrame, Tr, AllOk;
    hide Points;
    var fr, g, p' := s.stack[0], s.globals, TrProgram(x, p);
    CallingWaits(x, p, z, s, s');
    var more := BodyCode(x, x.target.body) + Rest(x, fr);
    EvalAt(x.opnds, 0, fr.locals, fr.pregs, g);
    EvalInside(x.opnds[0], fr.locals, fr.pregs, f1.locals, f1.pregs, g);
    CheckStep(p', f1, x.opnds[0], vs[0], more, g);
    assert ([f1] + s'.stack[1..])[1..] == s'.stack[1..];
    k := j + 1;
    if vs[0] != 0 {
      var f2 := f1.(code := more);
      MergedEntry(x, p, z, fr, s'.stack[0], f2, vs);
      PushedMerged(x, p, z, s, s', vs, f2);
    }
  }

  lemma CheckStep(p': Program, f: Frame, e: Expr, v: int, rest: seq<Stmt>, g: Env)
    requires f.code == [AssertNonNull(e)] + rest && Eval(e, f.locals, f.pregs, g) == Some(v)
    ensures StepFrame(p', f, g) == if v == 0 then Trap else Next(f.(code := rest), g)
  {
    assert f.code[1..] == rest;
  }

  /** With an empty callee the call is passed over. */
  lemma CallSkipped(x: Site, p: Program, z: Sizes, s: State, s': State)
    requires ValidSite(x, p, z) && SiteArity(x) && Calling(x, p, z, s, s') && x.target.body == [] && Step(p, s) != Stuck
    requires KeepsNullCheck(x.target)
    ensures Corresponds(x, p, z, Step(p, s), s')
    ensures Step(p, s).Running? && Step(p, s).globals == s'.globals && MatchSkipped(x, p, z, Step(p, s).stack, s'.stack)
  {
    hide Merged, MatchBelow, AllOk, Points, CallerSide, EvalAll, Bind, StepFrame, Labels;
    var fr, g := s.stack[0], s.globals;
    CallingWaits(x, p, z, s, s');
    WaitsAfter(x, p, z, fr);
    CallEffect(x, p, z, fr, g);
    SiteCallee(x, p, z);
    AfterPlain(x, p, z, fr);
    var vs := EvalAll(x.opnds, fr.locals, fr.pregs, g).value;
    var fc := Frame(x.callee, [], Bind(x.target.formals, vs), map[]);
    assert Inlined(x) == [] && Tr(x, fr.code) == Tr(x, fr.code[1..]);
    assert ([fc] + s.stack)[2..] == s.stack[1..];
  }

  lemma AfterPlain(x: Site, p: Program, z: Sizes, fr: Frame)
    requires ValidSite(x, p, z) && Waits(x, p, z, fr) && fr.code != []
    ensures AllOk(CallerCheck(TheCall(x), z.syms, z.regs), fr.code[1..]) && Points(x, fr.code[1..], After(x, p))
  {
  }
}
