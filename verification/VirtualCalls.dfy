/** The callees of a virtual call by class-hierarchy analysis:
    mapleall/maple_ipa/src/callgraph.cpp:393-458. */
module VirtualCalls {
  import opened Options
  import opened Reachability

  /** `sig` stands for the base name with types, which is what methods are matched by. */
  datatype Method = Method(puIdx: nat, sig: nat)

  datatype Klass = Klass(methods: seq<Method>, superKlass: Option<nat>, subKlasses: seq<nat>)

  type Hierarchy = seq<Klass>

  /** From a class to its subclasses. */
  ghost function Subs(h: Hierarchy): (g: Graph)
    ensures |g| == |h| && forall k :: 0 <= k < |h| ==> g[k] == set s | s in h[k].subKlasses
  {
    seq(|h|, k requires 0 <= k < |h| => set s | s in h[k].subKlasses)
  }

  /** Links to subclasses and to the superclass are inverse to each other. */
  ghost predicate Linked(h: Hierarchy) {
    && (forall k, i :: 0 <= k < |h| && 0 <= i < |h[k].subKlasses| ==>
          h[k].subKlasses[i] < |h| && h[h[k].subKlasses[i]].superKlass == Some(k))
    && (forall k :: 0 <= k < |h| && h[k].superKlass.Some? ==>
          h[k].superKlass.value < |h| && k in h[h[k].superKlass.value].subKlasses)
  }

  ghost predicate Acyclic(h: Hierarchy) {
    forall k: nat :: k < |h| ==> !ReachPlus(Subs(h), k, k)
  }

  ghost predicate ValidHierarchy(h: Hierarchy) {
    Linked(h) && Acyclic(h)
  }

  /** The classes at or below `k`. */
  ghost predicate AtOrBelow(h: Hierarchy, d: nat, k: nat) {
    Reach(Subs(h), k, d)
  }

  ghost function Below(h: Hierarchy, k: nat): set<nat> {
    set d: nat | d < |h| && AtOrBelow(h, d, k)
  }

  ghost function Above(h: Hierarchy, k: nat): set<nat> {
    set a: nat | a < |h| && AtOrBelow(h, k, a)
  }

  lemma ComesBack(g: Graph, k: nat, s: nat)
    requires k < |g| && s in g[k] && Reach(g, s, k)
    ensures ReachPlus(g, k, k)
  {
  }

  lemma NoWayBack(h: Hierarchy, k: nat, s: nat)
    requires ValidHierarchy(h) && k < |h| && s in h[k].subKlasses
    ensures !Reach(Subs(h), s, k)
  {
    if Reach(Subs(h), s, k) {
      ComesBack(Subs(h), k, s);
    }
  }

  lemma SubIsSmaller(h: Hierarchy, k: nat, s: nat)
    requires ValidHierarchy(h) && k < |h| && s in h[k].subKlasses
    ensures s < |h| && AtOrBelow(h, s, k) && Below(h, s) < Below(h, k) && Above(h, k) < Above(h, s)
  {
    var g := Subs(h);
    var i :| 0 <= i < |h[k].subKlasses| && h[k].subKlasses[i] == s;
    ReachRefl(g, s);
    ReachRefl(g, k);
    ReachStep(g, k, s, s);
    NoWayBack(h, k, s);
    forall d | d in Below(h, s) ensures d in Below(h, k) {
      ReachTrans(g, k, s, d);
    }
    forall a | a in Above(h, k) ensures a in Above(h, s) {
      ReachTrans(g, a, k, s);
    }
    assert k in Below(h, k) && k !in Below(h, s) && s in Above(h, s) && s !in Above(h, k);
  }

  // ---------------------------------------------------------------- dispatch

  /** The first method of the class with this name. */
  function FirstMethod(ms: seq<Method>, sig: nat): (r: Option<Method>)
    ensures r.Some? ==> r.value in ms && r.value.sig == sig
    ensures r.None? <==> forall m :: m in ms ==> m.sig != sig
  {
    if ms == [] then None else if ms[0].sig == sig then Some(ms[0]) else FirstMethod(ms[1..], sig)
  }

  /** No method before it has the name. */
  lemma {:induction false} FirstIsFirst(ms: seq<Method>, sig: nat, m: Method)
    ensures FirstMethod(ms, sig) == Some(m) <==>
      exists i :: 0 <= i < |ms| && ms[i] == m && m.sig == sig && forall j :: 0 <= j < i ==> ms[j].sig != sig
  {
    if ms != [] && ms[0].sig != sig {
      var rest := ms[1..];
      FirstIsFirst(rest, sig, m);
      assert forall i :: 0 <= i < |rest| ==> rest[i] == ms[i + 1];
      if i :| 0 <= i < |rest| && rest[i] == m && m.sig == sig && forall j :: 0 <= j < i ==> rest[j].sig != sig {
        assert ms[i + 1] == m && forall j :: 1 <= j < i + 1 ==> ms[j] == rest[j - 1];
      }
      if i :| 0 <= i < |ms| && ms[i] == m && m.sig == sig && forall j :: 0 <= j < i ==> ms[j].sig != sig {
        assert rest[i - 1] == m;
      }
    }
  }

  /** What a call on an object of class `d` runs: the method of the nearest class upwards. */
  ghost function Dispatch(h: Hierarchy, d: nat, sig: nat): Option<Method>
    requires ValidHierarchy(h) && d < |h|
    decreases Above(h, d)
  {
    if FirstMethod(h[d].methods, sig).Some? then FirstMethod(h[d].methods, sig)
    else if h[d].superKlass.None? then None
    else
      SubIsSmaller(h, h[d].superKlass.value, d);
      Dispatch(h, h[d].superKlass.value, sig)
  }

  /** `c` declares `m` and stands at or above `d`, and no class on the way to it has the name. */
  ghost predicate NearestDeclares(h: Hierarchy, d: nat, sig: nat, c: nat, m: Method) {
    && c < |h| && AtOrBelow(h, d, c) && FirstMethod(h[c].methods, sig) == Some(m)
    && (forall b: nat :: b < |h| && AtOrBelow(h, d, b) && AtOrBelow(h, b, c) && b != c ==>
          FirstMethod(h[b].methods, sig).None?)
  }

  // ---------------------------------------------------------------- the worklist of subclasses

  /** How many entries the worklist will still take on for a class: there is no visited set. */
  ghost function Work(h: Hierarchy, k: nat): nat
    requires ValidHierarchy(h) && k < |h|
    decreases Below(h, k), 1, 0
  {
    1 + WorkOf(h, k, h[k].subKlasses)
  }

  ghost function WorkOf(h: Hierarchy, k: nat, ss: seq<nat>): nat
    requires ValidHierarchy(h) && k < |h| && forall i :: 0 <= i < |ss| ==> ss[i] in h[k].subKlasses
    decreases Below(h, k), 0, |ss|
  {
    if ss == [] then 0
    else
      assert ss[0] in h[k].subKlasses;
      SubIsSmaller(h, k, ss[0]);
      Work(h, ss[0]) + WorkOf(h, k, ss[1..])
  }

  ghost function Pending(h: Hierarchy, ks: seq<nat>): nat
    requires ValidHierarchy(h) && forall i :: 0 <= i < |ks| ==> ks[i] < |h|
  {
    if ks == [] then 0 else Work(h, ks[0]) + Pending(h, ks[1..])
  }

  lemma {:induction false} PendingAppend(h: Hierarchy, ks: seq<nat>, k: nat, ss: seq<nat>)
    requires ValidHierarchy(h) && k < |h| && (forall i :: 0 <= i < |ks| ==> ks[i] < |h|)
    requires forall i :: 0 <= i < |ss| ==> ss[i] in h[k].subKlasses && ss[i] < |h|
    ensures Pending(h, ks + ss) == Pending(h, ks) + WorkOf(h, k, ss)
    decreases |ks| + |ss|
  {
    hide ValidHierarchy, Work;
    if ks != [] {
      PendingAppend(h, ks[1..], k, ss);
      assert (ks + ss)[1..] == ks[1..] + ss;
    } else if ss != [] {
      PendingAppend(h, [], k, ss[1..]);
      assert [] + ss == ss && [] + ss[1..] == ss[1..];
    } else {
      assert ks + ss == [];
    }
  }

  /** The recorded method of one class. */
  ghost predicate RecordedIn(h: Hierarchy, ks: seq<nat>, sig: nat, callees: set<Method>)
    requires forall i :: 0 <= i < |ks| ==> ks[i] < |h|
  {
    forall m :: m in callees <==> exists i :: 0 <= i < |ks| && FirstMethod(h[ks[i]].methods, sig) == Some(m)
  }

  /** Classes at or below the static one, which is among them. */
  ghost predicate Collected(h: Hierarchy, klass: nat, ks: seq<nat>) {
    && klass in ks
    && (forall i :: 0 <= i < |ks| ==> ks[i] < |h| && AtOrBelow(h, ks[i], klass))
  }

  /** The subclasses of the first `n` are among them too. */
  ghost predicate SubsCollected(h: Hierarchy, ks: seq<nat>, n: nat)
    requires forall i :: 0 <= i < |ks| ==> ks[i] < |h|
  {
    forall i :: 0 <= i < n && i < |ks| ==> forall s :: s in h[ks[i]].subKlasses ==> s in ks
  }

  lemma CollectSubs(h: Hierarchy, klass: nat, ks: seq<nat>, n: nat)
    requires ValidHierarchy(h) && Collected(h, klass, ks) && SubsCollected(h, ks, n) && n < |ks|
    ensures Collected(h, klass, ks + h[ks[n]].subKlasses) && SubsCollected(h, ks + h[ks[n]].subKlasses, n + 1)
  {
    hide ValidHierarchy, AtOrBelow;
    SubsBelow(h, ks[n], klass);
    var subs := h[ks[n]].subKlasses;
    forall i | 0 <= i < |ks + subs| ensures (ks + subs)[i] < |h| && AtOrBelow(h, (ks + subs)[i], klass) {
      if i >= |ks| {
        assert subs[i - |ks|] in subs;
      }
    }
  }

  /** The worklist ends, although a class may be entered more than once, and holds every class at
      or below the static one. */
  method Subclasses(h: Hierarchy, klass: nat, sig: nat) returns (klassVector: seq<nat>, callees: set<Method>)
    requires ValidHierarchy(h) && klass < |h|
    ensures forall d: nat :: d in klassVector <==> AtOrBelow(h, d, klass)
    ensures forall m :: m in callees <==>
      exists d: nat :: d < |h| && AtOrBelow(h, d, klass) && FirstMethod(h[d].methods, sig) == Some(m)
  {
    hide ValidHierarchy, AtOrBelow, SubsCollected, RecordedIn, Pending;
    klassVector, callees := [klass], {};
    StaticKlass(h, klass);
    NothingCollected(h, klassVector, sig);
    var index := 0;
    while index < |klassVector|
      invariant 0 <= index <= |klassVector| && Collected(h, klass, klassVector) && SubsCollected(h, klassVector, index)
      invariant RecordedIn(h, klassVector[..index], sig, callees)
      decreases Pending(h, klassVector[index..])
    {
      var currKlass := klassVector[index];
      ghost var before := klassVector;
      var m := FirstMethod(h[currKlass].methods, sig);
      RecordsOneMore(h, klassVector[..index], currKlass, sig, callees);
      if m.Some? {
        callees := callees + {m.value};
      }
      CollectSubs(h, klass, klassVector, index);
      LessPending(h, klassVector, index);
      klassVector := klassVector + h[currKlass].subKlasses;
      assert klassVector[..index + 1] == before[..index] + [currKlass];
      assert klassVector[index + 1..] == before[index + 1..] + h[currKlass].subKlasses;
      index := index + 1;
    }
    assert klassVector[..index] == klassVector;
    AllBelowFound(h, klass, klassVector);
    RecordedBelow(h, klass, klassVector, sig, callees);
  }

  lemma NothingCollected(h: Hierarchy, ks: seq<nat>, sig: nat)
    requires forall i :: 0 <= i < |ks| ==> ks[i] < |h|
    ensures SubsCollected(h, ks, 0) && RecordedIn(h, ks[..0], sig, {})
  {
  }

  lemma StaticKlass(h: Hierarchy, klass: nat)
    requires klass < |h|
    ensures AtOrBelow(h, klass, klass)
  {
    ReachRefl(Subs(h), klass);
  }

  lemma SubsBelow(h: Hierarchy, k: nat, klass: nat)
    requires ValidHierarchy(h) && k < |h| && AtOrBelow(h, k, klass)
    ensures forall s :: s in h[k].subKlasses ==> s < |h| && AtOrBelow(h, s, klass)
  {
    forall s | s in h[k].subKlasses ensures s < |h| && AtOrBelow(h, s, klass) {
      SubIsSmaller(h, k, s);
      ReachTrans(Subs(h), klass, k, s);
    }
  }

  lemma SubsKnown(h: Hierarchy, k: nat)
    requires ValidHierarchy(h) && k < |h|
    ensures forall i :: 0 <= i < |h[k].subKlasses| ==> h[k].subKlasses[i] < |h|
  {
  }

  lemma LessPending(h: Hierarchy, vec: seq<nat>, index: nat)
    requires ValidHierarchy(h) && index < |vec| && (forall i :: 0 <= i < |vec| ==> vec[i] < |h|)
    ensures forall i :: 0 <= i < |h[vec[index]].subKlasses| ==> h[vec[index]].subKlasses[i] < |h|
    ensures Pending(h, vec[index + 1..] + h[vec[index]].subKlasses) < Pending(h, vec[index..])
  {
    hide ValidHierarchy;
    SubsKnown(h, vec[index]);
    assert vec[index..][1..] == vec[index + 1..];
    PendingAppend(h, vec[index + 1..], vec[index], h[vec[index]].subKlasses);
  }

  lemma RecordsOneMore(h: Hierarchy, ks: seq<nat>, k: nat, sig: nat, callees: set<Method>)
    requires (forall i :: 0 <= i < |ks| ==> ks[i] < |h|) && k < |h| && RecordedIn(h, ks, sig, callees)
    ensures RecordedIn(h, ks + [k], sig,
      if FirstMethod(h[k].methods, sig).Some? then callees + {FirstMethod(h[k].methods, sig).value} else callees)
  {
    var all := ks + [k];
    forall m ensures (exists i :: 0 <= i < |all| && FirstMethod(h[all[i]].methods, sig) == Some(m))
        <==> (exists i :: 0 <= i < |ks| && FirstMethod(h[ks[i]].methods, sig) == Some(m))
             || FirstMethod(h[k].methods, sig) == Some(m)
    {
      if exists i :: 0 <= i < |ks| && FirstMethod(h[ks[i]].methods, sig) == Some(m) {
        var i :| 0 <= i < |ks| && FirstMethod(h[ks[i]].methods, sig) == Some(m);
        assert all[i] == ks[i];
      }
      assert all[|ks|] == k;
    }
  }

  lemma AllBelowFound(h: Hierarchy, klass: nat, vec: seq<nat>)
    requires Collected(h, klass, vec) && SubsCollected(h, vec, |vec|)
    ensures forall d: nat :: d in vec <==> AtOrBelow(h, d, klass)
  {
    var c := set d | d in vec;
    forall u, v | u in c && u < |Subs(h)| && v in Subs(h)[u] ensures v in c {
      var i :| 0 <= i < |vec| && vec[i] == u;
    }
    forall d: nat | AtOrBelow(h, d, klass) ensures d in vec {
      ClosedReach(Subs(h), c, klass, d);
    }
  }

  lemma RecordedBelow(h: Hierarchy, klass: nat, vec: seq<nat>, sig: nat, callees: set<Method>)
    requires (forall i :: 0 <= i < |vec| ==> vec[i] < |h|) && RecordedIn(h, vec, sig, callees)
    requires forall d: nat :: d in vec <==> AtOrBelow(h, d, klass)
    ensures forall m :: m in callees <==>
      exists d: nat :: d < |h| && AtOrBelow(h, d, klass) && FirstMethod(h[d].methods, sig) == Some(m)
  {
    hide AtOrBelow;
    forall m
      ensures m in callees <==>
        exists d: nat :: d < |h| && AtOrBelow(h, d, klass) && FirstMethod(h[d].methods, sig) == Some(m)
    {
      if exists d: nat :: d < |h| && AtOrBelow(h, d, klass) && FirstMethod(h[d].methods, sig) == Some(m) {
        var d: nat :| d < |h| && AtOrBelow(h, d, klass) && FirstMethod(h[d].methods, sig) == Some(m);
        var i :| 0 <= i < |vec| && vec[i] == d;
      }
      if m in callees {
        var i :| 0 <= i < |vec| && FirstMethod(h[vec[i]].methods, sig) == Some(m);
        assert vec[i] in vec;
      }
    }
  }

  // ---------------------------------------------------------------- the call

  /** The walk up the superclasses stops at the first class that has the method. */
  method NearestAbove(h: Hierarchy, klass: nat, sig: nat) returns (m: Option<Method>)
    requires ValidHierarchy(h) && klass < |h|
    ensures m == if h[klass].superKlass.Some? then Dispatch(h, h[klass].superKlass.value, sig) else None
  {
    m := None;
    var superKlass := h[klass].superKlass;
    ghost var at: nat := klass;
    SuperKnown(h, klass);
    while superKlass.Some?
      invariant m.None? && at < |h| && superKlass == h[at].superKlass && (superKlass.Some? ==> superKlass.value < |h|)
      invariant h[klass].superKlass.Some? ==> h[klass].superKlass.value < |h|
      invariant (if superKlass.Some? then Dispatch(h, superKlass.value, sig) else None)
             == (if h[klass].superKlass.Some? then Dispatch(h, h[klass].superKlass.value, sig) else None)
      decreases Above(h, at)
    {
      m := FirstMethod(h[superKlass.value].methods, sig);
      if m.Some? {
        return;
      }
      SubIsSmaller(h, superKlass.value, at);
      at := superKlass.value;
      SuperKnown(h, at);
      superKlass := h[superKlass.value].superKlass;
    }
  }

  /** The called method, the method of every class at or below the static one, and, where the
      static class has not got the called method itself, the nearest one above. */
  ghost predicate RecordedExactly(h: Hierarchy, klass: nat, calleefunc: Method, callees: set<Method>)
    requires ValidHierarchy(h) && klass < |h|
  {
    forall m: Method :: m in callees <==>
      (m == calleefunc
       || (exists d: nat :: d < |h| && AtOrBelow(h, d, klass) && FirstMethod(h[d].methods, calleefunc.sig) == Some(m))
       || (calleefunc !in h[klass].methods && h[klass].superKlass.Some?
           && Dispatch(h, h[klass].superKlass.value, calleefunc.sig) == Some(m)))
  }

  /** The set of recorded callees, exactly. */
  method VirtualCallees(h: Hierarchy, klass: Option<nat>, calleefunc: Method) returns (callees: set<Method>)
    requires ValidHierarchy(h) && (klass.Some? ==> klass.value < |h|)
    ensures klass.None? ==> callees == {calleefunc}
    ensures klass.Some? ==> RecordedExactly(h, klass.value, calleefunc, callees)
  {
    hide AtOrBelow, Dispatch, ValidHierarchy;
    callees := {calleefunc};
    if klass.None? {
      return;
    }
    var klassVector, found := Subclasses(h, klass.value, calleefunc.sig);
    callees := callees + found;
    SuperKnown(h, klass.value);
    if calleefunc !in h[klass.value].methods {
      var m := NearestAbove(h, klass.value, calleefunc.sig);
      if m.Some? {
        callees := callees + {m.value};
      }
    }
  }

  lemma SuperKnown(h: Hierarchy, k: nat)
    requires ValidHierarchy(h) && k < |h|
    ensures h[k].superKlass.Some? ==> h[k].superKlass.value < |h|
  {
  }

  ghost predicate FoundBelow(h: Hierarchy, klass: nat, sig: nat, m: Option<Method>) {
    exists e: nat :: e < |h| && AtOrBelow(h, e, klass) && FirstMethod(h[e].methods, sig) == m
  }

  /** A class below another reaches it by its chain of superclasses. */
  lemma {:induction false} DispatchStops(h: Hierarchy, d: nat, klass: nat, sig: nat)
    requires ValidHierarchy(h) && d < |h| && klass < |h| && AtOrBelow(h, d, klass) && Dispatch(h, d, sig).Some?
    ensures FoundBelow(h, klass, sig, Dispatch(h, d, sig))
      || (FirstMethod(h[klass].methods, sig).None? && h[klass].superKlass.Some?
          && Dispatch(h, h[klass].superKlass.value, sig) == Dispatch(h, d, sig))
    decreases Above(h, d)
  {
    if FirstMethod(h[d].methods, sig).None? && d != klass {
      var w := ReachLastEdge(Subs(h), klass, d);
      assert h[d].superKlass == Some(w) by {
        var i :| 0 <= i < |h[w].subKlasses| && h[w].subKlasses[i] == d;
      }
      SuperStillBelow(h, d, klass);
      SubIsSmaller(h, w, d);
      DispatchStops(h, w, klass, sig);
    }
  }

  /** A class has one superclass, so the path down to it goes through that. */
  lemma SuperStillBelow(h: Hierarchy, d: nat, klass: nat)
    requires ValidHierarchy(h) && d < |h| && klass < |h| && AtOrBelow(h, d, klass) && d != klass
    ensures h[d].superKlass.Some? && AtOrBelow(h, h[d].superKlass.value, klass)
  {
    var k: nat :| ReachIn(Subs(h), klass, d, k);
    PathThroughSuper(h, klass, d, k);
  }

  lemma {:induction false} PathThroughSuper(h: Hierarchy, u: nat, d: nat, k: nat)
    requires ValidHierarchy(h) && d < |h| && u < |h| && ReachIn(Subs(h), u, d, k) && d != u
    ensures h[d].superKlass.Some? && AtOrBelow(h, h[d].superKlass.value, u)
    decreases k
  {
    var g := Subs(h);
    var w :| w in g[u] && ReachIn(g, w, d, k - 1);
    var i :| 0 <= i < |h[u].subKlasses| && h[u].subKlasses[i] == w;
    if w == d {
      ReachRefl(g, u);
    } else {
      PathThroughSuper(h, w, d, k - 1);
      ReachStep(g, u, w, h[d].superKlass.value);
    }
  }

  /** Soundness: whatever the class of the receiver, at or below the static class, the method that
      runs is among the recorded callees. */
  lemma EveryTargetRecorded(h: Hierarchy, klass: nat, calleefunc: Method, d: nat, m: Method, callees: set<Method>)
    requires ValidHierarchy(h) && klass < |h| && d < |h| && AtOrBelow(h, d, klass)
    requires Dispatch(h, d, calleefunc.sig) == Some(m)
    requires RecordedExactly(h, klass, calleefunc, callees)
    ensures m in callees
  {
    hide AtOrBelow, Dispatch;
    DispatchStops(h, d, klass, calleefunc.sig);
  }

  /** `m` is what a call on some class at or below the static one runs. */
  ghost predicate IsTarget(h: Hierarchy, klass: nat, sig: nat, m: Method)
    requires ValidHierarchy(h)
  {
    exists d: nat :: d < |h| && AtOrBelow(h, d, klass) && Dispatch(h, d, sig) == Some(m)
  }

  /** All recorded callees are targets. */
  ghost predicate Precise(h: Hierarchy, klass: nat, sig: nat, callees: set<Method>)
    requires ValidHierarchy(h)
  {
    forall m :: m in callees ==> IsTarget(h, klass, sig, m)
  }

  /** Some class at or below the static one declares `m` first, or the static class has no method of
      that name and inherits `m`. */
  ghost predicate DeclaredOrInherited(h: Hierarchy, klass: nat, sig: nat, m: Method)
    requires ValidHierarchy(h) && klass < |h|
  {
    || FoundBelow(h, klass, sig, Some(m))
    || (FirstMethod(h[klass].methods, sig).None? && h[klass].superKlass.Some?
        && Dispatch(h, h[klass].superKlass.value, sig) == Some(m))
  }

  /** The superclasses are searched although the static class has a method of that name, and what
      is found there is declared by no class below. */
  ghost predicate FindsOverridden(h: Hierarchy, klass: nat, calleefunc: Method)
    requires ValidHierarchy(h) && klass < |h|
  {
    && calleefunc !in h[klass].methods && FirstMethod(h[klass].methods, calleefunc.sig).Some?
    && h[klass].superKlass.Some?
    && Dispatch(h, h[klass].superKlass.value, calleefunc.sig).Some?
    && !FoundBelow(h, klass, calleefunc.sig, Dispatch(h, h[klass].superKlass.value, calleefunc.sig))
  }

  lemma FirstIsTarget(h: Hierarchy, klass: nat, d: nat, sig: nat, m: Method)
    requires ValidHierarchy(h) && d < |h| && AtOrBelow(h, d, klass) && FirstMethod(h[d].methods, sig) == Some(m)
    ensures IsTarget(h, klass, sig, m)
  {
    assert Dispatch(h, d, sig) == Some(m);
  }

  lemma InheritedIsTarget(h: Hierarchy, klass: nat, sig: nat, m: Method)
    requires ValidHierarchy(h) && klass < |h| && FirstMethod(h[klass].methods, sig).None?
    requires h[klass].superKlass.Some? && h[klass].superKlass.value < |h|
    requires Dispatch(h, h[klass].superKlass.value, sig) == Some(m)
    ensures IsTarget(h, klass, sig, m)
  {
    StaticKlass(h, klass);
    assert Dispatch(h, klass, sig) == Some(m);
  }

  /** The targets, from the declarations. */
  lemma TargetExactly(h: Hierarchy, klass: nat, sig: nat, m: Method)
    requires ValidHierarchy(h) && klass < |h|
    ensures IsTarget(h, klass, sig, m) <==> DeclaredOrInherited(h, klass, sig, m)
  {
    hide AtOrBelow, Dispatch;
    SuperKnown(h, klass);
    if IsTarget(h, klass, sig, m) {
      var d: nat :| d < |h| && AtOrBelow(h, d, klass) && Dispatch(h, d, sig) == Some(m);
      DispatchStops(h, d, klass, sig);
    }
    if FoundBelow(h, klass, sig, Some(m)) {
      var e: nat :| e < |h| && AtOrBelow(h, e, klass) && FirstMethod(h[e].methods, sig) == Some(m);
      FirstIsTarget(h, klass, e, sig, m);
    } else if DeclaredOrInherited(h, klass, sig, m) {
      InheritedIsTarget(h, klass, sig, m);
    }
  }

  /** Precision, exactly: all recorded callees are targets if and only if the called method is
      declared at or below the static class or inherited by it, and no overridden method is found
      above. */
  lemma PreciseExactly(h: Hierarchy, klass: nat, calleefunc: Method, callees: set<Method>)
    requires ValidHierarchy(h) && klass < |h| && RecordedExactly(h, klass, calleefunc, callees)
    ensures Precise(h, klass, calleefunc.sig, callees) <==>
      (DeclaredOrInherited(h, klass, calleefunc.sig, calleefunc) && !FindsOverridden(h, klass, calleefunc))
  {
    hide AtOrBelow, Dispatch, IsTarget, DeclaredOrInherited;
    SuperKnown(h, klass);
    TargetExactly(h, klass, calleefunc.sig, calleefunc);
    if DeclaredOrInherited(h, klass, calleefunc.sig, calleefunc) && !FindsOverridden(h, klass, calleefunc) {
      forall m | m in callees ensures IsTarget(h, klass, calleefunc.sig, m) {
        if m != calleefunc {
          OnlyTargetsRecorded(h, klass, calleefunc, m, callees);
        }
      }
    }
    if FindsOverridden(h, klass, calleefunc) {
      OverriddenIsRecorded(h, klass, calleefunc, callees);
    }
  }

  lemma OverriddenIsRecorded(h: Hierarchy, klass: nat, calleefunc: Method, callees: set<Method>)
    requires ValidHierarchy(h) && klass < |h| && RecordedExactly(h, klass, calleefunc, callees)
    requires FindsOverridden(h, klass, calleefunc)
    ensures !Precise(h, klass, calleefunc.sig, callees)
  {
    hide AtOrBelow, Dispatch, IsTarget;
    SuperKnown(h, klass);
    var m := Dispatch(h, h[klass].superKlass.value, calleefunc.sig).value;
    TargetExactly(h, klass, calleefunc.sig, m);
    assert m in callees;
  }

  /** Any other recorded callee is a target unless an overridden method is found above. */
  lemma OnlyTargetsRecorded(h: Hierarchy, klass: nat, calleefunc: Method, m: Method, callees: set<Method>)
    requires ValidHierarchy(h) && klass < |h| && RecordedExactly(h, klass, calleefunc, callees)
    requires !FindsOverridden(h, klass, calleefunc)
    requires m in callees && m != calleefunc
    ensures IsTarget(h, klass, calleefunc.sig, m)
  {
    hide AtOrBelow, IsTarget, Dispatch;
    SuperKnown(h, klass);
    TargetExactly(h, klass, calleefunc.sig, m);
  }

  /** Each method belongs to one class. */
  ghost predicate MethodsApart(h: Hierarchy) {
    forall c: nat, d: nat, m: Method :: c < |h| && d < |h| && m in h[c].methods && m in h[d].methods ==> c == d
  }

  /** The class whose method runs. */
  lemma {:induction false} DispatchedFrom(h: Hierarchy, d: nat, sig: nat) returns (c: nat)
    requires ValidHierarchy(h) && d < |h| && Dispatch(h, d, sig).Some?
    ensures c < |h| && AtOrBelow(h, d, c) && FirstMethod(h[c].methods, sig) == Dispatch(h, d, sig)
    decreases Above(h, d)
  {
    StaticKlass(h, d);
    c := d;
    if FirstMethod(h[d].methods, sig).None? {
      var up := h[d].superKlass.value;
      SubIsSmaller(h, up, d);
      c := DispatchedFrom(h, up, sig);
      ReachTrans(Subs(h), c, up, d);
    }
  }

  /** Dispatch finds exactly what the nearest class upwards declares. */
  lemma {:induction false} DispatchIsNearest(h: Hierarchy, d: nat, sig: nat, m: Method)
    requires ValidHierarchy(h) && d < |h|
    ensures Dispatch(h, d, sig) == Some(m) <==> exists c: nat :: NearestDeclares(h, d, sig, c, m)
    decreases Above(h, d)
  {
    hide AtOrBelow, ValidHierarchy;
    StaticKlass(h, d);
    if FirstMethod(h[d].methods, sig).Some? {
      NearestIsOwn(h, d, sig, m);
    } else if h[d].superKlass.None? {
      forall c: nat ensures !NearestDeclares(h, d, sig, c, m) {
        if c < |h| && c != d && AtOrBelow(h, d, c) {
          SuperStillBelow(h, d, c);
        }
      }
    } else {
      SuperKnown(h, d);
      SuperLinked(h, d);
      var up := h[d].superKlass.value;
      SubIsSmaller(h, up, d);
      DispatchIsNearest(h, up, sig, m);
      forall c: nat ensures NearestDeclares(h, d, sig, c, m) <==> NearestDeclares(h, up, sig, c, m) {
        NearestThroughSuper(h, d, up, sig, c, m);
      }
    }
  }

  lemma SuperLinked(h: Hierarchy, d: nat)
    requires ValidHierarchy(h) && d < |h| && h[d].superKlass.Some?
    ensures h[d].superKlass.value < |h| && d in h[h[d].superKlass.value].subKlasses
  {
  }

  lemma NearestIsOwn(h: Hierarchy, d: nat, sig: nat, m: Method)
    requires ValidHierarchy(h) && d < |h| && FirstMethod(h[d].methods, sig).Some?
    ensures (exists c: nat :: NearestDeclares(h, d, sig, c, m)) <==> FirstMethod(h[d].methods, sig) == Some(m)
  {
    hide ValidHierarchy, AtOrBelow;
    StaticKlass(h, d);
    if FirstMethod(h[d].methods, sig) == Some(m) {
      forall b: nat | b < |h| && AtOrBelow(h, d, b) && AtOrBelow(h, b, d) ensures b == d {
        OnlyItself(h, d, b);
      }
      assert NearestDeclares(h, d, sig, d, m);
    }
  }

  /** Two classes that are below each other are one. */
  lemma OnlyItself(h: Hierarchy, d: nat, b: nat)
    requires ValidHierarchy(h) && d < |h| && b < |h| && AtOrBelow(h, d, b) && AtOrBelow(h, b, d)
    ensures b == d
  {
    if b != d {
      ReachSplit(Subs(h), b, d);
      var w :| w in Subs(h)[b] && Reach(Subs(h), w, d);
      ReachTrans(Subs(h), w, d, b);
      ComesBack(Subs(h), b, w);
    }
  }

  lemma NearestThroughSuper(h: Hierarchy, d: nat, up: nat, sig: nat, c: nat, m: Method)
    requires ValidHierarchy(h) && d < |h| && up < |h| && h[d].superKlass == Some(up) && AtOrBelow(h, d, up)
    requires FirstMethod(h[d].methods, sig).None?
    ensures NearestDeclares(h, d, sig, c, m) <==> NearestDeclares(h, up, sig, c, m)
  {
    hide ValidHierarchy;
    var g := Subs(h);
    if c < |h| && c != d && AtOrBelow(h, d, c) {
      SuperStillBelow(h, d, c);
    }
    forall b: nat | b < |h| && AtOrBelow(h, up, b) ensures AtOrBelow(h, d, b) {
      ReachTrans(g, b, up, d);
    }
    forall b: nat | b < |h| && b != d && AtOrBelow(h, d, b) ensures AtOrBelow(h, up, b) {
      SuperStillBelow(h, d, b);
    }
  }

  /** Where each method belongs to one class, precision fails above exactly by overriding: the
      static class has another method of that name and a superclass has one too. */
  lemma OverriddenExactly(h: Hierarchy, klass: nat, calleefunc: Method)
    requires ValidHierarchy(h) && klass < |h| && MethodsApart(h)
    ensures FindsOverridden(h, klass, calleefunc) <==>
      (calleefunc !in h[klass].methods && FirstMethod(h[klass].methods, calleefunc.sig).Some?
       && h[klass].superKlass.Some? && Dispatch(h, h[klass].superKlass.value, calleefunc.sig).Some?)
  {
    hide AtOrBelow, Dispatch;
    SuperKnown(h, klass);
    if calleefunc !in h[klass].methods && FirstMethod(h[klass].methods, calleefunc.sig).Some?
       && h[klass].superKlass.Some? && Dispatch(h, h[klass].superKlass.value, calleefunc.sig).Some? {
      OverriddenIsNoTarget(h, klass, calleefunc.sig);
      TargetExactly(h, klass, calleefunc.sig, Dispatch(h, h[klass].superKlass.value, calleefunc.sig).value);
    }
  }

  lemma OverriddenIsNoTarget(h: Hierarchy, klass: nat, sig: nat)
    requires ValidHierarchy(h) && klass < |h| && MethodsApart(h) && FirstMethod(h[klass].methods, sig).Some?
    requires h[klass].superKlass.Some? && h[klass].superKlass.value < |h|
    requires Dispatch(h, h[klass].superKlass.value, sig).Some?
    ensures !IsTarget(h, klass, sig, Dispatch(h, h[klass].superKlass.value, sig).value)
  {
    hide AtOrBelow, Dispatch;
    var up := h[klass].superKlass.value;
    var m := Dispatch(h, up, sig).value;
    if IsTarget(h, klass, sig, m) {
      var d: nat :| d < |h| && AtOrBelow(h, d, klass) && Dispatch(h, d, sig) == Some(m);
      var c := DispatchedFrom(h, up, sig);
      DispatchStops(h, d, klass, sig);
      var e: nat :| e < |h| && AtOrBelow(h, e, klass) && FirstMethod(h[e].methods, sig) == Some(m);
      assert c == e;
      NotAboveItself(h, klass, c);
    }
  }

  /** No class is both at or below `klass` and at or above its superclass. */
  lemma NotAboveItself(h: Hierarchy, klass: nat, c: nat)
    requires ValidHierarchy(h) && klass < |h| && c < |h| && AtOrBelow(h, c, klass)
    requires h[klass].superKlass.Some? && h[klass].superKlass.value < |h|
    ensures !AtOrBelow(h, h[klass].superKlass.value, c)
  {
    var up := h[klass].superKlass.value;
    if AtOrBelow(h, up, c) {
      ReachTrans(Subs(h), klass, c, up);
      NoWayBack(h, up, klass);
    }
  }

  // ---------------------------------------------------------------- precision, from the declarations

  /** No class has two methods of one name. */
  ghost predicate NamesApart(h: Hierarchy) {
    forall c: nat, m: Method, n: Method ::
      c < |h| && m in h[c].methods && n in h[c].methods && m.sig == n.sig ==> m == n
  }

  lemma TargetIsDeclared(h: Hierarchy, klass: nat, sig: nat, m: Method)
    requires ValidHierarchy(h)
    ensures IsTarget(h, klass, sig, m) ==> exists c: nat :: c < |h| && m in h[c].methods
  {
    hide AtOrBelow, Dispatch;
    if IsTarget(h, klass, sig, m) {
      var d: nat :| d < |h| && AtOrBelow(h, d, klass) && Dispatch(h, d, sig) == Some(m);
      var c := DispatchedFrom(h, d, sig);
    }
  }

  /** Where no class has two methods of one name and no other class has the called method, all
      recorded callees are targets if and only if the static class declares the called method. */
  lemma PreciseIffDeclared(h: Hierarchy, klass: nat, calleefunc: Method, callees: set<Method>)
    requires ValidHierarchy(h) && klass < |h| && RecordedExactly(h, klass, calleefunc, callees)
    requires NamesApart(h) && forall c: nat :: c < |h| && c != klass ==> calleefunc !in h[c].methods
    ensures Precise(h, klass, calleefunc.sig, callees) <==> calleefunc in h[klass].methods
  {
    hide AtOrBelow, Dispatch, RecordedExactly;
    var sig := calleefunc.sig;
    PreciseExactly(h, klass, calleefunc, callees);
    TargetExactly(h, klass, sig, calleefunc);
    if calleefunc in h[klass].methods {
      StaticKlass(h, klass);
      FirstIsTarget(h, klass, klass, sig, calleefunc);
    } else {
      TargetIsDeclared(h, klass, sig, calleefunc);
    }
  }

  // ---------------------------------------------------------------- an imprecise call

  /** Class 1 extends class 0 and inherits its only method. */
  const INHERITING: Hierarchy := [Klass([Method(0, 7)], None, [1]), Klass([], Some(0), [])]

  /** The inherited method, named through class 1. */
  const THROUGH_SUBCLASS: Method := Method(9, 7)

  lemma InheritingIsValid()
    ensures ValidHierarchy(INHERITING)
  {
    var h := INHERITING;
    assert h[0].subKlasses[0] == 1;
    assert Linked(h);
    assert Subs(h)[1] == {};
    forall v: nat ensures Reach(Subs(h), 1, v) ==> v == 1 {
      if Reach(Subs(h), 1, v) {
        ClosedReach(Subs(h), {1}, 1, v);
      }
    }
  }

  /** The call names its method through the class that inherits it: what it names is recorded and
      is no target. */
  lemma NamedThroughSubclass()
    ensures ValidHierarchy(INHERITING)
    ensures RecordedExactly(INHERITING, 1, THROUGH_SUBCLASS, {THROUGH_SUBCLASS, Method(0, 7)})
    ensures !IsTarget(INHERITING, 1, THROUGH_SUBCLASS.sig, THROUGH_SUBCLASS)
  {
    hide AtOrBelow;
    var h := INHERITING;
    InheritingIsValid();
    assert Dispatch(h, 0, 7) == Some(Method(0, 7));
    forall d: nat | d < |h| && AtOrBelow(h, d, 1) ensures FirstMethod(h[d].methods, 7).None? {
      if d == 0 {
        NotAboveItself(h, 1, 0);
        StaticKlass(h, 0);
      }
    }
    TargetIsDeclared(h, 1, 7, THROUGH_SUBCLASS);
  }
}
