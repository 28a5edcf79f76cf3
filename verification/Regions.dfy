/** Growing regions over the call graph: mapleall/maple_ipa/src/formregions.cpp and
    mapleall/maple_ipa/include/formregions.h. */
module Regions {
  import opened Options
  import opened Sequences

  // ---------------------------------------------------------------- the call graph, which is only read

  /** Neighbours are given by their puIdx, in the order in which they are visited; `scc` is empty
      where the node has no SCC. */
  datatype Node = Node(hasBody: bool, stmtCount: nat, scc: seq<nat>, callers: seq<nat>, callees: seq<nat>)

  datatype Graph = Graph(nodes: seq<Option<Node>>, entry: Option<nat>, roots: seq<nat>)

  predicate Exists(g: Graph, p: nat) {
    p < |g.nodes| && g.nodes[p].Some?
  }

  predicate AllExist(g: Graph, ps: seq<nat>) {
    forall i :: 0 <= i < |ps| ==> Exists(g, ps[i])
  }

  function Neighbours(g: Graph, p: nat): seq<nat>
    requires Exists(g, p)
  {
    g.nodes[p].value.scc + g.nodes[p].value.callers + g.nodes[p].value.callees
  }

  ghost predicate WellFormed(g: Graph) {
    && (g.entry.Some? ==> Exists(g, g.entry.value))
    && AllExist(g, g.roots)
    && (forall p: nat :: Exists(g, p) ==> AllExist(g, Neighbours(g, p)))
  }

  // ---------------------------------------------------------------- regions as values

  datatype RegionState = RegionState(regid: nat, members: seq<nat>, count: nat)

  function Statements(g: Graph, ps: seq<nat>): nat
    requires AllExist(g, ps)
  {
    if ps == [] then 0
    else
      assert Exists(g, ps[|ps| - 1]);
      Statements(g, ps[..|ps| - 1]) + g.nodes[ps[|ps| - 1]].value.stmtCount
  }

  predicate HasBody(g: Graph, p: nat) {
    Exists(g, p) && g.nodes[p].value.hasBody
  }

  /** Functions with a body that are in no region yet. */
  function Free(g: Graph, regionOf: seq<nat>): set<nat>
    requires |regionOf| == |g.nodes|
  {
    set p: nat | p < |g.nodes| && HasBody(g, p) && regionOf[p] == 0
  }

  /** One region: its members have bodies and are assigned to it, its count is theirs, and only a
      lone member may reach the limit. */
  ghost predicate GoodRegion(g: Graph, limit: nat, regionOf: seq<nat>, r: RegionState) {
    && |regionOf| == |g.nodes| && r.regid > 0 && r.members != []
    && AllExist(g, r.members)
    && (forall i :: 0 <= i < |r.members| ==> HasBody(g, r.members[i]) && regionOf[r.members[i]] == r.regid)
    && Distinct(r.members)
    && r.count == Statements(g, r.members)
    && (|r.members| >= 2 ==> r.count < limit)
  }

  /** The regions are numbered from 1, every assigned function is a member of its region. */
  ghost predicate Good(g: Graph, limit: nat, regionOf: seq<nat>, all: seq<RegionState>) {
    && |regionOf| == |g.nodes|
    && (forall i :: 0 <= i < |all| ==> all[i].regid == i + 1 && GoodRegion(g, limit, regionOf, all[i]))
    && (forall p: nat :: p < |regionOf| && regionOf[p] != 0 ==>
      regionOf[p] <= |all| && p in all[regionOf[p] - 1].members)
  }

  function WithMember(g: Graph, r: RegionState, p: nat): RegionState
    requires Exists(g, p)
  {
    RegionState(r.regid, r.members + [p], r.count + g.nodes[p].value.stmtCount)
  }

  lemma StatementsOneMore(g: Graph, ps: seq<nat>, p: nat)
    requires AllExist(g, ps) && Exists(g, p)
    ensures AllExist(g, ps + [p]) && Statements(g, ps + [p]) == Statements(g, ps) + g.nodes[p].value.stmtCount
  {
    assert (ps + [p])[..|ps|] == ps;
  }

  /** A region that takes one more function stays good, and the others are not touched. */
  lemma TakeKeepsRegion(g: Graph, limit: nat, regionOf: seq<nat>, r: RegionState, p: nat)
    requires |regionOf| == |g.nodes| && HasBody(g, p) && regionOf[p] == 0 && r.regid > 0
    requires (r.members == [] && r.count == 0)
      || (GoodRegion(g, limit, regionOf, r) && r.count + g.nodes[p].value.stmtCount < limit)
    ensures GoodRegion(g, limit, regionOf[p := r.regid], WithMember(g, r, p))
  {
    StatementsOneMore(g, r.members, p);
  }

  lemma TakeKeepsOther(g: Graph, limit: nat, regionOf: seq<nat>, r: RegionState, p: nat, id: nat)
    requires GoodRegion(g, limit, regionOf, r) && HasBody(g, p) && regionOf[p] == 0
    ensures GoodRegion(g, limit, regionOf[p := id], r)
  {
    hide Statements;
  }

  lemma TakeKeepsAll(g: Graph, limit: nat, regionOf: seq<nat>, all: seq<RegionState>, r: RegionState, p: nat)
    requires Good(g, limit, regionOf, all + [r])
      || (Good(g, limit, regionOf, all) && r == RegionState(|all| + 1, [], 0))
    requires HasBody(g, p) && regionOf[p] == 0
    requires r.members == [] || r.count + g.nodes[p].value.stmtCount < limit
    ensures Good(g, limit, regionOf[p := |all| + 1], all + [WithMember(g, r, p)])
    ensures Free(g, regionOf[p := |all| + 1]) == Free(g, regionOf) - {p} && p in Free(g, regionOf)
  {
    hide GoodRegion, Statements;
    var after, now := regionOf[p := |all| + 1], all + [WithMember(g, r, p)];
    LastIsGood(g, limit, regionOf, all, r);
    TakeKeepsRegion(g, limit, regionOf, r, p);
    forall i | 0 <= i < |all| ensures now[i].regid == i + 1 && GoodRegion(g, limit, after, now[i]) {
      assert all[i] == (all + [r])[i];
      TakeKeepsOther(g, limit, regionOf, all[i], p, |all| + 1);
    }
    forall k: nat | k < |after| && after[k] != 0 ensures after[k] <= |now| && k in now[after[k] - 1].members {
      if k != p {
        MemberOfLast(g, limit, regionOf, all, r, k);
      }
    }
  }

  lemma LastIsGood(g: Graph, limit: nat, regionOf: seq<nat>, all: seq<RegionState>, r: RegionState)
    requires Good(g, limit, regionOf, all + [r])
      || (Good(g, limit, regionOf, all) && r == RegionState(|all| + 1, [], 0))
    ensures r.regid == |all| + 1 && (r.members == [] ==> r.count == 0)
    ensures r.members == [] || GoodRegion(g, limit, regionOf, r)
  {
    if Good(g, limit, regionOf, all + [r]) {
      assert (all + [r])[|all|] == r;
    }
  }

  lemma MemberOfLast(g: Graph, limit: nat, regionOf: seq<nat>, all: seq<RegionState>, r: RegionState, k: nat)
    requires Good(g, limit, regionOf, all + [r])
      || (Good(g, limit, regionOf, all) && r == RegionState(|all| + 1, [], 0))
    requires k < |regionOf| && regionOf[k] != 0
    ensures regionOf[k] <= |all| + 1 && k in (all + [r])[regionOf[k] - 1].members
  {
  }

  // ---------------------------------------------------------------- growing one region

  /** `q` has its region, this or an earlier one, or there was no room for it. */
  ghost predicate Settled(g: Graph, limit: nat, regionOf: seq<nat>, r: RegionState, q: nat)
    requires |regionOf| == |g.nodes|
  {
    HasBody(g, q) ==> 0 < regionOf[q] <= r.regid || r.count + g.nodes[q].value.stmtCount >= limit
  }

  ghost predicate AllSettled(g: Graph, limit: nat, regionOf: seq<nat>, r: RegionState, qs: seq<nat>)
    requires |regionOf| == |g.nodes|
  {
    forall i :: 0 <= i < |qs| ==> Settled(g, limit, regionOf, r, qs[i])
  }

  /** The neighbours of the first `n` members have been looked at. */
  ghost predicate Explored(g: Graph, limit: nat, regionOf: seq<nat>, r: RegionState, n: nat)
    requires |regionOf| == |g.nodes| && WellFormed(g) && AllExist(g, r.members)
  {
    forall i :: 0 <= i < n && i < |r.members| ==> AllSettled(g, limit, regionOf, r, Neighbours(g, r.members[i]))
  }

  /** From `r` to `r'` members were appended, each taken from the free functions. */
  ghost predicate Grown(g: Graph, regionOf: seq<nat>, r: RegionState, regionOf': seq<nat>, r': RegionState)
    requires |regionOf| == |g.nodes| == |regionOf'|
  {
    && r'.regid == r.regid && r.count <= r'.count && r.members <= r'.members
    && |Free(g, regionOf')| + |r'.members| == |Free(g, regionOf)| + |r.members|
    && (forall q: nat :: q < |regionOf| && regionOf[q] != 0 ==> regionOf'[q] == regionOf[q])
  }

  // ---------------------------------------------------------------- the order of growing

  /** Assignments and the region that is being formed. */
  datatype Growth = Growth(regionOf: seq<nat>, r: RegionState)

  predicate Fits(g: Graph, limit: nat, s: Growth, q: nat) {
    q < |s.regionOf| && HasBody(g, q) && s.regionOf[q] == 0 && s.r.count + g.nodes[q].value.stmtCount < limit
  }

  /** The functions `qs`, one after the other, are taken where they fit. */
  ghost function TakeAll(g: Graph, limit: nat, s: Growth, qs: seq<nat>): (r: Growth)
    ensures |r.regionOf| == |s.regionOf|
  {
    if qs == [] then s
    else
      var t, q := TakeAll(g, limit, s, qs[..|qs| - 1]), qs[|qs| - 1];
      if Fits(g, limit, t, q) then Growth(t.regionOf[q := t.r.regid], WithMember(g, t.r, q)) else t
  }

  /** After the neighbours of the first `n` members, among them those added on the way. */
  ghost function Explore(g: Graph, limit: nat, s: Growth, n: nat): Growth {
    if n == 0 then s
    else
      var t := Explore(g, limit, s, n - 1);
      if n <= |t.r.members| && Exists(g, t.r.members[n - 1])
      then TakeAll(g, limit, t, Neighbours(g, t.r.members[n - 1])) else t
  }

  lemma {:induction false} TakeAllConcat(g: Graph, limit: nat, s: Growth, a: seq<nat>, b: seq<nat>)
    ensures TakeAll(g, limit, s, a + b) == TakeAll(g, limit, TakeAll(g, limit, s, a), b)
  {
    hide Fits;
    if b == [] {
      assert a + b == a;
    } else {
      var n := |b| - 1;
      TakeAllConcat(g, limit, s, a, b[..n]);
      assert (a + b)[..|a + b| - 1] == a + b[..n];
    }
  }

  /** In the order SCC, callers, callees: a neighbour is taken exactly if it has a body, is in no
      region and there is room for it behind all that were taken before. */
  lemma TakenInOrder(g: Graph, limit: nat, s: Growth, p: nat, j: nat)
    requires Exists(g, p) && |s.regionOf| == |g.nodes|
    requires var n := g.nodes[p].value; j < |n.scc + n.callers + n.callees|
    ensures var n := g.nodes[p].value;
      var qs := n.scc + n.callers + n.callees;
      var t, t' := TakeAll(g, limit, s, qs[..j]), TakeAll(g, limit, s, qs[..j + 1]);
      && TakeAll(g, limit, s, Neighbours(g, p)) == TakeAll(g, limit, s, qs)
      && t'.r.members == t.r.members +
           (if HasBody(g, qs[j]) && t.regionOf[qs[j]] == 0 && t.r.count + g.nodes[qs[j]].value.stmtCount < limit
            then [qs[j]] else [])
  {
    var n := g.nodes[p].value;
    var qs := n.scc + n.callers + n.callees;
    assert qs[..j + 1][..j] == qs[..j];
  }

  // ---------------------------------------------------------------- what growing keeps

  lemma SettledStays(g: Graph, limit: nat, regionOf: seq<nat>, r: RegionState, regionOf': seq<nat>, r': RegionState,
                     qs: seq<nat>)
    requires |regionOf| == |g.nodes| == |regionOf'|
    requires Grown(g, regionOf, r, regionOf', r') && AllSettled(g, limit, regionOf, r, qs)
    ensures AllSettled(g, limit, regionOf', r', qs)
  {
    forall i | 0 <= i < |qs| ensures Settled(g, limit, regionOf', r', qs[i]) {
      assert Settled(g, limit, regionOf, r, qs[i]);
    }
  }

  lemma ExploredStays(g: Graph, limit: nat, regionOf: seq<nat>, r: RegionState, regionOf': seq<nat>, r': RegionState,
                      n: nat)
    requires |regionOf| == |g.nodes| == |regionOf'| && WellFormed(g) && AllExist(g, r.members)
    requires AllExist(g, r'.members)
    requires Grown(g, regionOf, r, regionOf', r') && Explored(g, limit, regionOf, r, n) && n <= |r.members|
    ensures Explored(g, limit, regionOf', r', n)
  {
    hide WellFormed, AllSettled, Neighbours;
    forall i | 0 <= i < n && i < |r'.members|
      ensures AllSettled(g, limit, regionOf', r', Neighbours(g, r'.members[i]))
    {
      assert r'.members[i] == r.members[i];
      SettledStays(g, limit, regionOf, r, regionOf', r', Neighbours(g, r.members[i]));
    }
  }

  class Region {
    const regid: nat
    var funcmembers: seq<nat>
    var regstmtcount: nat

    constructor (id: nat)
      ensures regid == id && funcmembers == [] && regstmtcount == 0
    {
      regid := id;
      funcmembers := [];
      regstmtcount := 0;
    }

    function Now(): RegionState
      reads this
    {
      RegionState(regid, funcmembers, regstmtcount)
    }

    predicate HasRoom(node: Node, regionLimit: nat)
      reads this
    {
      regstmtcount + node.stmtCount < regionLimit
    }
  }

  class FormRegions {
    const g: Graph
    const regionLimit: nat
    var regionOf: seq<nat>         // assigned_region: 0 where there is none
    var theregions: seq<Region>
    var regidNext: nat

    constructor (callgraph: Graph, limit: nat)
      ensures g == callgraph && regionLimit == limit
      ensures regionOf == seq(|callgraph.nodes|, _ => 0) && theregions == [] && regidNext == 1
      ensures WellFormed(callgraph) ==> Valid()
    {
      g := callgraph;
      regionLimit := limit;
      regionOf := seq(|callgraph.nodes|, _ => 0);
      theregions := [];
      regidNext := 1;
    }

    ghost predicate Forming(reg: Region, older: seq<RegionState>)
      reads this`regionOf, reg
    {
      BeingFormed(g, regionLimit, regionOf, reg.Now(), older)
    }

    method AddFuncToRegion(p: nat, reg: Region)
      requires p < |regionOf| && Exists(g, p)
      modifies this`regionOf, reg
      ensures regionOf == old(regionOf)[p := reg.regid] && reg.Now() == WithMember(g, old(reg.Now()), p)
    {
      reg.funcmembers := reg.funcmembers + [p];
      reg.regstmtcount := reg.regstmtcount + g.nodes[p].value.stmtCount;
      regionOf := regionOf[p := reg.regid];
    }

    /** One of the three loops of AddNeighborsInCallGraph. */
    method AddAll(qs: seq<nat>, reg: Region, ghost older: seq<RegionState>)
      requires Forming(reg, older) && AllExist(g, qs)
      modifies this`regionOf, reg
      ensures Forming(reg, older) && |old(regionOf)| == |regionOf| == |g.nodes|
      ensures Grown(g, old(regionOf), old(reg.Now()), regionOf, reg.Now())
      ensures AllSettled(g, regionLimit, regionOf, reg.Now(), qs)
      ensures Growth(regionOf, reg.Now()) == TakeAll(g, regionLimit, old(Growth(regionOf, reg.Now())), qs)
    {
      hide BeingFormed, Grown, AllSettled;
      Lengths(g, regionLimit, regionOf, reg.Now(), older);
      ghost var ro, r := regionOf, reg.Now();
      NothingYet(g, regionLimit, ro, r);
      var i := 0;
      while i < |qs|
        invariant 0 <= i <= |qs| && Forming(reg, older) && |regionOf| == |g.nodes|
        invariant Grown(g, ro, r, regionOf, reg.Now()) && AllSettled(g, regionLimit, regionOf, reg.Now(), qs[..i])
        invariant Growth(regionOf, reg.Now()) == TakeAll(g, regionLimit, Growth(ro, r), qs[..i])
      {
        assert Exists(g, qs[i]) && qs[..i + 1] == qs[..i] + [qs[i]] && qs[..i + 1][..i] == qs[..i];
        if HasBody(g, qs[i]) && regionOf[qs[i]] == 0 && reg.HasRoom(g.nodes[qs[i]].value, regionLimit) {
          Takes(g, regionLimit, ro, r, regionOf, reg.Now(), older, qs[..i], qs[i]);
          AddFuncToRegion(qs[i], reg);
        } else {
          PassesBy(g, regionLimit, regionOf, reg.Now(), older, qs[..i], qs[i]);
        }
        i := i + 1;
      }
      assert qs[..|qs|] == qs;
    }

    method AddNeighborsInCallGraph(p: nat, ghost older: seq<RegionState>)
      requires theregions != [] && Forming(theregions[|theregions| - 1], older) && Exists(g, p)
      modifies this`regionOf, theregions[|theregions| - 1]
      ensures var reg := theregions[|theregions| - 1];
        && Forming(reg, older) && |old(regionOf)| == |regionOf| == |g.nodes|
        && Grown(g, old(regionOf), old(reg.Now()), regionOf, reg.Now())
        && AllSettled(g, regionLimit, regionOf, reg.Now(), Neighbours(g, p))
        && Growth(regionOf, reg.Now()) ==
             TakeAll(g, regionLimit, old(Growth(regionOf, reg.Now())), Neighbours(g, p))
    {
      hide BeingFormed, Grown, AllSettled, Neighbours;
      var region := theregions[|theregions| - 1];
      Lengths(g, regionLimit, regionOf, region.Now(), older);
      var node := g.nodes[p].value;
      NeighboursExist(g, p);
      ghost var ro0, r0 := regionOf, region.Now();
      AddAll(node.scc, region, older);
      ghost var ro1, r1 := regionOf, region.Now();
      AddAll(node.callers, region, older);
      ghost var ro2, r2 := regionOf, region.Now();
      AddAll(node.callees, region, older);
      GrownTwice(g, ro1, r1, ro2, r2, regionOf, region.Now());
      GrownTwice(g, ro0, r0, ro1, r1, regionOf, region.Now());
      SettledStays(g, regionLimit, ro1, r1, regionOf, region.Now(), node.scc);
      SettledStays(g, regionLimit, ro2, r2, regionOf, region.Now(), node.callers);
      NeighboursSettled(g, regionLimit, regionOf, region.Now(), p);
      NeighboursTaken(g, regionLimit, Growth(ro0, r0), p);
    }

    /** The do-while loop of FormOneRegion: every member's neighbours are looked at, those of the
        members that are added on the way as well. */
    method GrowRegion(ghost older: seq<RegionState>)
      requires theregions != [] && Forming(theregions[|theregions| - 1], older)
      modifies this`regionOf, theregions[|theregions| - 1]
      ensures var reg := theregions[|theregions| - 1];
        && Forming(reg, older) && |old(regionOf)| == |regionOf| == |g.nodes|
        && WellFormed(g) && AllExist(g, reg.funcmembers)
        && Grown(g, old(regionOf), old(reg.Now()), regionOf, reg.Now())
        && Explored(g, regionLimit, regionOf, reg.Now(), |reg.funcmembers|)
        && Growth(regionOf, reg.Now()) ==
             Explore(g, regionLimit, old(Growth(regionOf, reg.Now())), |reg.funcmembers|)
    {
      hide BeingFormed, Grown, Explored, AllExist, WellFormed, AllSettled;
      var region := theregions[|theregions| - 1];
      Lengths(g, regionLimit, regionOf, region.Now(), older);
      ghost var ro, r := regionOf, region.Now();
      NothingYet(g, regionLimit, ro, r);
      NothingExplored(g, regionLimit, ro, r);
      var i := 0;
      var more := true;
      while more
        invariant 0 <= i <= |region.funcmembers| && Forming(region, older)
        invariant |regionOf| == |g.nodes| && WellFormed(g) && AllExist(g, region.funcmembers)
        invariant Grown(g, ro, r, regionOf, region.Now())
        invariant Explored(g, regionLimit, regionOf, region.Now(), i)
        invariant Growth(regionOf, region.Now()) == Explore(g, regionLimit, Growth(ro, r), i)
        invariant more == (i < |region.funcmembers|)
        decreases |Free(g, regionOf)| + |region.funcmembers| - i
      {
        ghost var ro1, r1 := regionOf, region.Now();
        MemberExists(g, region.funcmembers, i);
        AddNeighborsInCallGraph(region.funcmembers[i], older);
        Lengths(g, regionLimit, regionOf, region.Now(), older);
        GrownFacts(g, ro1, r1, regionOf, region.Now());
        GrownTwice(g, ro, r, ro1, r1, regionOf, region.Now());
        ExploredStays(g, regionLimit, ro1, r1, regionOf, region.Now(), i);
        OneMoreExplored(g, regionLimit, regionOf, region.Now(), i);
        i := i + 1;
        more := i < |region.funcmembers|;
      }
    }

    /** What holds between two calls of FormOneRegion. */
    ghost predicate Valid()
      reads this, theregions
    {
      && WellFormed(g) && regidNext == |theregions| + 1
      && Distinct(theregions)
      && Formed(g, regionLimit, regionOf, States(theregions))
    }

    /** The first loop to look through the roots, the second through all nodes. */
    method FindFree(ps: seq<nat>) returns (p: Option<nat>)
      requires |regionOf| == |g.nodes|
      ensures p == FirstOf(g, regionOf, ps)
    {
      var i := 0;
      while i < |ps|
        invariant 0 <= i <= |ps| && FirstOf(g, regionOf, ps) == FirstOf(g, regionOf, ps[i..])
      {
        if HasBody(g, ps[i]) && regionOf[ps[i]] == 0 {
          return Some(ps[i]);
        }
        assert ps[i..][1..] == ps[i + 1..];
        i := i + 1;
      }
      return None;
    }

    method ChooseFirst() returns (firstmem: Option<nat>)
      requires |regionOf| == |g.nodes|
      ensures firstmem == FirstFree(g, regionOf)
    {
      firstmem := None;
      if g.entry.Some? && HasBody(g, g.entry.value) && regionOf[g.entry.value] == 0 {
        firstmem := g.entry;
      }
      if firstmem.None? {
        firstmem := FindFree(g.roots);
      }
      if firstmem.None? {
        firstmem := FindFree(Indices(|g.nodes|));
      }
    }

    /** Returns false exactly when every function with a body has a region.  Otherwise one region
        is added: it starts with the entry, the first free root or the first free node, and grows
        until none of its members' neighbours is both free and small enough. */
    method FormOneRegion() returns (formed: bool)
      requires Valid()
      modifies this`regionOf, this`theregions, this`regidNext
      ensures Valid() && |old(regionOf)| == |regionOf| == |g.nodes|
      ensures formed <==> Free(g, old(regionOf)) != {}
      ensures !formed ==> regionOf == old(regionOf) && theregions == old(theregions)
      ensures formed ==> Free(g, regionOf) < Free(g, old(regionOf))
      ensures formed ==> |theregions| == old(|theregions|) + 1 && theregions[..|theregions| - 1] == old(theregions)
      ensures formed ==> fresh(theregions[|theregions| - 1]) && States(old(theregions)) == old(States(theregions))
      ensures formed ==> theregions[|theregions| - 1].funcmembers != []
      ensures formed ==>
        var reg := theregions[|theregions| - 1];
        && FirstByPriority(g, Free(g, old(regionOf)), reg.funcmembers[0])
        && NothingFits(g, regionLimit, Free(g, regionOf), reg.Now())
        && Exists(g, reg.funcmembers[0]) && reg.funcmembers[0] < |old(regionOf)|
        && Growth(regionOf, reg.Now()) == Explore(g, regionLimit,
             Growth(old(regionOf)[reg.funcmembers[0] := old(|theregions|) + 1],
                    RegionState(old(|theregions|) + 1, reg.funcmembers[..1],
                                g.nodes[reg.funcmembers[0]].value.stmtCount)),
             |reg.funcmembers|)
    {
      hide Formed, AllExist, WellFormed, BeingFormed, Explored, Grown, HasBody, Free, FirstFree, WithMember, States;
      hide Distinct, FirstByPriority, NothingFits, TakeAll, Explore;
      FormedLengths(g, regionLimit, regionOf, States(theregions));
      ghost var older, ro, olds := States(theregions), regionOf, theregions;
      FirstFreeExactly(g, regionOf);
      var firstmem := ChooseFirst();
      if firstmem.None? {
        return false;
      }
      var region := new Region(regidNext);
      regidNext := regidNext + 1;
      theregions := theregions + [region];
      FirstMember(g, regionLimit, ro, older, firstmem.value);
      AddFuncToRegion(firstmem.value, region);
      GrowRegion(older);
      RegionDone(g, regionLimit, ro, older, firstmem.value, regionOf, region.Now());
      ExploredFits(g, regionLimit, regionOf, region.Now());
      StartOfRegion(g, older, firstmem.value, region.funcmembers);
      assert theregions[..|theregions| - 1] == olds;
      assert States(olds) == older;
      StatesLast(olds, region);
      return true;
    }

    /** The loop over the members of one region. */
    method CopyMembers(firstreg: Region, ps: seq<nat>, filled: nat)
      requires filled + |ps| <= |firstreg.funcmembers|
      modifies firstreg`funcmembers
      ensures firstreg.funcmembers
           == old(firstreg.funcmembers[..filled]) + ps + old(firstreg.funcmembers[filled + |ps|..])
    {
      ghost var was := firstreg.funcmembers;
      var i := 0;
      while i < |ps|
        invariant 0 <= i <= |ps|
        invariant firstreg.funcmembers == was[..filled] + ps[..i] + was[filled + i..]
      {
        firstreg.funcmembers := firstreg.funcmembers[filled + i := ps[i]];
        i := i + 1;
      }
      assert ps[..i] == ps;
    }

    /** The members of the regions, from the last to the second, are put behind those of the first. */
    method MergeAllRegionsToOne(totalFunctions: nat)
      requires |theregions| > 1 && Distinct(theregions) && totalFunctions == Size(States(theregions))
      modifies this`theregions, theregions[0]
      ensures theregions == [old(theregions[0])]
      ensures theregions[0].Now() == Merged(old(States(theregions)))
    {
      hide Merging, Merged, Size, States;
      ghost var rs, ss := theregions, States(theregions);
      var firstreg := theregions[0];
      var filled: nat := |firstreg.funcmembers|;
      FirstAndRest(ss);
      firstreg.funcmembers := firstreg.funcmembers + seq(totalFunctions - filled, _ => 0);
      StartMerging(ss, firstreg.funcmembers);
      assert theregions == rs[..|rs|];
      var more := true;
      while more
        invariant 1 <= |theregions| <= |rs| && theregions == rs[..|theregions|] && more == (|theregions| > 1)
        invariant forall i :: 1 <= i < |theregions| ==> rs[i].Now() == ss[i]
        invariant Merging(ss, |theregions|, firstreg.funcmembers, filled, firstreg.regstmtcount)
        decreases |theregions|
      {
        ghost var k := |theregions| - 1;
        var reg := theregions[|theregions| - 1];
        assert reg == rs[k] && reg.Now() == ss[k] && reg != firstreg;
        RoomForRegion(ss, k, firstreg.funcmembers, filled, firstreg.regstmtcount);
        MergeStep(ss, k, firstreg.funcmembers, filled, firstreg.regstmtcount);
        firstreg.regstmtcount := firstreg.regstmtcount + reg.regstmtcount;
        CopyMembers(firstreg, reg.funcmembers, filled);
        filled := filled + |reg.funcmembers|;
        theregions := theregions[..|theregions| - 1];
        more := |theregions| > 1;
      }
      MergingDone(ss, firstreg.funcmembers, filled, firstreg.regstmtcount);
    }

    /** The driver: regions are formed until every function with a body has one, and become one
        region if they are no more than the limit together. */
    method Run()
      requires Valid() && theregions == []
      modifies this
      ensures Partition(g, States(theregions)) && |regionOf| == |g.nodes|
      ensures exists formed: seq<RegionState> ::
        && Formed(g, regionLimit, regionOf, formed) && Free(g, regionOf) == {}
        && States(theregions) == if |formed| > 1 && Count(formed) <= regionLimit then [Merged(formed)] else formed
    {
      hide Formed, Free, Partition, Merged, Count, Size, States;
      FormedLengths(g, regionLimit, regionOf, States(theregions));
      var more := true;
      while more
        invariant Valid() && |regionOf| == |g.nodes|
        invariant forall i :: 0 <= i < |theregions| ==> fresh(theregions[i])
        invariant !more ==> Free(g, regionOf) == {}
        decreases |Free(g, regionOf)| + if more then 1 else 0
      {
        ghost var ro, rs := regionOf, theregions;
        more := FormOneRegion();
        if more {
          FewerFree(Free(g, regionOf), Free(g, ro));
          assert forall i :: 0 <= i < |rs| ==> theregions[i] == theregions[..|theregions| - 1][i];
        }
      }
      ghost var formed := States(theregions);
      FormedPartition(g, regionLimit, regionOf, formed);
      if |theregions| > 1 {
        var totalRegstmtcount, totalRegfunctions := Totals();
        if totalRegstmtcount <= regionLimit {
          MergeAllRegionsToOne(totalRegfunctions);
          MergedPartition(g, formed);
          OneState(theregions);
        }
      }
    }

    method Totals() returns (statements: nat, functions: nat)
      ensures statements == Count(States(theregions)) && functions == Size(States(theregions))
    {
      statements, functions := 0, 0;
      ghost var ss := States(theregions);
      var i := 0;
      while i < |theregions|
        invariant 0 <= i <= |theregions| && statements == Count(ss[..i]) && functions == Size(ss[..i])
      {
        assert ss[..i + 1][..i] == ss[..i];
        statements := statements + theregions[i].regstmtcount;
        functions := functions + |theregions[i].funcmembers|;
        i := i + 1;
      }
      assert ss[..i] == ss;
    }
  }

  lemma FewerFree(a: set<nat>, b: set<nat>)
    requires a < b
    ensures |a| < |b|
  {
    assert b == a + (b - a);
    assert |b - a| > 0 by {
      var x :| x in b - a;
    }
  }

  lemma OneState(rs: seq<Region>)
    requires |rs| == 1
    ensures States(rs) == [rs[0].Now()]
  {
    assert States(rs)[0] == rs[0].Now();
  }

  // ---------------------------------------------------------------- every function in one region

  /** Regions share no function, and count their own statements. */
  ghost predicate Apart(g: Graph, all: seq<RegionState>) {
    && (forall i :: 0 <= i < |all| ==> AllExist(g, all[i].members) && Distinct(all[i].members)
                                       && all[i].count == Statements(g, all[i].members))
    && (forall i, j, p :: 0 <= i < j < |all| && p in all[i].members ==> p !in all[j].members)
  }

  ghost predicate Partition(g: Graph, all: seq<RegionState>) {
    && Apart(g, all)
    && (forall p: nat :: HasBody(g, p) <==> exists i :: 0 <= i < |all| && p in all[i].members)
  }

  lemma FormedPartition(g: Graph, limit: nat, regionOf: seq<nat>, all: seq<RegionState>)
    requires WellFormed(g) && Formed(g, limit, regionOf, all) && |regionOf| == |g.nodes| && Free(g, regionOf) == {}
    ensures Partition(g, all)
  {
    hide WellFormed, Statements, AllExplored;
    forall p: nat ensures HasBody(g, p) <==> exists i :: 0 <= i < |all| && p in all[i].members {
      if HasBody(g, p) {
        assert p !in Free(g, regionOf);
        assert p in all[regionOf[p] - 1].members;
      }
    }
  }

  lemma {:induction false} InBackwards(ss: seq<RegionState>, p: nat)
    ensures p in Backwards(ss) <==> exists i :: 0 <= i < |ss| && p in ss[i].members
  {
    hide Size;
    if ss != [] {
      var n := |ss| - 1;
      InBackwards(ss[..n], p);
      if p in Backwards(ss[..n]) {
        var i :| 0 <= i < n && p in ss[..n][i].members;
        assert p in ss[i].members;
      }
      if i :| 0 <= i < |ss| && p in ss[i].members && i < n {
        assert p in ss[..n][i].members;
      }
    }
  }

  lemma OnceConcat(a: seq<nat>, b: seq<nat>)
    requires Distinct(a) && Distinct(b) && forall p :: p in a ==> p !in b
    ensures Distinct(a + b)
  {
    forall i, j | 0 <= i < j < |a + b| ensures (a + b)[i] != (a + b)[j] {
      if i < |a| {
        assert (a + b)[i] in a;
        if j >= |a| {
          assert (a + b)[j] in b;
        }
      }
    }
  }

  lemma {:induction false} StatementsConcat(g: Graph, a: seq<nat>, b: seq<nat>)
    requires AllExist(g, a) && AllExist(g, b)
    ensures AllExist(g, a + b) && Statements(g, a + b) == Statements(g, a) + Statements(g, b)
  {
    if b == [] {
      assert a + b == a;
    } else {
      var n := |b| - 1;
      StatementsConcat(g, a, b[..n]);
      assert (a + b)[..|a + b| - 1] == a + b[..n];
    }
  }

  lemma {:induction false} BackwardsApart(g: Graph, ss: seq<RegionState>)
    requires Apart(g, ss)
    ensures AllExist(g, Backwards(ss)) && Distinct(Backwards(ss)) && Statements(g, Backwards(ss)) == Count(ss)
  {
    if ss != [] {
      var n := |ss| - 1;
      BackwardsApart(g, ss[..n]);
      forall p | p in ss[n].members ensures p !in Backwards(ss[..n]) {
        InBackwards(ss[..n], p);
      }
      OnceConcat(ss[n].members, Backwards(ss[..n]));
      StatementsConcat(g, ss[n].members, Backwards(ss[..n]));
    }
  }

  /** Merging loses no function, makes none double, and keeps the count of statements. */
  lemma MergedPartition(g: Graph, ss: seq<RegionState>)
    requires Partition(g, ss) && ss != []
    ensures Partition(g, [Merged(ss)])
    ensures Merged(ss).count == Count(ss) && |Merged(ss).members| == Size(ss)
  {
    hide Statements, Size, Backwards, Count;
    var rest, m := ss[1..], Merged(ss);
    FirstAndRest(ss);
    BackwardsApart(g, rest);
    forall p | p in ss[0].members ensures p !in Backwards(rest) {
      InBackwards(rest, p);
    }
    OnceConcat(ss[0].members, Backwards(rest));
    StatementsConcat(g, ss[0].members, Backwards(rest));
    forall p: nat ensures HasBody(g, p) <==> p in m.members {
      InBackwards(rest, p);
      if exists i :: 0 <= i < |ss| && p in ss[i].members {
        var i :| 0 <= i < |ss| && p in ss[i].members;
        if i > 0 {
          assert p in rest[i - 1].members;
        }
      }
      if p in Backwards(rest) {
        var i :| 0 <= i < |rest| && p in rest[i].members;
        assert p in ss[i + 1].members;
      }
    }
    assert [m][0] == m;
  }

  /** Where the members of each region come to stand: behind those of the first region and of all
      later ones. */
  lemma {:induction false} BackwardsAt(ss: seq<RegionState>, j: nat, k: nat)
    requires j < |ss| && k < |ss[j].members|
    ensures Size(ss[j + 1..]) + k < |Backwards(ss)| && Backwards(ss)[Size(ss[j + 1..]) + k] == ss[j].members[k]
  {
    var n := |ss| - 1;
    if j == n {
      assert ss[j + 1..] == [];
    } else {
      BackwardsAt(ss[..n], j, k);
      assert ss[j + 1..][..|ss[j + 1..]| - 1] == ss[..n][j + 1..];
      assert ss[j + 1..][|ss[j + 1..]| - 1] == ss[n];
    }
  }

  lemma MergedAt(ss: seq<RegionState>, j: nat, k: nat)
    requires j < |ss| && k < |ss[j].members|
    ensures var at := if j == 0 then k else |ss[0].members| + Size(ss[j + 1..]) + k;
      at < |Merged(ss).members| && Merged(ss).members[at] == ss[j].members[k]
  {
    hide Backwards, Size;
    if j > 0 {
      BackwardsAt(ss[1..], j - 1, k);
      assert ss[1..][j - 1] == ss[j] && ss[1..][j..] == ss[j + 1..];
    }
  }

  // ---------------------------------------------------------------- merging

  function Size(ss: seq<RegionState>): nat {
    if ss == [] then 0 else Size(ss[..|ss| - 1]) + |ss[|ss| - 1].members|
  }

  function Count(ss: seq<RegionState>): nat {
    if ss == [] then 0 else Count(ss[..|ss| - 1]) + ss[|ss| - 1].count
  }

  /** The members of the regions, the last region first. */
  function Backwards(ss: seq<RegionState>): (r: seq<nat>)
    ensures |r| == Size(ss)
  {
    if ss == [] then [] else ss[|ss| - 1].members + Backwards(ss[..|ss| - 1])
  }

  function Merged(ss: seq<RegionState>): RegionState
    requires ss != []
  {
    RegionState(ss[0].regid, ss[0].members + Backwards(ss[1..]), ss[0].count + Count(ss[1..]))
  }

  lemma {:induction false} FirstAndRest(ss: seq<RegionState>)
    requires ss != []
    ensures Size(ss) == |ss[0].members| + Size(ss[1..]) && Count(ss) == ss[0].count + Count(ss[1..])
  {
    if |ss| > 1 {
      var init := ss[..|ss| - 1];
      FirstAndRest(init);
      assert ss[1..][..|ss[1..]| - 1] == init[1..];
    } else {
      assert ss[..0] == [] && ss[1..] == [];
    }
  }

  ghost predicate DoneSoFar(ss: seq<RegionState>, k: nat, members: seq<nat>, filled: nat, done: seq<nat>)
    requires 1 <= k <= |ss| && filled <= |members|
  {
    done + Backwards(ss[1..k]) == Backwards(ss[1..]) && members[..filled] == ss[0].members + done
  }

  /** Regions `k` and higher are merged; `filled` entries of `members` are in use. */
  ghost predicate Merging(ss: seq<RegionState>, k: nat, members: seq<nat>, filled: nat, count: nat) {
    && 1 <= k <= |ss| && |members| == Size(ss) && filled <= |members|
    && filled + Size(ss[1..k]) == Size(ss)
    && (exists done: seq<nat> :: DoneSoFar(ss, k, members, filled, done))
    && count + Count(ss[1..k]) == ss[0].count + Count(ss[1..])
  }

  lemma StartMerging(ss: seq<RegionState>, members: seq<nat>)
    requires ss != [] && |members| == Size(ss) && ss[0].members <= members
    ensures Merging(ss, |ss|, members, |ss[0].members|, ss[0].count)
  {
    FirstAndRest(ss);
    assert ss[1..|ss|] == ss[1..];
    assert [] + Backwards(ss[1..]) == Backwards(ss[1..]);
    assert DoneSoFar(ss, |ss|, members, |ss[0].members|, []);
  }

  lemma UpTo(ss: seq<RegionState>, k: nat)
    requires 1 <= k < |ss|
    ensures ss[1..k + 1][..k - 1] == ss[1..k] && |ss[1..k + 1]| == k && ss[1..k + 1][k - 1] == ss[k]
    ensures Size(ss[1..k + 1]) == Size(ss[1..k]) + |ss[k].members|
    ensures Count(ss[1..k + 1]) == Count(ss[1..k]) + ss[k].count
    ensures Backwards(ss[1..k + 1]) == ss[k].members + Backwards(ss[1..k])
  {
    assert ss[1..k + 1][..k - 1] == ss[1..k];
  }

  lemma RoomForRegion(ss: seq<RegionState>, k: nat, members: seq<nat>, filled: nat, count: nat)
    requires 1 <= k < |ss| && Merging(ss, k + 1, members, filled, count)
    ensures filled + |ss[k].members| <= |members|
  {
    UpTo(ss, k);
  }

  lemma MergeStep(ss: seq<RegionState>, k: nat, was: seq<nat>, filled: nat, count: nat)
    requires 1 <= k < |ss| && Merging(ss, k + 1, was, filled, count) && filled + |ss[k].members| <= |was|
    ensures Merging(ss, k, was[..filled] + ss[k].members + was[filled + |ss[k].members|..], filled + |ss[k].members|,
      count + ss[k].count)
  {
    UpTo(ss, k);
    var done :| DoneSoFar(ss, k + 1, was, filled, done);
    var now := was[..filled] + ss[k].members + was[filled + |ss[k].members|..];
    assert (done + ss[k].members) + Backwards(ss[1..k]) == done + Backwards(ss[1..k + 1]);
    assert DoneSoFar(ss, k, now, filled + |ss[k].members|, done + ss[k].members);
  }

  lemma MergingDone(ss: seq<RegionState>, members: seq<nat>, filled: nat, count: nat)
    requires ss != [] && Merging(ss, 1, members, filled, count)
    ensures RegionState(ss[0].regid, members, count) == Merged(ss)
  {
    assert ss[1..1] == [];
    var done :| DoneSoFar(ss, 1, members, filled, done);
    assert done + [] == done && members[..filled] == members;
  }

  lemma StatesLast(rs: seq<Region>, r: Region)
    ensures States(rs + [r]) == States(rs) + [r.Now()]
    ensures Distinct(rs) && r !in rs ==> Distinct(rs + [r])
  {
    assert (rs + [r])[..|rs|] == rs;
  }

  function States(rs: seq<Region>): (r: seq<RegionState>)
    reads rs
    ensures |r| == |rs| && forall i :: 0 <= i < |rs| ==> r[i] == rs[i].Now()
  {
    if rs == [] then [] else States(rs[..|rs| - 1]) + [rs[|rs| - 1].Now()]
  }

  ghost predicate AllExplored(g: Graph, limit: nat, regionOf: seq<nat>, all: seq<RegionState>)
    requires |regionOf| == |g.nodes| && WellFormed(g) && Good(g, limit, regionOf, all)
  {
    forall i :: 0 <= i < |all| ==> Explored(g, limit, regionOf, all[i], |all[i].members|)
  }

  /** The regions are good and none of them could have taken more. */
  ghost predicate Formed(g: Graph, limit: nat, regionOf: seq<nat>, all: seq<RegionState>)
    requires WellFormed(g)
  {
    Good(g, limit, regionOf, all) && AllExplored(g, limit, regionOf, all)
  }

  lemma FormedLengths(g: Graph, limit: nat, regionOf: seq<nat>, all: seq<RegionState>)
    requires WellFormed(g) && Formed(g, limit, regionOf, all)
    ensures |regionOf| == |g.nodes|
  {
  }

  function FirstOf(g: Graph, regionOf: seq<nat>, ps: seq<nat>): Option<nat>
    requires |regionOf| == |g.nodes|
  {
    if ps == [] then None
    else if HasBody(g, ps[0]) && regionOf[ps[0]] == 0 then Some(ps[0])
    else FirstOf(g, regionOf, ps[1..])
  }

  function Indices(n: nat): (r: seq<nat>)
    ensures |r| == n && forall i :: 0 <= i < n ==> r[i] == i
  {
    if n == 0 then [] else Indices(n - 1) + [n - 1]
  }

  /** The entry if it is free, else the first free root, else the first free node. */
  function FirstFree(g: Graph, regionOf: seq<nat>): Option<nat>
    requires |regionOf| == |g.nodes|
  {
    if g.entry.Some? && HasBody(g, g.entry.value) && regionOf[g.entry.value] == 0 then g.entry
    else if FirstOf(g, regionOf, g.roots).Some? then FirstOf(g, regionOf, g.roots)
    else FirstOf(g, regionOf, Indices(|g.nodes|))
  }

  /** The entry, else the first root, else the function with the lowest number: whichever is free. */
  ghost predicate FirstByPriority(g: Graph, free: set<nat>, p: nat) {
    && p in free
    && (g.entry.Some? && g.entry.value in free ==> p == g.entry.value)
    && ((g.entry.Some? ==> g.entry.value !in free) && (exists i :: 0 <= i < |g.roots| && g.roots[i] in free) ==>
          exists i :: 0 <= i < |g.roots| && g.roots[i] == p && forall j :: 0 <= j < i ==> g.roots[j] !in free)
    && ((g.entry.Some? ==> g.entry.value !in free) && (forall i :: 0 <= i < |g.roots| ==> g.roots[i] !in free) ==>
          forall q :: q in free ==> p <= q)
  }

  lemma {:induction false} FirstOfExactly(g: Graph, regionOf: seq<nat>, ps: seq<nat>)
    requires |regionOf| == |g.nodes|
    ensures FirstOf(g, regionOf, ps).None? <==> forall i :: 0 <= i < |ps| ==> ps[i] !in Free(g, regionOf)
    ensures FirstOf(g, regionOf, ps).Some? ==> FirstOf(g, regionOf, ps).value in Free(g, regionOf)
    ensures FirstOf(g, regionOf, ps).Some? ==>
      exists i :: 0 <= i < |ps| && ps[i] == FirstOf(g, regionOf, ps).value
        && forall j :: 0 <= j < i ==> ps[j] !in Free(g, regionOf)
  {
    if ps != [] {
      FirstOfExactly(g, regionOf, ps[1..]);
      assert forall i :: 1 <= i < |ps| ==> ps[i] == ps[1..][i - 1];
      if ps[0] in Free(g, regionOf) {
        assert ps[0] == FirstOf(g, regionOf, ps).value;
      } else if FirstOf(g, regionOf, ps).Some? {
        var i :| 0 <= i < |ps[1..]| && ps[1..][i] == FirstOf(g, regionOf, ps).value
          && forall j :: 0 <= j < i ==> ps[1..][j] !in Free(g, regionOf);
        assert ps[i + 1] == ps[1..][i];
      }
    }
  }

  lemma FirstIndex(g: Graph, regionOf: seq<nat>)
    requires |regionOf| == |g.nodes|
    ensures var first := FirstOf(g, regionOf, Indices(|g.nodes|));
      && (first.None? <==> Free(g, regionOf) == {})
      && (first.Some? ==> first.value in Free(g, regionOf) && forall q :: q in Free(g, regionOf) ==> first.value <= q)
  {
    hide FirstOf;
    var ps := Indices(|g.nodes|);
    FirstOfExactly(g, regionOf, ps);
    forall q | q in Free(g, regionOf)
      ensures FirstOf(g, regionOf, ps).Some? && FirstOf(g, regionOf, ps).value <= q
    {
      assert ps[q] == q;
    }
  }

  /** A first member is found exactly if some function is free, and it is the one to start with. */
  lemma FirstFreeExactly(g: Graph, regionOf: seq<nat>)
    requires |regionOf| == |g.nodes|
    ensures FirstFree(g, regionOf).None? <==> Free(g, regionOf) == {}
    ensures FirstFree(g, regionOf).Some? ==> FirstByPriority(g, Free(g, regionOf), FirstFree(g, regionOf).value)
    ensures FirstFree(g, regionOf).Some? ==> IsFree(g, regionOf, FirstFree(g, regionOf).value)
  {
    var free := Free(g, regionOf);
    FirstOfExactly(g, regionOf, g.roots);
    FirstIndex(g, regionOf);
    assert FirstFree(g, regionOf).Some? ==> FirstFree(g, regionOf).value in free;
  }

  predicate IsFree(g: Graph, regionOf: seq<nat>, p: nat) {
    p < |regionOf| && HasBody(g, p) && regionOf[p] == 0 && Exists(g, p)
  }

  /** No free neighbour of a member, by its SCC, as a caller or as a callee, would still fit. */
  ghost predicate NothingFits(g: Graph, limit: nat, free: set<nat>, r: RegionState) {
    forall i, q: nat :: 0 <= i < |r.members| && q in free && Exists(g, r.members[i]) && Exists(g, q) ==>
      (var n := g.nodes[r.members[i]].value; q in n.scc || q in n.callers || q in n.callees) ==>
      r.count + g.nodes[q].value.stmtCount >= limit
  }

  lemma ExploredFits(g: Graph, limit: nat, regionOf: seq<nat>, r: RegionState)
    requires |regionOf| == |g.nodes| && WellFormed(g) && AllExist(g, r.members)
    requires Explored(g, limit, regionOf, r, |r.members|)
    ensures NothingFits(g, limit, Free(g, regionOf), r)
  {
    hide WellFormed;
    forall i, q: nat | 0 <= i < |r.members| && q in Free(g, regionOf) && Exists(g, r.members[i]) && Exists(g, q)
      ensures var n := g.nodes[r.members[i]].value;
        q in n.scc || q in n.callers || q in n.callees ==> r.count + g.nodes[q].value.stmtCount >= limit
    {
      var qs := Neighbours(g, r.members[i]);
      assert AllSettled(g, limit, regionOf, r, qs);
      if q in qs {
        var j :| 0 <= j < |qs| && qs[j] == q;
        assert Settled(g, limit, regionOf, r, qs[j]);
      }
    }
  }

  function NewRegion(g: Graph, older: seq<RegionState>, p: nat): RegionState
    requires Exists(g, p)
  {
    WithMember(g, RegionState(|older| + 1, [], 0), p)
  }

  lemma StartOfRegion(g: Graph, older: seq<RegionState>, p: nat, members: seq<nat>)
    requires Exists(g, p) && members != [] && members[0] == p
    ensures NewRegion(g, older, p) == RegionState(|older| + 1, members[..1], g.nodes[p].value.stmtCount)
  {
  }

  lemma FirstMember(g: Graph, limit: nat, regionOf: seq<nat>, older: seq<RegionState>, p: nat)
    requires WellFormed(g) && Formed(g, limit, regionOf, older) && HasBody(g, p) && p < |regionOf| && regionOf[p] == 0
    ensures BeingFormed(g, limit, regionOf[p := |older| + 1], NewRegion(g, older, p), older)
    ensures |regionOf| == |g.nodes| && Free(g, regionOf[p := |older| + 1]) < Free(g, regionOf)
  {
    TakeKeepsAll(g, limit, regionOf, older, RegionState(|older| + 1, [], 0), p);
    assert p !in Free(g, regionOf[p := |older| + 1]);
  }

  /** What was settled stays so when more functions get their regions. */
  lemma ExploredKept(g: Graph, limit: nat, regionOf: seq<nat>, r: RegionState, regionOf': seq<nat>)
    requires |regionOf| == |g.nodes| == |regionOf'| && WellFormed(g) && AllExist(g, r.members)
    requires forall q: nat :: q < |regionOf| && regionOf[q] != 0 ==> regionOf'[q] == regionOf[q]
    requires Explored(g, limit, regionOf, r, |r.members|)
    ensures Explored(g, limit, regionOf', r, |r.members|)
  {
    hide WellFormed, Neighbours;
    forall i | 0 <= i < |r.members| ensures AllSettled(g, limit, regionOf', r, Neighbours(g, r.members[i])) {
      var qs := Neighbours(g, r.members[i]);
      assert AllSettled(g, limit, regionOf, r, qs);
      forall j | 0 <= j < |qs| ensures Settled(g, limit, regionOf', r, qs[j]) {
        assert Settled(g, limit, regionOf, r, qs[j]);
      }
    }
  }

  lemma RegionDone(g: Graph, limit: nat, ro: seq<nat>, older: seq<RegionState>, p: nat, ro': seq<nat>, r': RegionState)
    requires WellFormed(g) && Formed(g, limit, ro, older) && HasBody(g, p) && |ro| == |g.nodes| == |ro'| && p < |ro|
    requires ro[p] == 0
    requires BeingFormed(g, limit, ro', r', older) && Grown(g, ro[p := |older| + 1], NewRegion(g, older, p), ro', r')
    requires AllExist(g, r'.members) && Explored(g, limit, ro', r', |r'.members|)
    ensures Formed(g, limit, ro', older + [r'])
    ensures Free(g, ro') < Free(g, ro) && r'.members != [] && r'.members[0] == p
  {
    hide Explored, Neighbours, AllExist, Statements;
    FirstMember(g, limit, ro, older, p);
    var all := older + [r'];
    forall i | 0 <= i < |all| ensures Explored(g, limit, ro', all[i], |all[i].members|) {
      if i < |older| {
        assert all[i] == older[i];
        ExploredKept(g, limit, ro, older[i], ro');
      }
    }
    forall q | q in Free(g, ro') ensures q in Free(g, ro) {
    }
    assert p !in Free(g, ro');
    assert r'.members[0] == NewRegion(g, older, p).members[0];
  }

  lemma MemberExists(g: Graph, ps: seq<nat>, i: nat)
    requires AllExist(g, ps) && i < |ps|
    ensures Exists(g, ps[i])
  {
  }

  lemma NeighboursExist(g: Graph, p: nat)
    requires WellFormed(g) && Exists(g, p)
    ensures AllExist(g, g.nodes[p].value.scc) && AllExist(g, g.nodes[p].value.callers)
    ensures AllExist(g, g.nodes[p].value.callees)
  {
    var n, all := g.nodes[p].value, Neighbours(g, p);
    assert forall i :: 0 <= i < |n.scc| ==> n.scc[i] == all[i];
    assert forall i :: 0 <= i < |n.callers| ==> n.callers[i] == all[|n.scc| + i];
    assert forall i :: 0 <= i < |n.callees| ==> n.callees[i] == all[|n.scc| + |n.callers| + i];
  }

  lemma NeighboursTaken(g: Graph, limit: nat, s: Growth, p: nat)
    requires Exists(g, p)
    ensures var n := g.nodes[p].value;
      TakeAll(g, limit, s, Neighbours(g, p)) ==
        TakeAll(g, limit, TakeAll(g, limit, TakeAll(g, limit, s, n.scc), n.callers), n.callees)
  {
    hide TakeAll;
    var n := g.nodes[p].value;
    TakeAllConcat(g, limit, s, n.scc + n.callers, n.callees);
    TakeAllConcat(g, limit, s, n.scc, n.callers);
  }

  lemma NeighboursSettled(g: Graph, limit: nat, regionOf: seq<nat>, r: RegionState, p: nat)
    requires |regionOf| == |g.nodes| && Exists(g, p)
    requires AllSettled(g, limit, regionOf, r, g.nodes[p].value.scc)
    requires AllSettled(g, limit, regionOf, r, g.nodes[p].value.callers)
    requires AllSettled(g, limit, regionOf, r, g.nodes[p].value.callees)
    ensures AllSettled(g, limit, regionOf, r, Neighbours(g, p))
  {
  }

  lemma NothingExplored(g: Graph, limit: nat, regionOf: seq<nat>, r: RegionState)
    requires |regionOf| == |g.nodes| && WellFormed(g) && AllExist(g, r.members)
    ensures Explored(g, limit, regionOf, r, 0)
  {
  }

  lemma OneMoreExplored(g: Graph, limit: nat, regionOf: seq<nat>, r: RegionState, i: nat)
    requires |regionOf| == |g.nodes| && WellFormed(g) && AllExist(g, r.members) && i < |r.members|
    requires Explored(g, limit, regionOf, r, i) && Exists(g, r.members[i])
    requires AllSettled(g, limit, regionOf, r, Neighbours(g, r.members[i]))
    ensures Explored(g, limit, regionOf, r, i + 1)
  {
    hide AllSettled, Neighbours;
  }

  lemma GrownFacts(g: Graph, regionOf: seq<nat>, r: RegionState, regionOf': seq<nat>, r': RegionState)
    requires |regionOf| == |g.nodes| == |regionOf'| && Grown(g, regionOf, r, regionOf', r')
    ensures r.members <= r'.members
    ensures |Free(g, regionOf')| + |r'.members| == |Free(g, regionOf)| + |r.members|
  {
  }

  /** What is true of the region that is being formed, behind the finished ones. */
  ghost predicate BeingFormed(g: Graph, limit: nat, regionOf: seq<nat>, r: RegionState, older: seq<RegionState>) {
    && WellFormed(g) && |regionOf| == |g.nodes|
    && Good(g, limit, regionOf, older + [r])
    && r.members != [] && AllExist(g, r.members) && r.regid == |older| + 1
  }

  lemma Lengths(g: Graph, limit: nat, regionOf: seq<nat>, r: RegionState, older: seq<RegionState>)
    requires BeingFormed(g, limit, regionOf, r, older)
    ensures |regionOf| == |g.nodes| && AllExist(g, r.members) && WellFormed(g) && r.members != []
  {
  }

  lemma NothingYet(g: Graph, limit: nat, regionOf: seq<nat>, r: RegionState)
    requires |regionOf| == |g.nodes|
    ensures Grown(g, regionOf, r, regionOf, r) && AllSettled(g, limit, regionOf, r, [])
  {
  }

  lemma Takes(g: Graph, limit: nat, ro0: seq<nat>, r0: RegionState, ro: seq<nat>, r: RegionState,
              older: seq<RegionState>, qs: seq<nat>, q: nat)
    requires BeingFormed(g, limit, ro, r, older) && |ro0| == |g.nodes| == |ro| && Grown(g, ro0, r0, ro, r)
    requires AllSettled(g, limit, ro, r, qs)
    requires HasBody(g, q) && ro[q] == 0 && r.count + g.nodes[q].value.stmtCount < limit
    ensures var ro', r' := ro[q := r.regid], WithMember(g, r, q);
      BeingFormed(g, limit, ro', r', older) && Grown(g, ro0, r0, ro', r') && AllSettled(g, limit, ro', r', qs + [q])
  {
    hide Good, Statements;
    TakeKeepsAll(g, limit, ro, older, r, q);
    TakingGrows(g, ro, r, q);
    GrownTwice(g, ro0, r0, ro, r, ro[q := r.regid], WithMember(g, r, q));
    SettledStays(g, limit, ro, r, ro[q := r.regid], WithMember(g, r, q), qs);
  }

  lemma PassesBy(g: Graph, limit: nat, ro: seq<nat>, r: RegionState, older: seq<RegionState>, qs: seq<nat>, q: nat)
    requires BeingFormed(g, limit, ro, r, older) && |ro| == |g.nodes| && AllSettled(g, limit, ro, r, qs)
    requires !(HasBody(g, q) && ro[q] == 0 && r.count + g.nodes[q].value.stmtCount < limit)
    ensures AllSettled(g, limit, ro, r, qs + [q])
  {
    if q < |ro| {
      AssignedBelow(g, limit, ro, older + [r], q);
    }
  }

  lemma GrownTwice(g: Graph, ro0: seq<nat>, r0: RegionState, ro1: seq<nat>, r1: RegionState, ro2: seq<nat>,
                   r2: RegionState)
    requires |ro0| == |ro1| == |ro2| == |g.nodes| && Grown(g, ro0, r0, ro1, r1) && Grown(g, ro1, r1, ro2, r2)
    ensures Grown(g, ro0, r0, ro2, r2)
  {
    hide Free;
  }

  lemma TakingGrows(g: Graph, regionOf: seq<nat>, r: RegionState, p: nat)
    requires |regionOf| == |g.nodes| && HasBody(g, p) && regionOf[p] == 0
    requires Free(g, regionOf[p := r.regid]) == Free(g, regionOf) - {p} && p in Free(g, regionOf)
    ensures Grown(g, regionOf, r, regionOf[p := r.regid], WithMember(g, r, p))
  {
  }

  lemma AssignedBelow(g: Graph, limit: nat, regionOf: seq<nat>, all: seq<RegionState>, q: nat)
    requires Good(g, limit, regionOf, all) && q < |regionOf|
    ensures regionOf[q] <= |all|
  {
  }
}
