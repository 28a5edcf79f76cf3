/** Call sites of a node: recording them, dropping repeated ones, the construction of the whole call
    relation, and searching for a callee by name.  mapleall/maple_ipa/src/callgraph.cpp:163-190 and 1203-1346. */
module CallSites {
  import opened Reachability
  import opened CallGraphNodes
  import opened Condensation

  // ---------------------------------------------------------------- recording a call

  ghost function WithCall(g: Graph, u: nat, v: nat): Graph
    requires u < |g|
  {
    g[u := g[u] + {v}]
  }

  /** CGNode::AddCaller */
  method AddCaller(calleenode: CGNode, node: CGNode, ghost nt: NodeTable, ghost g: Graph)
    requires Indexed(nt) && Symmetric(nt, g) && node in nt.all && calleenode in nt.all && node.id < |g|
    modifies calleenode`callerSet
    ensures calleenode.callerSet == old(calleenode.callerSet) + {node}
    ensures Symmetric(nt, WithCall(g, node.id, calleenode.id))
  {
    hide Preds, NodeIds;
    ghost var callers := calleenode.callerSet;
    calleenode.callerSet := calleenode.callerSet + {node};
    IdsOneMore(callers, node);
    forall w | w in nt.all
      ensures w.callerSet <= nt.all && NodeIds(w.callerSet) == Preds(nt, WithCall(g, node.id, calleenode.id), {w.id})
    {
      PredsOneMore(nt, g, node.id, calleenode.id, w.id);
      assert w.id == calleenode.id ==> nt.byId[w.id] == nt.byId[calleenode.id];
    }
  }

  /** CGNode::AddCallsite */
  method AddCallsite(node: CGNode, info: CallInfo, calleenode: CGNode, ghost nt: NodeTable, ghost g: Graph)
    requires GraphOf(nt, g) && node in nt.all && calleenode in nt.all && node.id < |g|
    modifies node`callees
    ensures node.callees == old(node.callees) + [Callsite(info, calleenode)]
    ensures GraphOf(nt, WithCall(g, node.id, calleenode.id))
  {
    hide CalleeIds, KnownCallees;
    CalleeIdsAppend(nt, node.callees, Callsite(info, calleenode));
    node.callees := node.callees + [Callsite(info, calleenode)];
  }

  /** A call is recorded on both sides, so that callers and callees stay symmetric. */
  method RecordCall(node: CGNode, info: CallInfo, calleenode: CGNode, ghost nt: NodeTable, ghost g: Graph)
    requires GraphOf(nt, g) && Symmetric(nt, g) && node in nt.all && calleenode in nt.all && node.id < |g|
    modifies node`callees, calleenode`callerSet
    ensures node.callees == old(node.callees) + [Callsite(info, calleenode)]
    ensures calleenode.callerSet == old(calleenode.callerSet) + {node}
    ensures GraphOf(nt, WithCall(g, node.id, calleenode.id)) && Symmetric(nt, WithCall(g, node.id, calleenode.id))
  {
    hide GraphOf, Symmetric;
    GraphIndexed(nt, g);
    AddCaller(calleenode, node, nt, g);
    AddCallsite(node, info, calleenode, nt, g);
  }

  lemma GraphIndexed(nt: NodeTable, g: Graph)
    requires GraphOf(nt, g)
    ensures Indexed(nt)
  {
  }

  lemma IdsOneMore(ns: set<CGNode>, n: CGNode)
    ensures NodeIds(ns + {n}) == NodeIds(ns) + {n.id}
  {
  }

  lemma PredsOneMore(nt: NodeTable, g: Graph, u: nat, v: nat, w: nat)
    requires u < |g| && u in nt.byId && |g[u := g[u] + {v}]| == |g|
    ensures Preds(nt, g[u := g[u] + {v}], {w}) == Preds(nt, g, {w}) + if v == w then {u} else {}
  {
  }

  lemma CalleeIdsAppend(nt: NodeTable, cs: seq<Callsite>, c: Callsite)
    requires c.node != null && c.node.id in nt.byId && nt.byId[c.node.id] == c.node && KnownCallees(nt, cs)
    ensures CalleeIds(cs + [c]) == CalleeIds(cs) + {c.node.id} && KnownCallees(nt, cs + [c])
  {
    assert forall x :: x in cs + [c] <==> x in cs || x == c;
  }

  // ---------------------------------------------------------------- repeated call sites

  /** The types of which a callee is listed once. */
  predicate Merges(t: CallType) {
    t == CallDirect || t == CallInterface || t == CallVirtual
  }

  predicate Repeats(a: Callsite, b: Callsite) {
    a.node == b.node && a.info.ctype == b.info.ctype && Merges(a.info.ctype)
  }

  /** Every call site that repeats an earlier one is left out. */
  function KeepFirst(cs: seq<Callsite>): seq<Callsite> {
    if cs == [] then []
    else
      var init, c := cs[..|cs| - 1], cs[|cs| - 1];
      if RepeatsOne(init, c) then KeepFirst(init) else KeepFirst(init) + [c]
  }

  predicate RepeatsOne(cs: seq<Callsite>, c: Callsite) {
    exists i :: 0 <= i < |cs| && Repeats(cs[i], c)
  }

  lemma RepeatsTrans(a: Callsite, b: Callsite, c: Callsite)
    requires Repeats(a, b) && Repeats(b, c)
    ensures Repeats(a, c)
  {
  }

  /** Erasing a call site that repeats an earlier one does not change which are kept. */
  lemma {:induction false} EraseRepeat(cs: seq<Callsite>, i: nat, j: nat)
    requires i < j < |cs| && Repeats(cs[i], cs[j])
    ensures KeepFirst(cs[..j] + cs[j + 1..]) == KeepFirst(cs)
  {
    var n := |cs| - 1;
    var init, c := cs[..n], cs[n];
    if j == n {
      assert cs[..j] + cs[j + 1..] == init;
      assert Repeats(init[i], c);
    } else {
      var shorter := init[..j] + init[j + 1..];
      assert cs[..j] + cs[j + 1..] == shorter + [c];
      assert (shorter + [c])[..n - 1] == shorter;
      EraseRepeat(init, i, j);
      SameRepeats(init, i, j, c);
    }
  }

  lemma SameRepeats(cs: seq<Callsite>, i: nat, j: nat, c: Callsite)
    requires i < j < |cs| && Repeats(cs[i], cs[j])
    ensures RepeatsOne(cs[..j] + cs[j + 1..], c) == RepeatsOne(cs, c)
  {
    var shorter := cs[..j] + cs[j + 1..];
    if RepeatsOne(cs, c) {
      var k :| 0 <= k < |cs| && Repeats(cs[k], c);
      if k == j {
        RepeatsTrans(cs[i], cs[j], c);
        assert shorter[i] == cs[i];
      } else {
        assert shorter[if k < j then k else k - 1] == cs[k];
      }
    }
    if RepeatsOne(shorter, c) {
      var k :| 0 <= k < |shorter| && Repeats(shorter[k], c);
      assert cs[if k < j then k else k + 1] == shorter[k];
    }
  }

  ghost predicate NoRepeats(cs: seq<Callsite>, n: nat) {
    forall i, j :: 0 <= i < n && i < j < |cs| ==> !Repeats(cs[i], cs[j])
  }

  lemma {:induction false} NothingToDrop(cs: seq<Callsite>)
    requires NoRepeats(cs, |cs|)
    ensures KeepFirst(cs) == cs
  {
    if cs != [] {
      NothingToDrop(cs[..|cs| - 1]);
    }
  }

  lemma KeptLast(cs: seq<Callsite>)
    requires cs != []
    ensures var init, c := cs[..|cs| - 1], cs[|cs| - 1];
      && (forall d :: d in cs <==> d in init || d == c)
      && (forall d :: d in KeepFirst(cs) <==> d in KeepFirst(init) || (d == c && !RepeatsOne(init, c)))
  {
  }

  lemma {:induction false} KeptIsPart(cs: seq<Callsite>)
    ensures forall c :: c in KeepFirst(cs) ==> c in cs
  {
    if cs != [] {
      KeptIsPart(cs[..|cs| - 1]);
    }
  }

  lemma {:induction false} KeptOnce(cs: seq<Callsite>)
    ensures NoRepeats(KeepFirst(cs), |KeepFirst(cs)|)
  {
    if cs != [] {
      var init, c := cs[..|cs| - 1], cs[|cs| - 1];
      var kept := KeepFirst(init);
      KeptOnce(init);
      KeptIsPart(init);
      forall i | 0 <= i < |kept| && !RepeatsOne(init, c) ensures !Repeats(kept[i], c) {
        assert kept[i] in init;
      }
    }
  }

  /** Something kept calls the same function in the same way. */
  lemma {:induction false} Represented(cs: seq<Callsite>, c: Callsite) returns (d: Callsite)
    requires c in cs
    ensures d in KeepFirst(cs) && d.node == c.node && d.info.ctype == c.info.ctype
    ensures !Merges(c.info.ctype) ==> d == c
  {
    var init, last := cs[..|cs| - 1], cs[|cs| - 1];
    KeptLast(cs);
    if c in init {
      d := Represented(init, c);
    } else if RepeatsOne(init, last) {
      var i :| 0 <= i < |init| && Repeats(init[i], last);
      d := Represented(init, init[i]);
    } else {
      d := c;
    }
  }

  /** What is kept has no repetition, is part of the list, and calls the same functions in the
      same ways; calls of other types are all kept. */
  lemma KeepFirstKeeps(cs: seq<Callsite>)
    ensures NoRepeats(KeepFirst(cs), |KeepFirst(cs)|)
    ensures forall c :: c in KeepFirst(cs) ==> c in cs
    ensures forall c :: c in cs ==> exists d :: d in KeepFirst(cs) && d.node == c.node && d.info.ctype == c.info.ctype
    ensures forall c :: c in cs && !Merges(c.info.ctype) ==> c in KeepFirst(cs)
  {
    hide KeepFirst;
    KeptOnce(cs);
    KeptIsPart(cs);
    forall c | c in cs
      ensures exists d :: d in KeepFirst(cs) && d.node == c.node && d.info.ctype == c.info.ctype
      ensures !Merges(c.info.ctype) ==> c in KeepFirst(cs)
    {
      var d := Represented(cs, c);
    }
  }

  /** The entry does not repeat an earlier one: no earlier entry calls the same function as the same
      one of the types of plain, interface and virtual calls. */
  ghost predicate FirstOfItsKind(cs: seq<Callsite>, i: nat) {
    i < |cs| && forall j :: 0 <= j < i ==>
      !(cs[j].node == cs[i].node && cs[j].info.ctype == cs[i].info.ctype
        && cs[i].info.ctype in {CallDirect, CallInterface, CallVirtual})
  }

  /** The list that is left, exactly: the entries that are first of their kind, in their order. */
  lemma {:induction false} KeptExactly(cs: seq<Callsite>) returns (kept: seq<nat>)
    ensures |kept| == |KeepFirst(cs)|
    ensures forall k :: 0 <= k < |kept| ==> kept[k] < |cs| && KeepFirst(cs)[k] == cs[kept[k]]
    ensures forall k, l :: 0 <= k < l < |kept| ==> kept[k] < kept[l]
    ensures forall i: nat :: i in kept <==> FirstOfItsKind(cs, i)
  {
    kept := [];
    if cs != [] {
      var n := |cs| - 1;
      kept := KeptExactly(cs[..n]);
      FirstStays(cs, n);
      if !RepeatsOne(cs[..n], cs[n]) {
        kept := kept + [n];
      }
    }
  }

  lemma FirstStays(cs: seq<Callsite>, n: nat)
    requires n < |cs|
    ensures forall i: nat :: i < n ==> (FirstOfItsKind(cs, i) <==> FirstOfItsKind(cs[..n], i))
    ensures FirstOfItsKind(cs, n) <==> !RepeatsOne(cs[..n], cs[n])
  {
    assert forall j :: 0 <= j < n ==> cs[..n][j] == cs[j];
    if RepeatsOne(cs[..n], cs[n]) {
      var j :| 0 <= j < n && Repeats(cs[..n][j], cs[n]);
      assert cs[j] == cs[..n][j];
    }
    if !FirstOfItsKind(cs, n) {
      var j :| 0 <= j < n && cs[j].node == cs[n].node && cs[j].info.ctype == cs[n].info.ctype
        && cs[n].info.ctype in {CallDirect, CallInterface, CallVirtual};
      assert Repeats(cs[..n][j], cs[n]);
    }
  }

  lemma SameCallees(nt: NodeTable, cs: seq<Callsite>)
    requires KnownCallees(nt, cs)
    ensures CalleeIds(KeepFirst(cs)) == CalleeIds(cs) && KnownCallees(nt, KeepFirst(cs))
  {
    hide KeepFirst;
    KeptIsPart(cs);
    forall x ensures x in CalleeIds(cs) <==> x in CalleeIds(KeepFirst(cs)) {
      if x in CalleeIds(cs) {
        var c :| c in cs && c.node != null && c.node.id == x;
        var d := Represented(cs, c);
      }
    }
  }

  /** Which types were met for the callee at hand. */
  datatype Found = Found(call: bool, icall: bool, vcall: bool)

  predicate Has(f: Found, t: CallType) {
    (t == CallDirect && f.call) || (t == CallInterface && f.icall) || (t == CallVirtual && f.vcall)
  }

  function Met(f: Found, t: CallType): (r: Found)
    ensures forall u :: Has(r, u) <==> Has(f, u) || (u == t && Merges(t))
  {
    Found(f.call || t == CallDirect, f.icall || t == CallInterface, f.vcall || t == CallVirtual)
  }

  /** The de-duplication of GenCallGraph, erasing in place. */
  method DropRepeated(node: CGNode, ghost nt: NodeTable, ghost g: Graph)
    requires GraphOf(nt, g) && node in nt.all
    modifies node`callees
    ensures node.callees == KeepFirst(old(node.callees)) && GraphOf(nt, g)
  {
    hide KeepFirst, CalleeIds, KnownCallees, Repeats;
    ghost var before := node.callees;
    SameCallees(nt, before);
    var i := 0;
    while i < |node.callees|
      invariant 0 <= i <= |node.callees|
      invariant KeepFirst(node.callees) == KeepFirst(before) && NoRepeats(node.callees, i)
      decreases |node.callees| - i
    {
      DropRepeatsOf(node, i);
      i := i + 1;
    }
    NothingToDrop(node.callees);
  }

  ghost predicate HasEarlier(cs: seq<Callsite>, i: nat, j: nat, t: CallType)
    requires i < |cs|
  {
    exists a :: i <= a < j && a < |cs| && cs[a].node == cs[i].node && cs[a].info.ctype == t
  }

  /** The types met so far stand for earlier entries of the same callee. */
  ghost predicate FoundAre(cs: seq<Callsite>, i: nat, j: nat, found: Found)
    requires i < |cs|
  {
    && (forall t :: Has(found, t) ==> HasEarlier(cs, i, j, t))
    && (Merges(cs[i].info.ctype) ==> Has(found, cs[i].info.ctype))
  }

  lemma FoundFirst(cs: seq<Callsite>, i: nat)
    requires i < |cs|
    ensures FoundAre(cs, i, i + 1, Met(Found(false, false, false), cs[i].info.ctype))
  {
    assert cs[i].node == cs[i].node;
  }

  lemma FoundBefore(cs: seq<Callsite>, i: nat, j: nat, found: Found, t: CallType)
    requires i < |cs| && FoundAre(cs, i, j, found) && Has(found, t)
    ensures exists a :: i <= a < j && a < |cs| && cs[a].node == cs[i].node && cs[a].info.ctype == t
  {
  }

  lemma OtherType(cs: seq<Callsite>, i: nat, j: nat, found: Found)
    requires i < j < |cs| && FoundAre(cs, i, j, found) && !(cs[j].node == cs[i].node && Has(found, cs[j].info.ctype))
    ensures !Repeats(cs[i], cs[j])
  {
  }

  lemma FoundErase(cs: seq<Callsite>, i: nat, j: nat, found: Found)
    requires i < j < |cs| && FoundAre(cs, i, j, found)
    ensures FoundAre(cs[..j] + cs[j + 1..], i, j, found)
  {
    var shorter := cs[..j] + cs[j + 1..];
    forall t | Has(found, t)
      ensures exists a ::
        i <= a < j && a < |shorter| && shorter[a].node == shorter[i].node && shorter[a].info.ctype == t
    {
      var a :| i <= a < j && a < |cs| && cs[a].node == cs[i].node && cs[a].info.ctype == t;
      assert shorter[a] == cs[a];
    }
  }

  lemma FoundMore(cs: seq<Callsite>, i: nat, j: nat, found: Found)
    requires i < j < |cs| && FoundAre(cs, i, j, found)
    ensures FoundAre(cs, i, j + 1, if cs[j].node == cs[i].node then Met(found, cs[j].info.ctype) else found)
  {
  }

  /** The inner loop. */
  method DropRepeatsOf(node: CGNode, i: nat)
    requires i < |node.callees| && NoRepeats(node.callees, i)
    modifies node`callees
    ensures i < |node.callees| <= |old(node.callees)| && NoRepeats(node.callees, i + 1)
    ensures KeepFirst(node.callees) == KeepFirst(old(node.callees))
  {
    hide KeepFirst, FoundAre;
    ghost var before := node.callees;
    var callSite := node.callees[i];
    var found := Met(Found(false, false, false), callSite.info.ctype);
    var j := i + 1;
    FoundFirst(node.callees, i);
    while j < |node.callees|
      invariant i < j <= |node.callees| <= |before| && node.callees[i] == callSite
      invariant KeepFirst(node.callees) == KeepFirst(before) && NoRepeats(node.callees, i)
      invariant FoundAre(node.callees, i, j, found)
      invariant forall b :: i < b < j ==> !Repeats(callSite, node.callees[b])
      decreases |node.callees| - j
    {
      var inner := node.callees[j];
      if inner.node == callSite.node && Has(found, inner.info.ctype) {
        FoundBefore(node.callees, i, j, found, inner.info.ctype);
        ghost var cs := node.callees;
        ghost var a :| i <= a < j && cs[a].node == callSite.node && cs[a].info.ctype == inner.info.ctype;
        EraseRepeat(node.callees, a, j);
        FoundErase(node.callees, i, j, found);
        node.callees := node.callees[..j] + node.callees[j + 1..];
      } else {
        FoundMore(node.callees, i, j, found);
        OtherType(node.callees, i, j, found);
        if inner.node == callSite.node {
          found := Met(found, inner.info.ctype);
        }
        j := j + 1;
      }
    }
  }

  // ---------------------------------------------------------------- the whole construction

  datatype RecordedCall = RecordedCall(caller: CGNode, info: CallInfo, callee: CGNode)

  /** A function with a body, and the callees that HandleBody collects from it. */
  datatype FunctionCalls = FunctionCalls(node: CGNode, calls: seq<RecordedCall>)

  ghost predicate AmongNodes(nt: NodeTable, calls: seq<RecordedCall>) {
    forall i :: 0 <= i < |calls| ==> calls[i].caller in nt.all && calls[i].callee in nt.all
  }

  ghost predicate FunctionsAmong(nt: NodeTable, fs: seq<FunctionCalls>) {
    && (forall i :: 0 <= i < |fs| ==> fs[i].node in nt.all && AmongNodes(nt, fs[i].calls))
    && (forall i :: 0 <= i < |fs| ==> forall k :: 0 <= k < |fs[i].calls| ==> fs[i].calls[k].caller == fs[i].node)
    && (forall i, j :: 0 <= i < j < |fs| ==> fs[i].node != fs[j].node)
  }

  /** Some call of the list goes from `u` to `v`. */
  ghost predicate Calls(calls: seq<RecordedCall>, u: nat, v: nat) {
    exists i :: 0 <= i < |calls| && calls[i].caller.id == u && calls[i].callee.id == v
  }

  /** All calls, in the order in which they are recorded. */
  function AllCalls(earlier: seq<RecordedCall>, fs: seq<FunctionCalls>): seq<RecordedCall> {
    if fs == [] then earlier else AllCalls(earlier, fs[..|fs| - 1]) + fs[|fs| - 1].calls
  }

  /** `g` has the calls of the list and no other. */
  ghost predicate RelationOf(g: Graph, calls: seq<RecordedCall>) {
    forall u: nat, v: nat :: u < |g| ==> (v in g[u] <==> Calls(calls, u, v))
  }

  /** Some call site of the list calls `v` in the way `t`. */
  ghost predicate CallsAs(cs: seq<Callsite>, v: CGNode, t: CallType) {
    exists k :: 0 <= k < |cs| && cs[k].node == v && cs[k].info.ctype == t
  }

  ghost predicate Collected(calls: seq<RecordedCall>, u: CGNode, v: CGNode, t: CallType) {
    exists i :: 0 <= i < |calls| && calls[i].caller == u && calls[i].callee == v && calls[i].info.ctype == t
  }

  type CallLists = map<CGNode, seq<Callsite>>

  ghost function ListsNow(nt: NodeTable): CallLists
    reads nt.all`callees
  {
    map u | u in nt.all :: u.callees
  }

  /** A node lists a callee with a type exactly when such a call was collected. */
  ghost predicate TypesAre(lists: CallLists, calls: seq<RecordedCall>) {
    forall u, v, t :: u in lists && v in lists ==> (CallsAs(lists[u], v, t) <==> Collected(calls, u, v, t))
  }

  /** Callers and callees as the nodes hold them. */
  ghost predicate Recorded(nt: NodeTable, g: Graph, size: nat, calls: seq<RecordedCall>)
    reads nt.all`callees, nt.all`callerSet
  {
    |g| == size && GraphOf(nt, g) && Symmetric(nt, g) && RelationOf(g, calls)
    && TypesAre(ListsNow(nt), calls)
  }

  lemma CallsAsAppend(cs: seq<Callsite>, c: Callsite, v: CGNode, t: CallType)
    ensures CallsAs(cs + [c], v, t) <==> CallsAs(cs, v, t) || (c.node == v && c.info.ctype == t)
  {
    var all := cs + [c];
    assert all[|cs|] == c;
    if CallsAs(cs, v, t) {
      var k :| 0 <= k < |cs| && cs[k].node == v && cs[k].info.ctype == t;
      assert all[k] == cs[k];
    }
  }

  lemma CollectedAppend(calls: seq<RecordedCall>, c: RecordedCall, u: CGNode, v: CGNode, t: CallType)
    ensures Collected(calls + [c], u, v, t) <==>
      Collected(calls, u, v, t) || (c.caller == u && c.callee == v && c.info.ctype == t)
  {
    var all := calls + [c];
    assert all[|calls|] == c;
    if Collected(calls, u, v, t) {
      var i :| 0 <= i < |calls| && calls[i].caller == u && calls[i].callee == v && calls[i].info.ctype == t;
      assert all[i] == calls[i];
    }
  }

  lemma OneMoreType(lists: CallLists, calls: seq<RecordedCall>, c: RecordedCall)
    requires TypesAre(lists, calls) && c.caller in lists
    ensures TypesAre(lists[c.caller := lists[c.caller] + [Callsite(c.info, c.callee)]], calls + [c])
  {
    hide CallsAs, Collected;
    var now := lists[c.caller := lists[c.caller] + [Callsite(c.info, c.callee)]];
    forall u, v, t | u in now && v in now ensures CallsAs(now[u], v, t) <==> Collected(calls + [c], u, v, t) {
      CollectedAppend(calls, c, u, v, t);
      CallsAsAppend(lists[u], Callsite(c.info, c.callee), v, t);
    }
  }

  lemma TypesKept(cs: seq<Callsite>, v: CGNode, t: CallType)
    ensures CallsAs(KeepFirst(cs), v, t) <==> CallsAs(cs, v, t)
  {
    hide KeepFirst;
    KeptIsPart(cs);
    if CallsAs(cs, v, t) {
      var k :| 0 <= k < |cs| && cs[k].node == v && cs[k].info.ctype == t;
      var d := Represented(cs, cs[k]);
    }
    if CallsAs(KeepFirst(cs), v, t) {
      var k :| 0 <= k < |KeepFirst(cs)| && KeepFirst(cs)[k].node == v && KeepFirst(cs)[k].info.ctype == t;
      assert KeepFirst(cs)[k] in cs;
    }
  }

  lemma NoTypeDropped(lists: CallLists, calls: seq<RecordedCall>, u: CGNode)
    requires TypesAre(lists, calls) && u in lists
    ensures TypesAre(lists[u := KeepFirst(lists[u])], calls)
  {
    hide CallsAs, Collected, KeepFirst;
    forall v, t ensures CallsAs(KeepFirst(lists[u]), v, t) <==> CallsAs(lists[u], v, t) {
      TypesKept(lists[u], v, t);
    }
  }

  /** Nodes as they are created: nothing is recorded. */
  lemma NothingRecorded(nt: NodeTable, size: nat)
    requires Indexed(nt)
    requires forall n :: n in nt.all ==> n.id < size && n.callees == [] && n.callerSet == {}
    ensures Recorded(nt, seq(size, _ => {}), size, []) && NoNullCallees(nt)
  {
    var g: Graph := seq(size, _ => {});
    forall i | i in nt.byId
      ensures i < |g| && g[i] == CalleeIds(nt.byId[i].callees) && KnownCallees(nt, nt.byId[i].callees)
    {
      assert nt.byId[i].id == i;
    }
    forall w | w in nt.all ensures w.callerSet <= nt.all && NodeIds(w.callerSet) == Preds(nt, g, {w.id}) {
      assert Preds(nt, g, {w.id}) == {};
    }
  }

  lemma OneMoreCall(g: Graph, calls: seq<RecordedCall>, c: RecordedCall)
    requires RelationOf(g, calls) && c.caller.id < |g|
    ensures RelationOf(WithCall(g, c.caller.id, c.callee.id), calls + [c])
  {
    forall u: nat, v: nat | u < |g|
      ensures v in WithCall(g, c.caller.id, c.callee.id)[u] <==> Calls(calls + [c], u, v)
    {
      CallsAppend(calls, [c], u, v);
      assert [c][0] == c;
    }
  }

  lemma CallsAppend(a: seq<RecordedCall>, b: seq<RecordedCall>, u: nat, v: nat)
    ensures Calls(a + b, u, v) <==> Calls(a, u, v) || Calls(b, u, v)
  {
    if Calls(a, u, v) {
      var i :| 0 <= i < |a| && a[i].caller.id == u && a[i].callee.id == v;
      assert (a + b)[i] == a[i];
    }
    if Calls(b, u, v) {
      var i :| 0 <= i < |b| && b[i].caller.id == u && b[i].callee.id == v;
      assert (a + b)[|a| + i] == b[i];
    }
  }

  lemma CallerKnown(nt: NodeTable, g: Graph, n: CGNode)
    requires GraphOf(nt, g) && n in nt.all
    ensures n.id < |g|
  {
  }

  /** The calls of the imported table, of the overriding functions, or of one body. */
  method RecordAll(calls: seq<RecordedCall>, ghost nt: NodeTable, ghost g: Graph, ghost before: seq<RecordedCall>)
    returns (ghost g': Graph)
    requires AmongNodes(nt, calls) && Recorded(nt, g, |g|, before) && NoNullCallees(nt)
    modifies nt.all`callees, nt.all`callerSet
    ensures |g'| == |g| && Recorded(nt, g', |g|, before + calls) && NoNullCallees(nt)
    ensures forall n :: n in nt.all && (forall i :: 0 <= i < |calls| ==> calls[i].caller != n) ==>
      n.callees == old(n.callees)
  {
    hide GraphOf, Symmetric, RelationOf, WithCall, TypesAre;
    g' := g;
    assert before + calls[..0] == before;
    var i := 0;
    while i < |calls|
      invariant 0 <= i <= |calls| && Recorded(nt, g', |g|, before + calls[..i]) && NoNullCallees(nt)
      invariant forall n :: n in nt.all && (forall k :: 0 <= k < |calls| ==> calls[k].caller != n) ==>
        n.callees == old(n.callees)
    {
      var c := calls[i];
      CallerKnown(nt, g', c.caller);
      OneMoreCall(g', before + calls[..i], c);
      SameSize(g', c.caller.id, c.callee.id);
      ghost var lists := ListsNow(nt);
      OneMoreType(lists, before + calls[..i], c);
      RecordCall(c.caller, c.info, c.callee, nt, g');
      assert ListsNow(nt) == lists[c.caller := lists[c.caller] + [Callsite(c.info, c.callee)]];
      g' := WithCall(g', c.caller.id, c.callee.id);
      assert before + calls[..i + 1] == before + calls[..i] + [c];
      i := i + 1;
    }
    assert calls[..i] == calls;
  }

  lemma SameSize(g: Graph, u: nat, v: nat)
    requires u < |g|
    ensures |WithCall(g, u, v)| == |g|
  {
  }

  /** Some call goes from `u` to `v`: an earlier one, or one that was found in a body. */
  ghost predicate SomeCall(earlier: seq<RecordedCall>, fs: seq<FunctionCalls>, u: nat, v: nat) {
    Calls(earlier, u, v) || exists i :: 0 <= i < |fs| && Calls(fs[i].calls, u, v)
  }

  /** The same with its type. */
  ghost predicate SomeTyped(earlier: seq<RecordedCall>, fs: seq<FunctionCalls>, u: CGNode, v: CGNode, t: CallType) {
    Collected(earlier, u, v, t) || exists i :: 0 <= i < |fs| && Collected(fs[i].calls, u, v, t)
  }

  /** The list of all calls holds the earlier ones and those of every function, and no other. */
  lemma {:induction false} AllCallsAre(earlier: seq<RecordedCall>, fs: seq<FunctionCalls>, u: nat, v: nat)
    ensures Calls(AllCalls(earlier, fs), u, v) <==> SomeCall(earlier, fs, u, v)
  {
    hide Calls;
    if fs != [] {
      var n := |fs| - 1;
      AllCallsAre(earlier, fs[..n], u, v);
      CallsAppend(AllCalls(earlier, fs[..n]), fs[n].calls, u, v);
      if i :| 0 <= i < |fs| && Calls(fs[i].calls, u, v) && i < n {
        assert fs[..n][i] == fs[i];
      }
    }
  }

  lemma CollectedConcat(a: seq<RecordedCall>, b: seq<RecordedCall>, u: CGNode, v: CGNode, t: CallType)
    ensures Collected(a + b, u, v, t) <==> Collected(a, u, v, t) || Collected(b, u, v, t)
  {
    var all := a + b;
    if Collected(a, u, v, t) {
      var i :| 0 <= i < |a| && a[i].caller == u && a[i].callee == v && a[i].info.ctype == t;
      assert all[i] == a[i];
    }
    if Collected(b, u, v, t) {
      var i :| 0 <= i < |b| && b[i].caller == u && b[i].callee == v && b[i].info.ctype == t;
      assert all[|a| + i] == b[i];
    }
  }

  lemma {:induction false} AllTypesAre(earlier: seq<RecordedCall>, fs: seq<FunctionCalls>, u: CGNode, v: CGNode,
                                       t: CallType)
    ensures Collected(AllCalls(earlier, fs), u, v, t) <==> SomeTyped(earlier, fs, u, v, t)
  {
    hide Collected;
    if fs != [] {
      var n := |fs| - 1;
      AllTypesAre(earlier, fs[..n], u, v, t);
      CollectedConcat(AllCalls(earlier, fs[..n]), fs[n].calls, u, v, t);
      if i :| 0 <= i < |fs| && Collected(fs[i].calls, u, v, t) && i < n {
        assert fs[..n][i] == fs[i];
      }
    }
  }

  /** What is in the graph and in the nodes, from the calls that were collected. */
  ghost predicate HoldsCalls(nt: NodeTable, g: Graph, earlier: seq<RecordedCall>, fs: seq<FunctionCalls>)
    reads nt.all`callees
  {
    && (forall u: nat, v: nat :: u < |g| ==> (v in g[u] <==> SomeCall(earlier, fs, u, v)))
    && (forall u, v, t :: u in nt.all && v in nt.all ==>
          (CallsAs(u.callees, v, t) <==> SomeTyped(earlier, fs, u, v, t)))
  }

  lemma RecordedHolds(nt: NodeTable, g: Graph, size: nat, earlier: seq<RecordedCall>, fs: seq<FunctionCalls>)
    requires Recorded(nt, g, size, AllCalls(earlier, fs))
    ensures |g| == size && HoldsCalls(nt, g, earlier, fs)
  {
    hide GraphOf, Symmetric, Calls, Collected, CallsAs, SomeCall, SomeTyped, AllCalls;
    forall u: nat, v: nat | u < |g| ensures v in g[u] <==> SomeCall(earlier, fs, u, v) {
      AllCallsAre(earlier, fs, u, v);
    }
    forall u, v, t | u in nt.all && v in nt.all ensures CallsAs(u.callees, v, t) <==> SomeTyped(earlier, fs, u, v, t) {
      AllTypesAre(earlier, fs, u, v, t);
      assert ListsNow(nt)[u] == u.callees;
    }
  }

  /** One function with a body: what is collected from it is recorded, and repeated call sites are
      dropped at once. */
  method HandleFunction(f: FunctionCalls, ghost nt: NodeTable, ghost g: Graph, ghost before: seq<RecordedCall>)
    returns (ghost g': Graph)
    requires f.node in nt.all && AmongNodes(nt, f.calls) && Recorded(nt, g, |g|, before) && NoNullCallees(nt)
    requires forall k :: 0 <= k < |f.calls| ==> f.calls[k].caller == f.node
    modifies nt.all`callees, nt.all`callerSet
    ensures |g'| == |g| && Recorded(nt, g', |g|, before + f.calls) && NoNullCallees(nt)
    ensures NoRepeats(f.node.callees, |f.node.callees|)
    ensures forall n :: n in nt.all && n != f.node ==> n.callees == old(n.callees)
  {
    hide GraphOf, Symmetric, RelationOf, TypesAre, KeepFirst, NoRepeats;
    g' := RecordAll(f.calls, nt, g, before);
    ghost var cs, lists := f.node.callees, ListsNow(nt);
    NoTypeDropped(lists, before + f.calls, f.node);
    DropRepeated(f.node, nt, g');
    assert ListsNow(nt) == lists[f.node := KeepFirst(cs)];
    KeepFirstKeeps(cs);
  }

  /** CallGraph::GenCallGraph up to the search for roots: imported calls and overrides, and then
      every function with a body. */
  method GenCallGraph(earlier: seq<RecordedCall>, functions: seq<FunctionCalls>, ghost nt: NodeTable, size: nat)
    returns (ghost g: Graph)
    requires Indexed(nt) && AmongNodes(nt, earlier) && FunctionsAmong(nt, functions)
    requires forall n :: n in nt.all ==> n.id < size && n.callees == [] && n.callerSet == {}
    modifies nt.all`callees, nt.all`callerSet
    ensures Recorded(nt, g, size, AllCalls(earlier, functions)) && NoNullCallees(nt)
    ensures |g| == size && HoldsCalls(nt, g, earlier, functions)
    ensures forall i :: 0 <= i < |functions| ==> NoRepeats(functions[i].node.callees, |functions[i].node.callees|)
  {
    hide Recorded, NoNullCallees, NoRepeats, HoldsCalls;
    g := seq(size, _ => {});
    NothingRecorded(nt, size);
    g := RecordAll(earlier, nt, g, []);
    assert [] + earlier == earlier && functions[..0] == [];
    var i := 0;
    while i < |functions|
      invariant 0 <= i <= |functions| && |g| == size
      invariant Recorded(nt, g, size, AllCalls(earlier, functions[..i])) && NoNullCallees(nt)
      invariant forall k :: 0 <= k < i ==> NoRepeats(functions[k].node.callees, |functions[k].node.callees|)
    {
      assert functions[..i + 1][..i] == functions[..i];
      g := HandleFunction(functions[i], nt, g, AllCalls(earlier, functions[..i]));
      i := i + 1;
    }
    assert functions[..i] == functions;
    RecordedHolds(nt, g, size, earlier, functions);
  }

  /** After the construction `v` is a callee of `u` if and only if `u` is in the caller set of `v`,
      and if and only if such a call was recorded. */
  lemma CallersAreCallees(nt: NodeTable, g: Graph, size: nat, calls: seq<RecordedCall>, u: CGNode, v: CGNode)
    requires Recorded(nt, g, size, calls) && u in nt.all && v in nt.all
    ensures u in v.callerSet <==> exists c :: c in u.callees && c.node == v
    ensures u in v.callerSet <==> Calls(calls, u.id, v.id)
  {
    hide Calls, TypesAre;
    assert nt.byId[u.id] == u && nt.byId[v.id] == v;
    assert u.id in Preds(nt, g, {v.id}) <==> v.id in g[u.id];
    if u.id in NodeIds(v.callerSet) {
      var n :| n in v.callerSet && n.id == u.id;
      assert nt.byId[n.id] == n;
    }
    if v.id in CalleeIds(u.callees) {
      var c :| c in u.callees && c.node != null && c.node.id == v.id;
      assert KnownCallees(nt, u.callees);
    }
  }

  // ---------------------------------------------------------------- searching for a callee

  predicate Contains(s: string, part: string) {
    exists i :: 0 <= i <= |s| && part <= s[i..]
  }

  function GetMIRFuncName(n: CGNode): string {
    if n.mirFunc.Some? then n.mirFunc.value.name else ""
  }

  /** How many entries of the queue were visited before. */
  ghost function VisitedIn(queue: seq<CGNode>, visited: set<CGNode>): nat {
    if queue == [] then 0 else (if queue[0] in visited then 1 else 0) + VisitedIn(queue[1..], visited)
  }

  lemma {:induction false} VisitedInAppend(queue: seq<CGNode>, n: CGNode, visited: set<CGNode>)
    requires n !in visited
    ensures VisitedIn(queue + [n], visited) == VisitedIn(queue, visited)
  {
    if queue != [] {
      assert (queue + [n])[1..] == queue[1..] + [n];
      VisitedInAppend(queue[1..], n, visited);
    }
  }

  ghost predicate NoNullCallees(nt: NodeTable)
    reads nt.all`callees
  {
    forall n, i :: n in nt.all && 0 <= i < |n.callees| ==> n.callees[i].node != null
  }

  /** The first `k` callees of `n` are visited or queued. */
  ghost predicate CalleesSeen(n: CGNode, k: nat, visited: set<CGNode>, queue: seq<CGNode>)
    reads n`callees
  {
    forall i :: 0 <= i < k && i < |n.callees| && n.callees[i].node != null ==>
      n.callees[i].node in visited || n.callees[i].node in queue
  }

  /** What the search knows: everything visited and queued is reached from the start, callees of
      what was visited are visited or queued, and no visited name matches. */
  ghost predicate Searching(nt: NodeTable, g: Graph, start: CGNode, part: string, visited: set<CGNode>,
                            queue: seq<CGNode>)
    reads nt.all`callees
  {
    && visited <= nt.all && (start in visited || start in queue)
    && (forall n :: n in queue ==> n in nt.all)
    && (forall n :: n in visited ==> Reach(g, start.id, n.id))
    && (forall n :: n in queue ==> Reach(g, start.id, n.id))
    && (forall n :: n in visited ==> !Contains(GetMIRFuncName(n), part))
    && (forall n :: n in visited ==> CalleesSeen(n, |n.callees|, visited, queue))
  }

  /** Some node that is reached from `start` has a name with `part` in it. */
  ghost predicate SomeReachedNamed(nt: NodeTable, g: Graph, start: CGNode, part: string) {
    exists n :: n in nt.all && Reach(g, start.id, n.id) && Contains(GetMIRFuncName(n), part)
  }

  /** `part` may stand anywhere in the string. */
  lemma ContainsExactly(s: string, part: string)
    ensures Contains(s, part) <==> exists a: string, b: string :: s == a + part + b
  {
    if Contains(s, part) {
      var i :| 0 <= i <= |s| && part <= s[i..];
      assert s == s[..i] + part + s[i + |part|..];
    }
    if a: string, b: string :| s == a + part + b {
      assert s[|a|..] == part + b;
    }
  }

  /** CGNode::HasCalleeFunc.  A node may be queued, and looked at, several times. */
  method HasCalleeFunc(start: CGNode, calleename: string, ghost nt: NodeTable, ghost g: Graph) returns (result: bool)
    requires GraphOf(nt, g) && start in nt.all && NoNullCallees(nt)
    ensures result <==> SomeReachedNamed(nt, g, start, calleename)
  {
    hide GraphOf, Contains, Reach, NoNullCallees, Searching;
    var callees, visited := [start], {};
    SearchBegins(nt, g, start, calleename);
    while callees != []
      invariant Searching(nt, g, start, calleename, visited, callees)
      decreases nt.all - visited, VisitedIn(callees, visited)
    {
      var curr := callees[0];
      ghost var before, queue := visited, callees;
      CurrKnown(nt, g, start, calleename, visited, callees);
      callees := callees[1..];
      visited := visited + {curr};
      if Contains(GetMIRFuncName(curr), calleename) {
        return true;
      }
      assert if curr in before then visited == before else nt.all - visited < nt.all - before by {
        assert curr !in before ==> curr in nt.all - before;
      }
      callees := PushUnvisited(curr, visited, callees, nt);
      SearchGoesOn(nt, g, start, calleename, before, queue, callees);
    }
    SearchEnds(nt, g, start, calleename, visited);
    return false;
  }

  method PushUnvisited(curr: CGNode, visited: set<CGNode>, queue: seq<CGNode>, ghost nt: NodeTable)
    returns (callees: seq<CGNode>)
    requires curr in nt.all && NoNullCallees(nt)
    ensures queue <= callees && VisitedIn(callees, visited) == VisitedIn(queue, visited)
    ensures CalleesSeen(curr, |curr.callees|, visited, callees)
    ensures forall n :: n in callees ==> n in queue || exists i :: 0 <= i < |curr.callees| && curr.callees[i].node == n
  {
    callees := queue;
    var i := 0;
    while i < |curr.callees|
      invariant 0 <= i <= |curr.callees| && queue <= callees && VisitedIn(callees, visited) == VisitedIn(queue, visited)
      invariant CalleesSeen(curr, i, visited, callees)
      invariant forall n :: n in callees ==> n in queue || exists k :: 0 <= k < i && curr.callees[k].node == n
    {
      var cs := curr.callees[i];
      if cs.node !in visited {
        VisitedInAppend(callees, cs.node, visited);
        callees := callees + [cs.node];
      }
      i := i + 1;
    }
  }

  lemma SearchBegins(nt: NodeTable, g: Graph, start: CGNode, part: string)
    requires GraphOf(nt, g) && start in nt.all
    ensures Searching(nt, g, start, part, {}, [start])
  {
    ReachRefl(g, start.id);
  }

  lemma CurrKnown(nt: NodeTable, g: Graph, start: CGNode, part: string, visited: set<CGNode>, queue: seq<CGNode>)
    requires Searching(nt, g, start, part, visited, queue) && queue != []
    ensures queue[0] in nt.all && Reach(g, start.id, queue[0].id)
    ensures visited <= nt.all
  {
  }

  lemma CalleeReached(nt: NodeTable, g: Graph, start: CGNode, curr: CGNode, i: nat)
    requires GraphOf(nt, g) && curr in nt.all && Reach(g, start.id, curr.id) && i < |curr.callees|
    requires curr.callees[i].node != null
    ensures curr.callees[i].node in nt.all && Reach(g, start.id, curr.callees[i].node.id)
  {
    GraphOfValid(nt, g);
    assert curr.callees[i] in curr.callees;
    assert curr.callees[i].node.id in g[curr.id];
    ReachEdge(g, curr.id, curr.callees[i].node.id);
    ReachTrans(g, start.id, curr.id, curr.callees[i].node.id);
  }

  lemma SearchGoesOn(nt: NodeTable, g: Graph, start: CGNode, part: string, visited: set<CGNode>, queue: seq<CGNode>,
                     queue': seq<CGNode>)
    requires GraphOf(nt, g) && Searching(nt, g, start, part, visited, queue) && queue != [] && queue[1..] <= queue'
    requires !Contains(GetMIRFuncName(queue[0]), part)
    requires CalleesSeen(queue[0], |queue[0].callees|, visited + {queue[0]}, queue')
    requires forall n ::
      n in queue' ==> n in queue[1..] || exists i :: 0 <= i < |queue[0].callees| && queue[0].callees[i].node == n
    ensures Searching(nt, g, start, part, visited + {queue[0]}, queue')
  {
    hide GraphOf, Contains, Reach;
    var curr := queue[0];
    forall n | n in queue' ensures n in nt.all && Reach(g, start.id, n.id) {
      if n !in queue[1..] {
        var i :| 0 <= i < |curr.callees| && curr.callees[i].node == n;
        CalleeReached(nt, g, start, curr, i);
      }
    }
    assert forall n :: n in queue ==> n == curr || n in queue';
  }

  lemma SearchEnds(nt: NodeTable, g: Graph, start: CGNode, part: string, visited: set<CGNode>)
    requires GraphOf(nt, g) && NoNullCallees(nt) && start in nt.all && Searching(nt, g, start, part, visited, [])
    ensures !SomeReachedNamed(nt, g, start, part)
  {
    hide Contains;
    var c := set n | n in visited :: n.id;
    forall u, v | u in c && u < |g| && v in g[u] ensures v in c {
      var n :| n in visited && n.id == u;
      assert n in nt.all && nt.byId[u] == n;
      var cs :| cs in n.callees && cs.node != null && cs.node.id == v;
      var i :| 0 <= i < |n.callees| && n.callees[i] == cs;
      assert CalleesSeen(n, |n.callees|, visited, []);
      assert cs.node in visited;
    }
    forall n | n in nt.all && Reach(g, start.id, n.id) ensures !Contains(GetMIRFuncName(n), part) {
      ClosedReach(g, c, start.id, n.id);
      var m :| m in visited && m.id == n.id;
      assert nt.byId[m.id] == m && nt.byId[n.id] == n;
    }
  }
}
