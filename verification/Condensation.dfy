/** SCCNode::Setup: the caller and callee sets of the strongly connected components. */
module Condensation {
  import opened Reachability
  import opened CallGraphNodes
  import opened Sequences
  import opened SccSearch

  /** Some node of component `k` calls some node of the other component `j`. */
  ghost predicate SccEdge(g: Graph, comp: seq<int>, k: int, j: int) {
    k != j && exists v, w :: 0 <= v < |g| && v < |comp| && w in g[v] && w < |comp| && comp[v] == k && comp[w] == j
  }

  /** The components, other than `k`, that the nodes `ws` are in. */
  ghost function SccsOf(comp: seq<int>, sccNodes: seq<SCCNode>, ws: set<nat>, k: int): set<SCCNode> {
    set w | w in ws && w < |comp| && 0 <= comp[w] < |sccNodes| && comp[w] != k :: sccNodes[comp[w]]
  }

  ghost function Ids(ns: seq<CGNode>): set<nat> {
    set n | n in ns :: n.id
  }

  ghost function Succs(g: Graph, vs: set<nat>): set<nat> {
    set v, w | v in vs && v < |g| && w in g[v] :: w
  }

  ghost function NodeIds(ns: set<CGNode>): set<nat> {
    set n | n in ns :: n.id
  }

  /** The callers of the nodes `vs`. */
  ghost function Preds(nt: NodeTable, g: Graph, vs: set<nat>): set<nat> {
    set u | u in nt.byId && u < |g| && (exists v :: v in vs && v in g[u])
  }

  /** `v` calls `w` exactly when `v` is in the caller set of `w`. */
  ghost predicate Symmetric(nt: NodeTable, g: Graph)
    reads nt.all`callerSet
  {
    forall w :: w in nt.all ==> w.callerSet <= nt.all && NodeIds(w.callerSet) == Preds(nt, g, {w.id})
  }

  /** Every node is in a component, and points to its object. */
  ghost predicate Placed(nt: NodeTable, g: Graph, comp: seq<int>, sccNodes: seq<SCCNode>)
    reads nt.all`sccNode, nt.all`callees
  {
    && GraphOf(nt, g) && |comp| == |g|
    && PointersAre(nt, comp, sccNodes)
    && (forall i :: i in nt.byId ==> comp[i] >= 0)
  }

  lemma PlacedNode(nt: NodeTable, g: Graph, comp: seq<int>, sccNodes: seq<SCCNode>, n: CGNode)
    requires Placed(nt, g, comp, sccNodes) && n in nt.all
    ensures n.id < |comp| && 0 <= comp[n.id] < |sccNodes| && n.sccNode == sccNodes[comp[n.id]]
  {
    assert PointsTo(comp, sccNodes, n.id, nt.byId[n.id].sccNode);
  }

  /** One node's share of Setup (callgraph.cpp:1547-1565). */
  method SetupNode(scc: SCCNode, node: CGNode, ghost nt: NodeTable, ghost g: Graph, ghost comp: seq<int>,
                   ghost sccNodes: seq<SCCNode>)
    requires Placed(nt, g, comp, sccNodes) && Symmetric(nt, g) && node in nt.all
    requires forall j, k :: 0 <= j < k < |sccNodes| ==> sccNodes[j] != sccNodes[k]
    requires scc.id < |sccNodes| && sccNodes[scc.id] == scc
    modifies scc`calleeScc, scc`callerScc
    ensures node.id < |g|
    ensures scc.calleeScc == old(scc.calleeScc) + SccsOf(comp, sccNodes, g[node.id], scc.id)
    ensures scc.callerScc == old(scc.callerScc) + SccsOf(comp, sccNodes, Preds(nt, g, {node.id}), scc.id)
  {
    hide Placed, Symmetric, SccsOf;
    PlacedId(nt, g, comp, sccNodes, node);
    AddCallees(scc, node, nt, g, comp, sccNodes);
    AddCallers(scc, node, nt, g, comp, sccNodes);
  }

  lemma PlacedId(nt: NodeTable, g: Graph, comp: seq<int>, sccNodes: seq<SCCNode>, n: CGNode)
    requires Placed(nt, g, comp, sccNodes) && n in nt.all
    ensures n.id < |g|
  {
  }

  method AddCallers(scc: SCCNode, node: CGNode, ghost nt: NodeTable, ghost g: Graph, ghost comp: seq<int>,
                    ghost sccNodes: seq<SCCNode>)
    requires Placed(nt, g, comp, sccNodes) && Symmetric(nt, g) && node in nt.all
    requires forall j, k :: 0 <= j < k < |sccNodes| ==> sccNodes[j] != sccNodes[k]
    requires scc.id < |sccNodes| && sccNodes[scc.id] == scc
    modifies scc`callerScc
    ensures scc.callerScc == old(scc.callerScc) + SccsOf(comp, sccNodes, Preds(nt, g, {node.id}), scc.id)
  {
    hide Preds, SccsOf, Placed;
    var rest := node.callerSet;
    ghost var seen := {};
    SccsOfNone(comp, sccNodes, scc.id);
    while rest != {}
      invariant rest + seen == node.callerSet
      invariant scc.callerScc == old(scc.callerScc) + SccsOf(comp, sccNodes, NodeIds(seen), scc.id)
      decreases rest
    {
      var callerNode :| callerNode in rest;
      rest := rest - {callerNode};
      PlacedNode(nt, g, comp, sccNodes, callerNode);
      AddOne(comp, sccNodes, NodeIds(seen), callerNode.id, scc.id);
      assert NodeIds(seen + {callerNode}) == NodeIds(seen) + {callerNode.id};
      seen := seen + {callerNode};
      if callerNode.sccNode != scc {
        scc.callerScc := scc.callerScc + {callerNode.sccNode};
      }
    }
    assert seen == node.callerSet;
  }

  lemma SccsOfNone(comp: seq<int>, sccNodes: seq<SCCNode>, k: int)
    ensures SccsOf(comp, sccNodes, NodeIds({}), k) == {}
  {
  }

  lemma AddOne(comp: seq<int>, sccNodes: seq<SCCNode>, ws: set<nat>, w: nat, k: int)
    requires w < |comp| && 0 <= comp[w] < |sccNodes|
    ensures SccsOf(comp, sccNodes, ws + {w}, k) ==
      SccsOf(comp, sccNodes, ws, k) + if comp[w] != k then {sccNodes[comp[w]]} else {}
  {
  }

  method AddCallees(scc: SCCNode, node: CGNode, ghost nt: NodeTable, ghost g: Graph, ghost comp: seq<int>,
                    ghost sccNodes: seq<SCCNode>)
    requires Placed(nt, g, comp, sccNodes) && node in nt.all
    requires forall j, k :: 0 <= j < k < |sccNodes| ==> sccNodes[j] != sccNodes[k]
    requires scc.id < |sccNodes| && sccNodes[scc.id] == scc
    modifies scc`calleeScc
    ensures node.id < |g|
    ensures scc.calleeScc == old(scc.calleeScc) + SccsOf(comp, sccNodes, g[node.id], scc.id)
  {
    assert CalleeIds(node.callees[..0]) == {};
    var i := 0;
    while i < |node.callees|
      invariant i <= |node.callees|
      invariant scc.calleeScc == old(scc.calleeScc) + SccsOf(comp, sccNodes, CalleeIds(node.callees[..i]), scc.id)
    {
      CalleeIdsStep(node.callees, i);
      var calleeNode := node.callees[i].node;
      if calleeNode != null {
        CalleeKnown(nt, g, node, i);
        PlacedNode(nt, g, comp, sccNodes, calleeNode);
        AddOne(comp, sccNodes, CalleeIds(node.callees[..i]), calleeNode.id, scc.id);
        if calleeNode.sccNode != scc {
          scc.calleeScc := scc.calleeScc + {calleeNode.sccNode};
        }
      }
      i := i + 1;
    }
    assert node.callees[..i] == node.callees;
    CalleesAreEdges(nt, g, node);
  }

  lemma SccsOfUnion(comp: seq<int>, sccNodes: seq<SCCNode>, a: set<nat>, b: set<nat>, k: int)
    ensures SccsOf(comp, sccNodes, a + b, k) == SccsOf(comp, sccNodes, a, k) + SccsOf(comp, sccNodes, b, k)
  {
  }

  method Setup(scc: SCCNode, ghost nt: NodeTable, ghost g: Graph, ghost comp: seq<int>, ghost sccNodes: seq<SCCNode>)
    requires Placed(nt, g, comp, sccNodes) && Symmetric(nt, g)
    requires forall j, k :: 0 <= j < k < |sccNodes| ==> sccNodes[j] != sccNodes[k]
    requires scc.id < |sccNodes| && sccNodes[scc.id] == scc
    requires scc.calleeScc == {} && scc.callerScc == {}
    requires forall n :: n in scc.cgNodes ==> n in nt.all
    modifies scc`calleeScc, scc`callerScc
    ensures scc.calleeScc == SccsOf(comp, sccNodes, Succs(g, Ids(scc.cgNodes)), scc.id)
    ensures scc.callerScc == SccsOf(comp, sccNodes, Preds(nt, g, Ids(scc.cgNodes)), scc.id)
  {
    hide Placed, Symmetric, SccsOf;
    var i := 0;
    SetupEmpty(nt, g, comp, sccNodes, scc.id);
    assert scc.cgNodes[..0] == [];
    while i < |scc.cgNodes|
      invariant i <= |scc.cgNodes|
      invariant scc.calleeScc == SccsOf(comp, sccNodes, Succs(g, Ids(scc.cgNodes[..i])), scc.id)
      invariant scc.callerScc == SccsOf(comp, sccNodes, Preds(nt, g, Ids(scc.cgNodes[..i])), scc.id)
    {
      SetupNode(scc, scc.cgNodes[i], nt, g, comp, sccNodes);
      SetupStep(nt, g, comp, sccNodes, scc.id, scc.cgNodes, i);
      i := i + 1;
    }
    assert scc.cgNodes[..i] == scc.cgNodes;
  }

  lemma SetupEmpty(nt: NodeTable, g: Graph, comp: seq<int>, sccNodes: seq<SCCNode>, k: int)
    ensures SccsOf(comp, sccNodes, Succs(g, Ids([])), k) == {} && SccsOf(comp, sccNodes, Preds(nt, g, Ids([])), k) == {}
  {
  }

  lemma SetupStep(nt: NodeTable, g: Graph, comp: seq<int>, sccNodes: seq<SCCNode>, k: int, ns: seq<CGNode>, i: nat)
    requires i < |ns| && ns[i].id < |g|
    ensures SccsOf(comp, sccNodes, Succs(g, Ids(ns[..i + 1])), k)
         == SccsOf(comp, sccNodes, Succs(g, Ids(ns[..i])), k) + SccsOf(comp, sccNodes, g[ns[i].id], k)
    ensures SccsOf(comp, sccNodes, Preds(nt, g, Ids(ns[..i + 1])), k)
         == SccsOf(comp, sccNodes, Preds(nt, g, Ids(ns[..i])), k) + SccsOf(comp, sccNodes, Preds(nt, g, {ns[i].id}), k)
  {
    hide SccsOf;
    assert ns[..i + 1] == ns[..i] + [ns[i]];
    assert Ids(ns[..i + 1]) == Ids(ns[..i]) + {ns[i].id};
    assert Succs(g, Ids(ns[..i + 1])) == Succs(g, Ids(ns[..i])) + g[ns[i].id];
    assert Preds(nt, g, Ids(ns[..i + 1])) == Preds(nt, g, Ids(ns[..i])) + Preds(nt, g, {ns[i].id});
    SccsOfUnion(comp, sccNodes, Succs(g, Ids(ns[..i])), g[ns[i].id], k);
    SccsOfUnion(comp, sccNodes, Preds(nt, g, Ids(ns[..i])), Preds(nt, g, {ns[i].id}), k);
  }

  // ---------------------------------------------------------------- the condensation as a whole

  /** Setup has run on every component. */
  ghost predicate AllSetUp(nt: NodeTable, g: Graph, comp: seq<int>, sccNodes: seq<SCCNode>)
    reads sccNodes
  {
    forall k :: 0 <= k < |sccNodes| ==> SetUp(nt, g, comp, sccNodes, k)
  }

  ghost predicate SetUp(nt: NodeTable, g: Graph, comp: seq<int>, sccNodes: seq<SCCNode>, k: nat)
    requires k < |sccNodes|
    reads sccNodes[k]
  {
    && sccNodes[k].id == k
    && (forall v :: v in Ids(sccNodes[k].cgNodes) <==> v in nt.byId && v < |comp| && comp[v] == k)
    && sccNodes[k].calleeScc == SccsOf(comp, sccNodes, Succs(g, Ids(sccNodes[k].cgNodes)), k)
    && sccNodes[k].callerScc == SccsOf(comp, sccNodes, Preds(nt, g, Ids(sccNodes[k].cgNodes)), k)
  }

  ghost predicate EdgesAmong(nt: NodeTable, g: Graph) {
    && (forall i :: i in nt.byId ==> i < |g|)
    && (forall i: nat, v: nat :: i < |g| && v in g[i] ==> i in nt.byId)
    && (forall i: nat, v: nat :: i < |g| && v in g[i] ==> v in nt.byId)
  }

  /** callee sets, caller sets and the call relation of the nodes say the same. */
  lemma SetUpEdges(nt: NodeTable, g: Graph, comp: seq<int>, sccNodes: seq<SCCNode>, k: nat, j: nat)
    requires AllSetUp(nt, g, comp, sccNodes) && Distinct(sccNodes) && k < |sccNodes| && j < |sccNodes|
    requires |comp| == |g| && EdgesAmong(nt, g)
    ensures sccNodes[j] in sccNodes[k].calleeScc <==> SccEdge(g, comp, k, j)
    ensures sccNodes[k] in sccNodes[j].callerScc <==> SccEdge(g, comp, k, j)
  {
    assert SetUp(nt, g, comp, sccNodes, k) && SetUp(nt, g, comp, sccNodes, j);
    CalleeSide(nt, g, comp, sccNodes, k, j);
    CallerSide(nt, g, comp, sccNodes, k, j);
  }

  lemma CalleeSide(nt: NodeTable, g: Graph, comp: seq<int>, sccNodes: seq<SCCNode>, k: nat, j: nat)
    requires k < |sccNodes| && j < |sccNodes| && SetUp(nt, g, comp, sccNodes, k) && Distinct(sccNodes)
    requires |comp| == |g| && EdgesAmong(nt, g)
    ensures sccNodes[j] in sccNodes[k].calleeScc <==> SccEdge(g, comp, k, j)
  {
    var vs := Ids(sccNodes[k].cgNodes);
    if SccEdge(g, comp, k, j) {
      var v: nat, w: nat :| v < |g| && v < |comp| && w in g[v] && w < |comp| && comp[v] == k && comp[w] == j;
      assert w in g[v];
      assert v in nt.byId;
      assert v in vs && w in Succs(g, vs);
    }
    if sccNodes[j] in sccNodes[k].calleeScc {
      var w :| w in Succs(g, vs) && w < |comp| && 0 <= comp[w] < |sccNodes|
        && comp[w] != k && sccNodes[comp[w]] == sccNodes[j];
      var v :| v in vs && v < |g| && w in g[v];
      assert comp[v] == k && comp[w] == j;
    }
  }

  lemma CallerSide(nt: NodeTable, g: Graph, comp: seq<int>, sccNodes: seq<SCCNode>, k: nat, j: nat)
    requires k < |sccNodes| && j < |sccNodes| && SetUp(nt, g, comp, sccNodes, j) && Distinct(sccNodes)
    requires |comp| == |g| && EdgesAmong(nt, g)
    ensures sccNodes[k] in sccNodes[j].callerScc <==> SccEdge(g, comp, k, j)
  {
    var vs := Ids(sccNodes[j].cgNodes);
    if SccEdge(g, comp, k, j) {
      var v: nat, w: nat :| v < |g| && v < |comp| && w in g[v] && w < |comp| && comp[v] == k && comp[w] == j;
      assert w in vs && v in Preds(nt, g, vs);
    }
    if sccNodes[k] in sccNodes[j].callerScc {
      var v :| v in Preds(nt, g, vs) && v < |comp| && 0 <= comp[v] < |sccNodes| && comp[v] != j
        && sccNodes[comp[v]] == sccNodes[k];
      var w :| w in vs && w in g[v];
      assert comp[v] == k && comp[w] == j;
    }
  }
}
