/** CallGraph: finding the roots, building the SCCs and setting the compilation order. */
module CallGraphs {
  import opened Options
  import opened Reachability
  import opened Sequences
  import opened CallGraphNodes
  import opened Tarjan
  import opened SccSearch
  import opened Condensation
  import opened SccTopologicalSort
  import opened CallSites
  import VirtualCalls

  ghost function NonNull(nodesMap: seq<CGNode?>): set<CGNode> {
    set n: CGNode | n in nodesMap
  }

  ghost function Members(ns: seq<CGNode>): set<CGNode> {
    set n | n in ns
  }

  /** The nodes of nodesMap and their call relation, as the construction leaves them. */
  ghost predicate WellBuilt(nodesMap: seq<CGNode?>, nt: NodeTable, g: Graph)
    reads nt.all`callees, nt.all`callerSet
  {
    && nt.all == NonNull(nodesMap)
    && GraphOf(nt, g) && Symmetric(nt, g)
  }

  /** nodesMap with its nodes as GetOrGenCGNode creates them: without calls and without SCC. */
  ghost predicate Created(nodesMap: seq<CGNode?>, nt: NodeTable, numOfNodes: nat)
    reads nt.all`callees, nt.all`callerSet, nt.all`sccNode
  {
    && nt.all == NonNull(nodesMap) && Indexed(nt)
    && (forall i, j :: 0 <= i < j < |nodesMap| && nodesMap[i] != null ==> nodesMap[i] != nodesMap[j])
    && (forall n :: n in nt.all ==> n.id < numOfNodes && n.callees == [] && n.callerSet == {} && n.sccNode == null)
  }

  /** rootNodes lists the nodes without callers, each once. */
  ghost predicate RootsOf(rootNodes: seq<CGNode>, nt: NodeTable)
    reads nt.all`callerSet
  {
    && Distinct(rootNodes)
    && Members(rootNodes) == set n | n in nt.all && n.callerSet == {}
  }

  /** CallGraph::FindRootNodes. */
  method FindRootNodes(nodesMap: seq<CGNode?>, ghost nt: NodeTable) returns (rootNodes: seq<CGNode>)
    requires nt.all == NonNull(nodesMap)
    requires forall i, j :: 0 <= i < j < |nodesMap| && nodesMap[i] != null ==> nodesMap[i] != nodesMap[j]
    ensures RootsOf(rootNodes, nt)
  {
    rootNodes := [];
    var i := 0;
    while i < |nodesMap|
      invariant i <= |nodesMap|
      invariant Distinct(rootNodes)
      invariant Members(rootNodes) == set n | n in NonNull(nodesMap[..i]) && n.callerSet == {}
    {
      var node := nodesMap[i];
      assert nodesMap[..i + 1] == nodesMap[..i] + [node];
      assert NonNull(nodesMap[..i + 1]) == NonNull(nodesMap[..i]) + if node != null then {node} else {};
      if node != null && node.callerSet == {} {
        assert node !in nodesMap[..i] && node !in Members(rootNodes);
        assert Members(rootNodes + [node]) == Members(rootNodes) + {node};
        rootNodes := rootNodes + [node];
      }
      i := i + 1;
    }
    assert nodesMap[..i] == nodesMap;
  }

  /** The search between two top-level calls. */
  ghost predicate Idle(st: DfsState, nt: NodeTable, g: Graph)
    reads st, st.sccNodes, nt.all`sccNode, nt.all`callees
  {
    Running(st, nt, g) && Inv(g, st.Abs(), {})
  }

  lemma IdleDone(st: DfsState, nt: NodeTable, g: Graph)
    requires Idle(st, nt, g)
    ensures forall n :: n in nt.all ==> (Visited(st.Abs(), n.id) <==> n.sccNode != null)
    ensures forall n :: n in nt.all ==> n.id < |g| && n.id in nt.byId && nt.byId[n.id] == n
  {
    hide Inv;
    TopLevelDone(g, st.Abs());
    forall n | n in nt.all ensures Visited(st.Abs(), n.id) <==> n.sccNode != null {
      assert PointsTo(st.comp, st.sccNodes, n.id, nt.byId[n.id].sccNode);
    }
  }

  /** Only nodes that some node of `from` reaches are visited. */
  ghost predicate VisitedFrom(g: Graph, s: Search, from: seq<CGNode>) {
    forall v: nat :: Visited(s, v) ==> ReachedBy(g, from, v)
  }

  ghost predicate ReachedBy(g: Graph, from: seq<CGNode>, v: nat) {
    exists j :: 0 <= j < |from| && Reach(g, from[j].id, v)
  }

  /** A top-level call of BuildSCCDFS. */
  method SearchFrom(root: CGNode, st: DfsState, ghost nt: NodeTable, ghost g: Graph)
    requires Idle(st, nt, g) && root in nt.all && !Visited(st.Abs(), root.id)
    modifies st, nt.all`sccNode
    ensures Idle(st, nt, g) && root.sccNode != null
    ensures VisitsReachable(g, old(st.Abs()), st.Abs(), root.id)
    ensures forall n :: n in nt.all && old(n.sccNode) != null ==> n.sccNode != null
    ensures forall scc :: scc in st.sccNodes ==> scc in old(st.sccNodes) || fresh(scc)
  {
    hide Inv, Reach, GraphOf, DfsState.Linked, LowKept, VisitsReachable;
    IdleDone(st, nt, g);
    BuildSCCDFS(root, st, nt, g, {});
    ghost var s0, s := old(st.Abs()), st.Abs();
    ReturnedFacts(g, s0, s, root.id, st.lowestOrder[root.id]);
    IdleDone(st, nt, g);
  }

  lemma ReturnedFacts(g: Graph, s0: Search, s: Search, u: nat, low: nat)
    requires Returned(g, s0, s, {}, u, low)
    ensures Inv(g, s, {}) && Visited(s, u) && VisitsReachable(g, s0, s, u)
    ensures forall v: nat :: Visited(s0, v) ==> Visited(s, v)
  {
  }

  lemma RootUnvisited(nodesMap: seq<CGNode?>, nt: NodeTable, g: Graph, s: Search, rootNodes: seq<CGNode>, k: nat)
    requires WellBuilt(nodesMap, nt, g) && RootsOf(rootNodes, nt) && k < |rootNodes|
    requires VisitedFrom(g, s, rootNodes[..k])
    ensures !Visited(s, rootNodes[k].id)
  {
    hide Reach;
    var r := rootNodes[k];
    assert r in Members(rootNodes);
    NoCallers(nt, g, r);
    if Visited(s, r.id) {
      assert ReachedBy(g, rootNodes[..k], r.id);
      var j :| 0 <= j < k && Reach(g, rootNodes[..k][j].id, r.id);
      assert rootNodes[j] in Members(rootNodes) && rootNodes[j] != r;
      var w := ReachLastEdge(g, rootNodes[j].id, r.id);
    }
  }

  lemma NoCallers(nt: NodeTable, g: Graph, r: CGNode)
    requires GraphOf(nt, g) && Symmetric(nt, g) && r in nt.all && r.callerSet == {}
    ensures forall w: nat :: w < |g| ==> r.id !in g[w]
  {
    assert NodeIds(r.callerSet) == {};
    forall w: nat | w < |g| ensures r.id !in g[w] {
      assert w !in Preds(nt, g, {r.id});
    }
  }

  lemma VisitedFromMore(g: Graph, s0: Search, s: Search, roots: seq<CGNode>, k: nat)
    requires k < |roots| && VisitedFrom(g, s0, roots[..k]) && VisitsReachable(g, s0, s, roots[k].id)
    ensures VisitedFrom(g, s, roots[..k + 1])
  {
    hide Reach;
    forall v: nat | Visited(s, v) ensures ReachedBy(g, roots[..k + 1], v) {
      if Visited(s0, v) {
        var j :| 0 <= j < k && Reach(g, roots[..k][j].id, v);
        assert roots[..k + 1][j] == roots[..k][j];
      } else {
        assert roots[..k + 1][k] == roots[k];
      }
    }
  }

  /** The first two loops of BuildSCC (callgraph.cpp:1637-1652): the search from the roots,
      then from every node that is in no SCC yet. */
  method SearchAll(nodesMap: seq<CGNode?>, rootNodes: seq<CGNode>, st: DfsState, ghost nt: NodeTable, ghost g: Graph)
    requires WellBuilt(nodesMap, nt, g) && RootsOf(rootNodes, nt)
    requires Idle(st, nt, g) && VisitedFrom(g, st.Abs(), []) && st.sccNodes == []
    modifies st, nt.all`sccNode
    ensures Idle(st, nt, g)
    ensures forall n :: n in nt.all ==> n.sccNode != null
    ensures forall k :: 0 <= k < |st.sccNodes| ==> fresh(st.sccNodes[k])
  {
    hide Inv, Reach, GraphOf, Running, Symmetric, VisitsReachable, VisitedFrom;
    var k := 0;
    assert rootNodes[..0] == [];
    while k < |rootNodes|
      invariant k <= |rootNodes|
      invariant Idle(st, nt, g) && VisitedFrom(g, st.Abs(), rootNodes[..k])
      invariant forall scc :: scc in st.sccNodes ==> fresh(scc)
    {
      RootUnvisited(nodesMap, nt, g, st.Abs(), rootNodes, k);
      assert rootNodes[k] in Members(rootNodes);
      ghost var s0 := st.Abs();
      SearchFrom(rootNodes[k], st, nt, g);
      VisitedFromMore(g, s0, st.Abs(), rootNodes, k);
      k := k + 1;
    }
    var i := 0;
    while i < |nodesMap|
      invariant i <= |nodesMap|
      invariant Idle(st, nt, g)
      invariant forall j :: 0 <= j < i && nodesMap[j] != null ==> nodesMap[j].sccNode != null
      invariant forall scc :: scc in st.sccNodes ==> fresh(scc)
    {
      var node := nodesMap[i];
      if node != null && node.sccNode == null {
        assert node in NonNull(nodesMap);
        IdleDone(st, nt, g);
        SearchFrom(node, st, nt, g);
      }
      i := i + 1;
    }
    forall k | 0 <= k < |st.sccNodes| ensures fresh(st.sccNodes[k]) {
      assert st.sccNodes[k] in st.sccNodes;
    }
  }

  // ---------------------------------------------------------------- Setup on every SCC

  /** The SCC objects as the search leaves them. */
  ghost predicate Filled(nt: NodeTable, g: Graph, comp: seq<int>, sccNodes: seq<SCCNode>)
    reads sccNodes, nt.all`sccNode, nt.all`callees
  {
    && Placed(nt, g, comp, sccNodes) && Distinct(sccNodes)
    && (forall k :: 0 <= k < |sccNodes| ==> MembersOf(nt, comp, sccNodes[k], k))
  }

  /** Mutual reachability decides the component, and calls never go to a later component. */
  ghost predicate SccPartition(nt: NodeTable, g: Graph, comp: seq<int>)
    requires |comp| == |g|
  {
    && (forall v, w :: v in nt.byId && w in nt.byId && v < |g| && w < |g| ==> (comp[v] == comp[w] <==> Mutual(g, v, w)))
    && (forall v, w :: v in nt.byId && v < |g| && w in g[v] && w < |g| ==> comp[w] <= comp[v])
  }

  lemma SearchResult(st: DfsState, nt: NodeTable, g: Graph)
    requires Idle(st, nt, g) && forall n :: n in nt.all ==> n.sccNode != null
    ensures Filled(nt, g, st.comp, st.sccNodes) && |st.comp| == |g|
    ensures SccPartition(nt, g, st.comp)
  {
    hide Reach, StackReachesGray, StackReachesUp, BlackClosed, StackShape, MembersOf, Mutual;
    forall i | i in nt.byId ensures i < |g| && st.comp[i] >= 0 {
      assert PointsTo(st.comp, st.sccNodes, i, nt.byId[i].sccNode);
    }
    var s := st.Abs();
    forall v, w | v in nt.byId && v < |g| && w in g[v] && w < |g| ensures st.comp[w] <= st.comp[v] {
      assert Done(s, v);
    }
  }

  lemma MembersAreNodes(nt: NodeTable, comp: seq<int>, scc: SCCNode, k: nat)
    requires Indexed(nt) && MembersOf(nt, comp, scc, k)
    ensures forall n :: n in scc.cgNodes ==> n in nt.all
  {
  }

  lemma SetupDone(nt: NodeTable, g: Graph, comp: seq<int>, sccNodes: seq<SCCNode>, k: nat, ns: seq<CGNode>)
    requires k < |sccNodes| && sccNodes[k].id == k && sccNodes[k].cgNodes == ns && |comp| == |g| && Indexed(nt)
    requires forall n :: n in ns ==> n.id in nt.byId && nt.byId[n.id] == n && n.id < |comp| && comp[n.id] == k
    requires forall i :: 0 <= i < |comp| && i in nt.byId && comp[i] == k ==> nt.byId[i] in ns
    requires sccNodes[k].calleeScc == SccsOf(comp, sccNodes, Succs(g, Ids(ns)), k)
    requires sccNodes[k].callerScc == SccsOf(comp, sccNodes, Preds(nt, g, Ids(ns)), k)
    ensures SetUp(nt, g, comp, sccNodes, k)
  {
    hide SccsOf, Succs, Preds;
    forall v | v in nt.byId && v < |comp| && comp[v] == k ensures v in Ids(ns) {
      assert nt.byId[v] in ns;
    }
  }

  /** The third loop of BuildSCC (callgraph.cpp:1654-1661). */
  method SetupAll(sccNodes: seq<SCCNode>, ghost nt: NodeTable, ghost g: Graph, ghost comp: seq<int>)
    requires Filled(nt, g, comp, sccNodes) && Symmetric(nt, g)
    modifies sccNodes`calleeScc, sccNodes`callerScc
    ensures AllSetUp(nt, g, comp, sccNodes)
  {
    hide Symmetric, SetUp, PointersAre;
    var i := 0;
    while i < |sccNodes|
      invariant i <= |sccNodes|
      invariant forall k :: 0 <= k < i ==> SetUp(nt, g, comp, sccNodes, k)
      invariant forall k :: i <= k < |sccNodes| ==> MembersOf(nt, comp, sccNodes[k], k)
    {
      var scc := sccNodes[i];
      assert MembersOf(nt, comp, scc, i);
      assert scc.cgNodes != [];  // SCCNode::Verify
      MembersAreNodes(nt, comp, scc, i);
      Setup(scc, nt, g, comp, sccNodes);
      SetupDone(nt, g, comp, sccNodes, i, scc.cgNodes);
      i := i + 1;
    }
  }

  lemma CondensationAcyclic(nt: NodeTable, g: Graph, comp: seq<int>, sccNodes: seq<SCCNode>)
    requires AllSetUp(nt, g, comp, sccNodes) && Distinct(sccNodes) && |comp| == |g| && GraphOf(nt, g)
    requires SccPartition(nt, g, comp)
    ensures Acyclic(Range(sccNodes))
  {
    hide SccsOf, Mutual;
    EdgesAreAmong(nt, g);
    forall a | a in Range(sccNodes)
      ensures a.callerScc <= Range(sccNodes) && a.calleeScc <= Range(sccNodes) && CallersAre(Range(sccNodes), a)
    {
      var j :| 0 <= j < |sccNodes| && sccNodes[j] == a;
      NeighboursInRange(nt, g, comp, sccNodes, j);
      forall b | b in Range(sccNodes)
        ensures (b in a.callerScc <==> a in b.calleeScc) && (b in a.callerScc ==> a.id < b.id)
      {
        var k :| 0 <= k < |sccNodes| && sccNodes[k] == b;
        SetUpEdges(nt, g, comp, sccNodes, k, j);
        assert SetUp(nt, g, comp, sccNodes, k) && SetUp(nt, g, comp, sccNodes, j);
      }
    }
  }

  lemma EdgesAreAmong(nt: NodeTable, g: Graph)
    requires GraphOf(nt, g)
    ensures EdgesAmong(nt, g)
  {
    forall i: nat, v: nat | i < |g| && v in g[i] ensures i in nt.byId && v in nt.byId {
      assert KnownCallees(nt, nt.byId[i].callees);
    }
  }

  lemma NeighboursInRange(nt: NodeTable, g: Graph, comp: seq<int>, sccNodes: seq<SCCNode>, k: nat)
    requires k < |sccNodes| && SetUp(nt, g, comp, sccNodes, k)
    ensures sccNodes[k].callerScc <= Range(sccNodes) && sccNodes[k].calleeScc <= Range(sccNodes)
  {
  }

  // ---------------------------------------------------------------- the call graph as a whole

  /** What BuildSCC leaves behind: `vec` is sccTopologicalVec. */
  ghost predicate Built(nt: NodeTable, g: Graph, vec: seq<SCCNode>)
    reads nt.all`sccNode, vec
  {
    && Distinct(vec)
    && (forall n :: n in nt.all ==> n.sccNode != null && n.sccNode in vec)
    && (forall n, m :: n in nt.all && m in nt.all ==> (n.sccNode == m.sccNode <==> Mutual(g, n.id, m.id)))
    && (forall scc :: scc in vec ==> ListsItsNodes(nt, scc))
    && TopDown(nt, g, vec)
  }

  /** An SCC object lists the nodes that point to it, each once. */
  ghost predicate ListsItsNodes(nt: NodeTable, scc: SCCNode)
    reads nt.all`sccNode, scc
  {
    scc.cgNodes != [] && Distinct(scc.cgNodes) && Members(scc.cgNodes) == set n | n in nt.all && n.sccNode == scc
  }

  /** A node that calls into another SCC has its own SCC before that one. */
  ghost predicate TopDown(nt: NodeTable, g: Graph, vec: seq<SCCNode>)
    reads nt.all`sccNode
  {
    forall n, m, i, j ::
      (n in nt.all && m in nt.all && n.id < |g| && m.id in g[n.id] && n.sccNode != m.sccNode
       && 0 <= i < |vec| && 0 <= j < |vec| && n.sccNode == vec[i] && m.sccNode == vec[j]) ==> i < j
  }

  lemma BuiltFromParts(nt: NodeTable, g: Graph, comp: seq<int>, sccNodes: seq<SCCNode>, vec: seq<SCCNode>)
    requires Placed(nt, g, comp, sccNodes) && Distinct(sccNodes) && AllSetUp(nt, g, comp, sccNodes)
    requires SccPartition(nt, g, comp)
    requires forall k :: 0 <= k < |sccNodes| ==> sccNodes[k].cgNodes != [] && Distinct(sccNodes[k].cgNodes)
    requires forall k :: 0 <= k < |sccNodes| ==> forall n :: n in sccNodes[k].cgNodes ==> n in nt.all
    requires Distinct(vec) && Range(vec) == Range(sccNodes) && CallersFirst(vec)
    ensures Built(nt, g, vec)
  {
    hide Mutual, SccsOf, Succs, Preds, CallersWithin, SccEdge;
    forall n | n in nt.all ensures n.id < |comp| && 0 <= comp[n.id] < |sccNodes| && n.sccNode == sccNodes[comp[n.id]] {
      PlacedNode(nt, g, comp, sccNodes, n);
    }
    forall n | n in nt.all ensures n.sccNode != null && n.sccNode in vec {
      assert sccNodes[comp[n.id]] in Range(sccNodes);
    }
    forall scc | scc in vec ensures ListsItsNodes(nt, scc) {
      assert scc in Range(vec);
      var k :| 0 <= k < |sccNodes| && sccNodes[k] == scc;
      ListsFromSetUp(nt, g, comp, sccNodes, k);
    }
    TopDownFromParts(nt, g, comp, sccNodes, vec);
  }

  lemma ListsFromSetUp(nt: NodeTable, g: Graph, comp: seq<int>, sccNodes: seq<SCCNode>, k: nat)
    requires Placed(nt, g, comp, sccNodes) && Distinct(sccNodes) && k < |sccNodes| && SetUp(nt, g, comp, sccNodes, k)
    requires sccNodes[k].cgNodes != [] && Distinct(sccNodes[k].cgNodes)
    requires forall n :: n in sccNodes[k].cgNodes ==> n in nt.all
    ensures ListsItsNodes(nt, sccNodes[k])
  {
    hide SccsOf, Succs, Preds;
    var scc := sccNodes[k];
    forall n | n in nt.all ensures n in scc.cgNodes <==> n.sccNode == scc {
      PlacedNode(nt, g, comp, sccNodes, n);
      if n.sccNode == scc {
        assert n.id in Ids(scc.cgNodes);
        var m :| m in scc.cgNodes && m.id == n.id;
        assert m == n;
      }
      if n in scc.cgNodes {
        assert n.id in Ids(scc.cgNodes);
      }
    }
  }

  lemma TopDownFromParts(nt: NodeTable, g: Graph, comp: seq<int>, sccNodes: seq<SCCNode>, vec: seq<SCCNode>)
    requires Placed(nt, g, comp, sccNodes) && Distinct(sccNodes) && AllSetUp(nt, g, comp, sccNodes)
    requires Distinct(vec) && Range(vec) == Range(sccNodes) && CallersFirst(vec)
    ensures TopDown(nt, g, vec)
  {
    hide SccsOf, Succs, Preds, SetUp, PointersAre;
    EdgesAreAmong(nt, g);
    forall n, m, i, j |
      n in nt.all && m in nt.all && n.id < |g| && m.id in g[n.id] && n.sccNode != m.sccNode
      && 0 <= i < |vec| && 0 <= j < |vec| && n.sccNode == vec[i] && m.sccNode == vec[j]
      ensures i < j
    {
      PlacedNode(nt, g, comp, sccNodes, n);
      PlacedNode(nt, g, comp, sccNodes, m);
      var a, b := comp[n.id], comp[m.id];
      SetUpEdges(nt, g, comp, sccNodes, a, b);
      assert SccEdge(g, comp, a, b);
      assert CallersWithin(vec[j], vec[..j]);
      assert vec[i] in vec[..j];
    }
  }

  lemma RecordedGraph(nt: NodeTable, g: Graph, size: nat, calls: seq<RecordedCall>)
    requires Recorded(nt, g, size, calls)
    ensures |g| == size && GraphOf(nt, g) && Symmetric(nt, g)
  {
  }

  class CallGraph {
    var nodesMap: seq<CGNode?>
    var rootNodes: seq<CGNode>
    var sccTopologicalVec: seq<SCCNode>
    var numOfNodes: nat
    var numOfSccs: nat
    /** mirModule->compilationList and mirModule->functionList. */
    var compilationList: seq<MIRFunction>
    var functionList: seq<MIRFunction>

    constructor (nodes: seq<CGNode?>, count: nat)
      ensures nodesMap == nodes && numOfNodes == count && rootNodes == [] && sccTopologicalVec == [] && numOfSccs == 0
    {
      nodesMap := nodes;
      rootNodes := [];
      sccTopologicalVec := [];
      numOfNodes := count;
      numOfSccs := 0;
      compilationList := [];
      functionList := [];
    }

    /** CallGraph::BuildSCC, on the first build. */
    method BuildSCC(ghost nt: NodeTable, ghost g: Graph)
      requires WellBuilt(nodesMap, nt, g) && RootsOf(rootNodes, nt) && |g| == numOfNodes
      requires forall n :: n in nt.all ==> n.sccNode == null
      requires numOfSccs == 0 && sccTopologicalVec == []
      modifies this`sccTopologicalVec, this`numOfSccs, nt.all`sccNode
      ensures Built(nt, g, sccTopologicalVec)
      ensures forall k :: 0 <= k < |sccTopologicalVec| ==> fresh(sccTopologicalVec[k])
    {
      hide Inv, GraphOf, DfsState.Linked, Symmetric, Filled, SccPartition, Built;
      var st := new DfsState(numOfNodes);
      BeginSearch(st, nt, g);
      SearchAll(nodesMap, rootNodes, st, nt, g);
      numOfSccs := st.numOfSccs;
      SearchResult(st, nt, g);
      var sccNodes := st.sccNodes;
      sccTopologicalVec := CondenseAndSort(sccNodes, nt, g, st.comp);
      forall k | 0 <= k < |sccTopologicalVec| ensures fresh(sccTopologicalVec[k]) {
        assert sccTopologicalVec[k] in sccNodes;
        var t :| 0 <= t < |sccNodes| && sccNodes[t] == sccTopologicalVec[k];
      }
    }

    /** GenCallGraph: from nodes without calls, through the construction and the roots, to the
        SCCs (callgraph.cpp:1203-1351). */
    method GenCallGraph(earlier: seq<RecordedCall>, functions: seq<FunctionCalls>, ghost nt: NodeTable)
      returns (ghost g: Graph)
      requires Created(nodesMap, nt, numOfNodes)
      requires AmongNodes(nt, earlier) && FunctionsAmong(nt, functions)
      requires numOfSccs == 0 && sccTopologicalVec == []
      modifies this, nt.all`callees, nt.all`callerSet, nt.all`sccNode
      ensures Recorded(nt, g, old(numOfNodes), AllCalls(earlier, functions)) && WellBuilt(old(nodesMap), nt, g)
      ensures |g| == old(numOfNodes) && HoldsCalls(nt, g, earlier, functions)
      ensures RootsOf(rootNodes, nt) && Built(nt, g, sccTopologicalVec)
      ensures forall k :: 0 <= k < |sccTopologicalVec| ==> fresh(sccTopologicalVec[k])
    {
      hide GraphOf, Symmetric, Built, Recorded, NoRepeats, NoNullCallees, RootsOf, Indexed, HoldsCalls;
      g := CallSites.GenCallGraph(earlier, functions, nt, numOfNodes);
      RecordedGraph(nt, g, numOfNodes, AllCalls(earlier, functions));
      rootNodes := FindRootNodes(nodesMap, nt);
      BuildSCC(nt, g);
    }

    /** The whole chain, from nodes without calls to the compilation order: every node is in one
        SCC, and the list is bottom-up for the calls that were recorded (callgraph.cpp:1405-1413). */
    method BuildCallGraph(earlier: seq<RecordedCall>, functions: seq<FunctionCalls>, ghost nt: NodeTable)
      returns (ghost g: Graph, ghost emitted: seq<CGNode>)
      requires Created(nodesMap, nt, numOfNodes)
      requires AmongNodes(nt, earlier) && FunctionsAmong(nt, functions)
      requires numOfSccs == 0 && sccTopologicalVec == []
      modifies this, nt.all`callees, nt.all`callerSet, nt.all`sccNode
      ensures Recorded(nt, g, old(numOfNodes), AllCalls(earlier, functions))
      ensures |g| == old(numOfNodes) && HoldsCalls(nt, g, earlier, functions)
      ensures Built(nt, g, sccTopologicalVec)
      ensures Lists(compilationList, emitted) && functionList == compilationList
      ensures BottomUp(nt, g, emitted)
    {
      hide GraphOf, Symmetric, Built, BottomUp, Lists, RootsOf, Recorded, HoldsCalls, Indexed, WellBuilt;
      g := GenCallGraph(earlier, functions, nt);
      emitted := SetCompilationFunclist(nt, g);
    }

    /** CallGraph::SetCompilationFunclist: the SCCs from the last to the first, each in
        whatever order the sort inside the SCC produces. */
    method SetCompilationFunclist(ghost nt: NodeTable, ghost g: Graph) returns (ghost emitted: seq<CGNode>)
      requires Built(nt, g, sccTopologicalVec)
      modifies this`compilationList, this`functionList, sccTopologicalVec`cgNodes
      ensures Built(nt, g, sccTopologicalVec)
      ensures Lists(compilationList, emitted) && functionList == compilationList
      ensures BottomUp(nt, g, emitted)
    {
      hide Built, Lists, Emitted, Eligibles, BottomUp;
      compilationList := [];
      functionList := [];
      emitted := [];
      NothingEmitted(nt, sccTopologicalVec);
      var i: nat := |sccTopologicalVec|;
      while i > 0
        invariant i <= |sccTopologicalVec|
        invariant Built(nt, g, sccTopologicalVec)
        invariant Lists(compilationList, emitted) && functionList == compilationList
        invariant Emitted(nt, sccTopologicalVec, i, emitted)
      {
        i := i - 1;
        var sccNode := sccTopologicalVec[i];
        SortOne(sccNode, sccTopologicalVec, nt, g);
        var funcs := EligibleFunctions(sccNode);
        ListsAppend(compilationList, emitted, funcs, Eligibles(sccNode.cgNodes));
        compilationList := compilationList + funcs;
        functionList := functionList + funcs;
        EmitSegment(nt, g, sccTopologicalVec, i, emitted);
        emitted := emitted + Eligibles(sccNode.cgNodes);
      }
      AllEmitted(nt, g, sccTopologicalVec, emitted);
    }
  }

  /** Different nodes stand for different functions, as GetOrGenCGNode creates them. */
  ghost predicate OneNodePerFunction(nt: NodeTable) {
    forall n, m :: n in nt.all && m in nt.all && n.mirFunc.Some? && n.mirFunc == m.mirFunc ==> n == m
  }

  /** So every function that passes the filter is compiled exactly once. */
  lemma CompiledOnce(nt: NodeTable, g: Graph, list: seq<MIRFunction>, emitted: seq<CGNode>, f: MIRFunction)
    requires OneNodePerFunction(nt) && Lists(list, emitted) && BottomUp(nt, g, emitted)
    requires exists n :: n in nt.all && n.mirFunc == Some(f)
    ensures Distinct(list)
    ensures f in list <==> f.hasBody || !f.isNative
  {
    assert forall t :: 0 <= t < |emitted| ==> emitted[t] in Members(emitted);
    var n :| n in nt.all && n.mirFunc == Some(f);
    if Compiled(n.mirFunc) {
      assert n in Members(emitted);
      var t :| 0 <= t < |emitted| && emitted[t] == n;
      assert list[t] == f;
    }
    if f in list {
      var t :| 0 <= t < |list| && list[t] == f;
      assert emitted[t].mirFunc == Some(f);
    }
  }

  /** A component with more than one member, or whose only member calls itself, has a cycle;
      the lemma is the test of SCCNode::HasRecursion for every member. */
  lemma CycleInScc(nt: NodeTable, g: Graph, vec: seq<SCCNode>, scc: SCCNode, n: CGNode)
    requires Built(nt, g, vec) && GraphOf(nt, g) && scc in vec && n in scc.cgNodes
    ensures n in nt.all && n.id < |g|
    ensures ReachPlus(g, n.id, n.id) <==> |scc.cgNodes| > 1 || n.id in g[n.id]
  {
    hide Reach, TopDown;
    assert ListsItsNodes(nt, scc) && n in Members(scc.cgNodes);
    ReachRefl(g, n.id);
    if |scc.cgNodes| > 1 {
      var m := if scc.cgNodes[0] == n then scc.cgNodes[1] else scc.cgNodes[0];
      assert m in Members(scc.cgNodes) && m != n && Mutual(g, n.id, m.id);
      ReachSplit(g, n.id, m.id);
      var w :| w in g[n.id] && Reach(g, w, m.id);
      ReachTrans(g, w, m.id, n.id);
    } else if ReachPlus(g, n.id, n.id) {
      var w :| w in g[n.id] && Reach(g, w, n.id);
      EdgesAreAmong(nt, g);
      GraphOfValid(nt, g);
      ReachEdge(g, n.id, w);
      var m := nt.byId[w];
      assert Mutual(g, n.id, m.id) && m.sccNode == scc && m in Members(scc.cgNodes);
      assert m == scc.cgNodes[0] == n;
    }
  }

  /** SCCNode::HasRecursion. */
  method HasRecursion(scc: SCCNode, ghost nt: NodeTable, ghost g: Graph, ghost vec: seq<SCCNode>) returns (r: bool)
    requires Built(nt, g, vec) && GraphOf(nt, g) && scc in vec
    requires scc.cgNodes != []
    ensures r <==> exists n :: n in scc.cgNodes && ReachPlus(g, n.id, n.id)
  {
    hide Reach, TopDown, Built, ReachPlus;
    var node := scc.cgNodes[0];
    CycleInScc(nt, g, vec, scc, node);
    if |scc.cgNodes| > 1 {
      return true;
    }
    assert forall n :: n in scc.cgNodes ==> n == node;
    CalleesAreEdges(nt, g, node);
    r := false;
    var i := 0;
    while i < |node.callees|
      invariant i <= |node.callees|
      invariant forall k :: 0 <= k < i ==> node.callees[k].node != node
    {
      var calleeNode := node.callees[i].node;
      if calleeNode != null && node == calleeNode {
        assert node.callees[i] in node.callees;
        return true;
      }
      i := i + 1;
    }
    SelfCall(nt, g, node);
  }

  lemma SelfCall(nt: NodeTable, g: Graph, n: CGNode)
    requires GraphOf(nt, g) && n in nt.all && n.id < |g|
    ensures n.id in g[n.id] <==> exists k :: 0 <= k < |n.callees| && n.callees[k].node == n
  {
    CalleesAreEdges(nt, g, n);
    if n.id in g[n.id] {
      var c :| c in n.callees && c.node != null && c.node.id == n.id;
      assert KnownCallees(nt, nt.byId[n.id].callees);
    }
  }

  lemma NothingEmitted(nt: NodeTable, vec: seq<SCCNode>)
    ensures Emitted(nt, vec, |vec|, []) && Lists([], [])
  {
    assert vec[|vec|..] == [];
  }

  lemma ListsAppend(a: seq<MIRFunction>, ns: seq<CGNode>, b: seq<MIRFunction>, ms: seq<CGNode>)
    requires Lists(a, ns) && Lists(b, ms)
    ensures Lists(a + b, ns + ms)
  {
  }

  method SortOne(sccNode: SCCNode, ghost vec: seq<SCCNode>, ghost nt: NodeTable, ghost g: Graph)
    requires sccNode in vec && Built(nt, g, vec)
    modifies sccNode`cgNodes
    ensures Built(nt, g, vec)
  {
    hide Mutual, TopDown, ListsItsNodes;
    SortWithinScc(nt, sccNode);
    forall scc | scc in vec ensures ListsItsNodes(nt, scc) {
    }
  }

  /** The filter of callgraph.cpp:1448. */
  predicate Compiled(f: Option<MIRFunction>) {
    f.Some? && (f.value.hasBody || !f.value.isNative)
  }

  /** The members of one SCC that pass the filter, in their order. */
  ghost function Eligibles(ns: seq<CGNode>): (r: seq<CGNode>)
    ensures Members(r) == set n | n in Members(ns) && Compiled(n.mirFunc)
    ensures Distinct(ns) ==> Distinct(r)
  {
    if ns == [] then []
    else
      var init := ns[..|ns| - 1];
      var last := ns[|ns| - 1];
      var rest := Eligibles(init);
      assert Members(ns) == Members(init) + {last} by { assert ns == init + [last]; }
      assert Distinct(ns) ==> last !in Members(init);
      assert forall n :: n in rest ==> n in Members(rest);
      assert Members(rest + [last]) == Members(rest) + {last};
      if Compiled(last.mirFunc) then rest + [last] else rest
  }

  /** `list` holds the functions of the nodes `ns`, in the same order. */
  ghost predicate Lists(list: seq<MIRFunction>, ns: seq<CGNode>) {
    |list| == |ns| && forall t :: 0 <= t < |ns| ==> ns[t].mirFunc == Some(list[t])
  }

  method EligibleFunctions(sccNode: SCCNode) returns (funcs: seq<MIRFunction>)
    ensures Lists(funcs, Eligibles(sccNode.cgNodes))
  {
    funcs := [];
    var k := 0;
    while k < |sccNode.cgNodes|
      invariant k <= |sccNode.cgNodes|
      invariant Lists(funcs, Eligibles(sccNode.cgNodes[..k]))
    {
      var node := sccNode.cgNodes[k];
      assert sccNode.cgNodes[..k + 1][..k] == sccNode.cgNodes[..k];
      if Compiled(node.mirFunc) {
        funcs := funcs + [node.mirFunc.value];
      }
      k := k + 1;
    }
    assert sccNode.cgNodes[..k] == sccNode.cgNodes;
  }

  /** std::sort inside an SCC.  Its comparison is no ordering when functions call each other in
      a cycle, so nothing but the set of members is claimed of the result. */
  method SortWithinScc(ghost nt: NodeTable, sccNode: SCCNode)
    requires ListsItsNodes(nt, sccNode)
    modifies sccNode`cgNodes
    ensures ListsItsNodes(nt, sccNode)
  {
    var rest := sccNode.cgNodes;
    ghost var all := Members(rest);
    assert rest[0] in all;
    var sorted: seq<CGNode> := [];
    while rest != []
      invariant Distinct(rest) && Distinct(sorted)
      invariant forall n :: n in rest ==> n !in sorted
      invariant Members(rest) + Members(sorted) == all
      decreases |rest|
    {
      var k :| 0 <= k < |rest|;
      assert rest == rest[..k] + [rest[k]] + rest[k + 1..];
      assert Members(rest) == Members(rest[..k] + rest[k + 1..]) + {rest[k]};
      assert Members(sorted + [rest[k]]) == Members(sorted) + {rest[k]};
      sorted := sorted + [rest[k]];
      rest := rest[..k] + rest[k + 1..];
    }
    sccNode.cgNodes := sorted;
    assert sorted != [];
  }

  /** After the SCCs from position `i` on: their eligible nodes, each once, later SCCs first. */
  ghost predicate Emitted(nt: NodeTable, vec: seq<SCCNode>, i: nat, emitted: seq<CGNode>)
    requires i <= |vec|
    reads nt.all`sccNode
  {
    && Distinct(emitted)
    && Members(emitted) == (set n | n in nt.all && Compiled(n.mirFunc) && n.sccNode in vec[i..])
    && (forall a, b :: 0 <= a < b < |emitted| ==> NotLater(nt, vec, emitted[a], emitted[b]))
  }

  /** The SCC of `y` stands no later than the SCC of `x`. */
  ghost predicate NotLater(nt: NodeTable, vec: seq<SCCNode>, x: CGNode, y: CGNode)
    reads nt.all`sccNode
  {
    x in nt.all && y in nt.all
    && forall p, q :: 0 <= p < |vec| && 0 <= q < |vec| && x.sccNode == vec[p] && y.sccNode == vec[q] ==> q <= p
  }

  lemma EmitSegment(nt: NodeTable, g: Graph, vec: seq<SCCNode>, i: nat, emitted: seq<CGNode>)
    requires i < |vec| && Built(nt, g, vec) && Emitted(nt, vec, i + 1, emitted)
    ensures Emitted(nt, vec, i, emitted + Eligibles(vec[i].cgNodes))
  {
    var segment := Eligibles(vec[i].cgNodes);
    SegmentNodes(nt, vec[i]);
    assert forall n :: n in emitted ==> n in Members(emitted);
    EmitMembers(nt, vec, i, emitted, segment);
    EmitOrder(nt, vec, i, emitted, segment);
  }

  lemma SegmentNodes(nt: NodeTable, scc: SCCNode)
    requires ListsItsNodes(nt, scc)
    ensures Distinct(Eligibles(scc.cgNodes))
    ensures Members(Eligibles(scc.cgNodes)) == set n | n in nt.all && Compiled(n.mirFunc) && n.sccNode == scc
    ensures forall n :: n in Eligibles(scc.cgNodes) ==> n in nt.all && n.sccNode == scc
  {
    hide Eligibles;
    assert forall n :: n in Eligibles(scc.cgNodes) ==> n in Members(Eligibles(scc.cgNodes));
  }

  lemma EmitMembers(nt: NodeTable, vec: seq<SCCNode>, i: nat, emitted: seq<CGNode>, segment: seq<CGNode>)
    requires i < |vec| && Distinct(vec) && Distinct(emitted) && Distinct(segment)
    requires Members(emitted) == set n | n in nt.all && Compiled(n.mirFunc) && n.sccNode in vec[i + 1..]
    requires Members(segment) == set n | n in nt.all && Compiled(n.mirFunc) && n.sccNode == vec[i]
    ensures Members(emitted + segment) == set n | n in nt.all && Compiled(n.mirFunc) && n.sccNode in vec[i..]
    ensures Distinct(emitted + segment)
  {
    assert vec[i..] == [vec[i]] + vec[i + 1..];
    assert vec[i] !in vec[i + 1..];
    assert Members(emitted + segment) == Members(emitted) + Members(segment);
    assert forall n :: n in emitted ==> n in Members(emitted);
    assert forall n :: n in segment ==> n in Members(segment) && n !in emitted;
    var all := emitted + segment;
    forall a, b | 0 <= a < b < |all| ensures all[a] != all[b] {
      assert b >= |emitted| ==> all[b] in segment;
      assert a < |emitted| ==> all[a] in emitted;
    }
  }

  lemma EmitOrder(nt: NodeTable, vec: seq<SCCNode>, i: nat, emitted: seq<CGNode>, segment: seq<CGNode>)
    requires i < |vec| && Distinct(vec)
    requires forall a, b :: 0 <= a < b < |emitted| ==> NotLater(nt, vec, emitted[a], emitted[b])
    requires forall n :: n in emitted ==> n in nt.all && n.sccNode in vec[i + 1..]
    requires forall n :: n in segment ==> n in nt.all && n.sccNode == vec[i]
    ensures forall a, b :: 0 <= a < b < |emitted + segment| ==>
      NotLater(nt, vec, (emitted + segment)[a], (emitted + segment)[b])
  {
    var all := emitted + segment;
    forall a, b | 0 <= a < b < |all| ensures NotLater(nt, vec, all[a], all[b]) {
      if b < |emitted| {
        assert NotLater(nt, vec, emitted[a], emitted[b]);
      } else {
        assert all[b] in segment;
        assert all[a] in emitted || all[a] in segment;
        assert all[a].sccNode in vec[i..] by { assert vec[i..] == [vec[i]] + vec[i + 1..]; }
      }
    }
  }

  /** The compilation order: every eligible node once, a callee in another SCC before its caller. */
  ghost predicate BottomUp(nt: NodeTable, g: Graph, emitted: seq<CGNode>)
    reads nt.all`sccNode
  {
    && Distinct(emitted)
    && Members(emitted) == (set n | n in nt.all && Compiled(n.mirFunc))
    && (forall a, b :: (0 <= a < |emitted| && 0 <= b < |emitted|
          && emitted[a] in nt.all && emitted[b] in nt.all && emitted[a].id < |g|
          && emitted[b].id in g[emitted[a].id] && emitted[a].sccNode != emitted[b].sccNode) ==> b < a)
  }

  lemma AllEmitted(nt: NodeTable, g: Graph, vec: seq<SCCNode>, emitted: seq<CGNode>)
    requires Built(nt, g, vec) && Emitted(nt, vec, 0, emitted)
    ensures BottomUp(nt, g, emitted)
  {
    assert vec[0..] == vec;
    forall a, b | 0 <= a < |emitted| && 0 <= b < |emitted|
      && emitted[a] in nt.all && emitted[b] in nt.all && emitted[a].id < |g|
      && emitted[b].id in g[emitted[a].id] && emitted[a].sccNode != emitted[b].sccNode
      ensures b < a
    {
      var p :| 0 <= p < |vec| && vec[p] == emitted[a].sccNode;
      var q :| 0 <= q < |vec| && vec[q] == emitted[b].sccNode;
    }
  }

  /** The rest of BuildSCC (callgraph.cpp:1654-1663). */
  method CondenseAndSort(sccNodes: seq<SCCNode>, ghost nt: NodeTable, ghost g: Graph, ghost comp: seq<int>)
    returns (vec: seq<SCCNode>)
    requires Filled(nt, g, comp, sccNodes) && Symmetric(nt, g) && |comp| == |g| && SccPartition(nt, g, comp)
    modifies sccNodes`calleeScc, sccNodes`callerScc
    ensures Built(nt, g, vec)
    ensures forall scc :: scc in vec ==> scc in sccNodes
  {
    hide Symmetric, MembersOf, PointersAre, SetUp, SccPartition, Distinct, TopDown, Acyclic, CallersFirst, Built;
    MembersListed(nt, comp, sccNodes);
    SetupAll(sccNodes, nt, g, comp);
    CondensationAcyclic(nt, g, comp, sccNodes);
    IdsBelow(nt, g, comp, sccNodes);
    vec := SCCTopologicalSort(sccNodes);
    BuiltFromParts(nt, g, comp, sccNodes, vec);
    assert forall scc :: scc in vec ==> scc in Range(vec);
  }

  lemma MembersListed(nt: NodeTable, comp: seq<int>, sccNodes: seq<SCCNode>)
    requires Indexed(nt) && forall k :: 0 <= k < |sccNodes| ==> MembersOf(nt, comp, sccNodes[k], k)
    ensures forall k :: 0 <= k < |sccNodes| ==> sccNodes[k].cgNodes != [] && Distinct(sccNodes[k].cgNodes)
    ensures forall k :: 0 <= k < |sccNodes| ==> forall n :: n in sccNodes[k].cgNodes ==> n in nt.all
  {
  }

  lemma IdsBelow(nt: NodeTable, g: Graph, comp: seq<int>, sccNodes: seq<SCCNode>)
    requires AllSetUp(nt, g, comp, sccNodes)
    ensures forall a :: a in sccNodes ==> a.id < |sccNodes|
  {
    hide SccsOf, Succs, Preds;
    forall a | a in sccNodes ensures a.id < |sccNodes| {
      var k :| 0 <= k < |sccNodes| && sccNodes[k] == a;
      assert SetUp(nt, g, comp, sccNodes, k);
    }
  }

  lemma BeginSearch(st: DfsState, nt: NodeTable, g: Graph)
    requires GraphOf(nt, g) && forall n :: n in nt.all ==> n.sccNode == null
    requires st.Abs() == Search(seq(|g|, i => 0), [], 1, seq(|g|, i => -1), 0)
    requires st.lowestOrder == seq(|g|, i => 0) && st.inStack == seq(|g|, i => false) && |st.cgNodes| == |g|
    requires st.numOfSccs == 0
    ensures Idle(st, nt, g) && VisitedFrom(g, st.Abs(), []) && st.sccNodes == []
  {
    GraphOfValid(nt, g);
    InitialInv(g, |g|);
  }

  // ---------------------------------------------------------------- virtual calls in the list

  /** The callees of a virtual call in `u` are among what is collected from `u`; `nodeOf` is the map
      in which GetOrGenCGNode looks. */
  ghost predicate CollectedFrom(calls: seq<RecordedCall>, u: CGNode, callees: set<VirtualCalls.Method>,
                                nodeOf: map<nat, CGNode>) {
    forall m :: m in callees ==>
      m.puIdx in nodeOf && exists i :: 0 <= i < |calls| && calls[i].caller == u && calls[i].callee == nodeOf[m.puIdx]
  }

  /** Whatever class the receiver of a virtual call has, at or below the static one: the node of the
      method that runs stands before the caller in the list, unless both are in one SCC. */
  lemma TargetCompiledFirst(nt: NodeTable, g: Graph, size: nat, calls: seq<RecordedCall>, nodeOf: map<nat, CGNode>,
                            emitted: seq<CGNode>, a: nat, b: nat, h: VirtualCalls.Hierarchy, klass: nat, d: nat,
                            calleefunc: VirtualCalls.Method, callees: set<VirtualCalls.Method>)
    requires Recorded(nt, g, size, calls) && BottomUp(nt, g, emitted) && a < |emitted| && b < |emitted|
    requires VirtualCalls.ValidHierarchy(h) && klass < |h| && d < |h| && VirtualCalls.AtOrBelow(h, d, klass)
    requires VirtualCalls.RecordedExactly(h, klass, calleefunc, callees)
    requires CollectedFrom(calls, emitted[a], callees, nodeOf)
    requires var m := VirtualCalls.Dispatch(h, d, calleefunc.sig);
      m.Some? && m.value.puIdx in nodeOf && emitted[b] == nodeOf[m.value.puIdx]
    ensures emitted[a].sccNode != emitted[b].sccNode ==> b < a
  {
    hide VirtualCalls.AtOrBelow, VirtualCalls.Dispatch, VirtualCalls.RecordedExactly, GraphOf, Symmetric, TypesAre;
    var m := VirtualCalls.Dispatch(h, d, calleefunc.sig).value;
    VirtualCalls.EveryTargetRecorded(h, klass, calleefunc, d, m, callees);
    var u, v := emitted[a], emitted[b];
    assert u in Members(emitted) && v in Members(emitted);
    CallerKnown(nt, g, u);
    assert Calls(calls, u.id, v.id);
  }
}
