/** CallGraph::BuildSCCDFS: Tarjan's algorithm on the nodes. */
module SccSearch {
  import opened Reachability
  import opened CallGraphNodes
  import opened Tarjan

  /** The variables that BuildSCC hands to BuildSCCDFS by reference, and numOfSccs. */
  class DfsState {
    var visitIndex: nat
    var numOfSccs: nat
    var sccNodes: seq<SCCNode>
    var cgNodes: seq<CGNode?>
    var visitedOrder: seq<nat>
    var lowestOrder: seq<nat>
    var inStack: seq<bool>
    var visitStack: seq<nat>
    ghost var comp: seq<int>

    constructor (numOfNodes: nat)
      ensures fresh(this)
      ensures Abs() == Search(seq(numOfNodes, i => 0), [], 1, seq(numOfNodes, i => -1), 0)
      ensures lowestOrder == seq(numOfNodes, i => 0)
      ensures inStack == seq(numOfNodes, i => false) && |cgNodes| == numOfNodes
      ensures numOfSccs == 0
    {
      visitIndex := 1;
      numOfSccs := 0;
      sccNodes := [];
      cgNodes := seq(numOfNodes, i => null);
      visitedOrder := seq(numOfNodes, i => 0);
      lowestOrder := seq(numOfNodes, i => 0);
      inStack := seq(numOfNodes, i => false);
      visitStack := [];
      comp := seq(numOfNodes, i => -1);
    }

    ghost function Abs(): Search
      reads this
    {
      Search(visitedOrder, visitStack, visitIndex, comp, |sccNodes|)
    }

    /** The vectors agree with each other and with the nodes. */
    ghost predicate Vectors(nt: NodeTable, g: Graph)
      reads this
    {
      && |visitedOrder| == |lowestOrder| == |inStack| == |cgNodes| == |comp| == |g|
      && numOfSccs == |sccNodes|
      && (forall i :: 0 <= i < |g| ==> (inStack[i] <==> i in visitStack))
      && (forall i :: 0 <= i < |g| && visitedOrder[i] > 0 ==> i in nt.byId && cgNodes[i] == nt.byId[i])
      && (forall i :: i in visitStack ==> i < |g|)
    }

    /** Each node points to the SCC it was put in, and to none before. */
    ghost predicate Pointers(nt: NodeTable)
      reads this`comp, this`sccNodes, nt.all`sccNode
    {
      Indexed(nt) && PointersAre(nt, comp, sccNodes)
    }

    /** Each SCC object lists its nodes once. */
    ghost predicate Members(nt: NodeTable)
      reads this`comp, this`sccNodes, sccNodes
    {
      && (forall j, k :: 0 <= j < k < |sccNodes| ==> sccNodes[j] != sccNodes[k])
      && (forall k :: 0 <= k < |sccNodes| ==> MembersOf(nt, comp, sccNodes[k], k))
    }

    ghost predicate Linked(nt: NodeTable, g: Graph)
      reads this, sccNodes, nt.all`sccNode
    {
      Vectors(nt, g) && Pointers(nt) && Members(nt)
    }
  }

  ghost predicate PointersAre(nt: NodeTable, comp: seq<int>, sccNodes: seq<SCCNode>)
    requires Indexed(nt)
    reads nt.all`sccNode
  {
    forall i :: i in nt.byId ==> PointsTo(comp, sccNodes, i, nt.byId[i].sccNode)
  }

  ghost predicate PointsTo(comp: seq<int>, sccNodes: seq<SCCNode>, i: nat, scc: SCCNode?) {
    i < |comp| && comp[i] < |sccNodes| && scc == if comp[i] >= 0 then sccNodes[comp[i]] else null
  }

  ghost predicate MembersOf(nt: NodeTable, comp: seq<int>, scc: SCCNode, k: nat)
    reads scc
  {
    && scc.id == k && scc.callerScc == {} && scc.calleeScc == {}
    && scc.cgNodes != []
    && (forall i, j :: 0 <= i < j < |scc.cgNodes| ==> scc.cgNodes[i] != scc.cgNodes[j])
    && (forall n :: n in scc.cgNodes ==> n.id in nt.byId && nt.byId[n.id] == n && n.id < |comp| && comp[n.id] == k)
    && (forall i :: 0 <= i < |comp| && i in nt.byId && comp[i] == k ==> nt.byId[i] in scc.cgNodes)
  }

  method EnterNode(caller: CGNode, st: DfsState, ghost nt: NodeTable, ghost g: Graph)
    requires st.Linked(nt, g)
    requires caller.id in nt.byId && nt.byId[caller.id] == caller && caller.id < |g|
    requires caller.id !in st.visitStack
    modifies st
    ensures st.Linked(nt, g)
    ensures st.Abs() == Enter(old(st.Abs()), caller.id)
    ensures st.lowestOrder == old(st.lowestOrder)[caller.id := old(st.visitIndex)]
    ensures st.sccNodes == old(st.sccNodes)
  {
    var id := caller.id;
    st.cgNodes := st.cgNodes[id := caller];
    st.visitedOrder := st.visitedOrder[id := st.visitIndex];
    st.lowestOrder := st.lowestOrder[id := st.visitIndex];
    st.visitIndex := st.visitIndex + 1;
    st.visitStack := st.visitStack + [id];
    st.inStack := st.inStack[id := true];
  }

  ghost predicate EntryOk(st: DfsState, nt: NodeTable, g: Graph, v: nat)
    reads st`cgNodes
  {
    v < |g| && v < |st.cgNodes| && v in nt.byId && st.cgNodes[v] == nt.byId[v]
  }

  /** Ids on the stack are distinct, and they are ids of nodes. */
  ghost predicate Poppable(st: DfsState, nt: NodeTable, g: Graph)
    reads st`cgNodes, st`inStack, st`visitStack
  {
    && Indexed(nt)
    && |st.inStack| == |st.cgNodes| == |g|
    && (forall i, j :: 0 <= i < j < |st.visitStack| ==> st.visitStack[i] != st.visitStack[j])
    && (forall t :: 0 <= t < |st.visitStack| ==> EntryOk(st, nt, g, st.visitStack[t]))
    && (forall i :: 0 <= i < |g| ==> (st.inStack[i] <==> i in st.visitStack))
  }

  /** What the popping loop has done when it has popped the ids `popped`, bottom first. */
  ghost predicate Popping(nt: NodeTable, scc: SCCNode, popped: seq<nat>)
    reads scc, nt.all`sccNode
  {
    && |scc.cgNodes| == |popped|
    && (forall t :: 0 <= t < |popped| ==>
          (popped[t] in nt.byId && nt.byId[popped[t]] in nt.all
           && scc.cgNodes[|popped| - 1 - t] == nt.byId[popped[t]] && nt.byId[popped[t]].sccNode == scc))
  }

  lemma TopOff(stack: seq<nat>)
    requires |stack| > 0 && forall i, j :: 0 <= i < j < |stack| ==> stack[i] != stack[j]
    ensures forall v: nat :: v in stack[..|stack| - 1] <==> v in stack && v != stack[|stack| - 1]
  {
  }

  /** One turn of the popping loop (callgraph.cpp:1602-1609). */
  method PopOne(st: DfsState, sccNode: SCCNode, ghost nt: NodeTable, ghost g: Graph, ghost popped: seq<nat>)
    returns (stackTopId: nat)
    requires Poppable(st, nt, g) && |st.visitStack| > 0 && Popping(nt, sccNode, popped)
    modifies st`visitStack, st`inStack, sccNode`cgNodes, nt.all`sccNode
    ensures old(st.visitStack) == st.visitStack + [stackTopId]
    ensures Poppable(st, nt, g) && Popping(nt, sccNode, [stackTopId] + popped)
    ensures forall n :: n in nt.all && n.id != stackTopId ==> n.sccNode == old(n.sccNode)
  {
    stackTopId := st.visitStack[|st.visitStack| - 1];
    assert EntryOk(st, nt, g, stackTopId);
    TopOff(st.visitStack);
    st.visitStack := st.visitStack[..|st.visitStack| - 1];
    st.inStack := st.inStack[stackTopId := false];
    var topNode: CGNode := st.cgNodes[stackTopId];
    topNode.sccNode := sccNode;
    sccNode.AddCGNode(topNode);
  }

  lemma PopNothing(st: DfsState, nt: NodeTable, g: Graph, scc: SCCNode, m: nat)
    requires Poppable(st, nt, g) && m < |st.visitStack| && scc.cgNodes == []
    ensures Popping(nt, scc, [])
    ensures forall j :: m < j < |st.visitStack| ==> st.visitStack[j] != st.visitStack[m]
  {
  }

  method PopLoop(id: nat, st: DfsState, ghost nt: NodeTable, ghost g: Graph, ghost m: nat) returns (sccNode: SCCNode)
    requires Poppable(st, nt, g)
    requires m < |st.visitStack| && st.visitStack[m] == id
    modifies st`visitStack, st`inStack, st`numOfSccs, nt.all`sccNode
    ensures fresh(sccNode) && sccNode.id == old(st.numOfSccs) && sccNode.callerScc == {} && sccNode.calleeScc == {}
    ensures st.numOfSccs == old(st.numOfSccs) + 1
    ensures st.visitStack == old(st.visitStack)[..m]
    ensures Poppable(st, nt, g) && Popping(nt, sccNode, old(st.visitStack)[m..])
    ensures forall n :: n in nt.all && n.id !in old(st.visitStack)[m..] ==> n.sccNode == old(n.sccNode)
  {
    hide Poppable, Popping;
    sccNode := new SCCNode(st.numOfSccs);
    st.numOfSccs := st.numOfSccs + 1;
    ghost var s0, popped := st.visitStack, [];
    PopNothing(st, nt, g, sccNode, m);
    var more := true;
    while more
      invariant m <= |st.visitStack| && st.visitStack + popped == s0
      invariant more <==> m < |st.visitStack|
      invariant Poppable(st, nt, g)
      invariant Popping(nt, sccNode, popped)
      invariant forall n :: n in nt.all && n.id !in popped ==> n.sccNode == old(n.sccNode)
      modifies st`visitStack, st`inStack, sccNode`cgNodes, nt.all`sccNode
      decreases |st.visitStack|
    {
      var stackTopId := PopOne(st, sccNode, nt, g, popped);
      assert stackTopId == s0[|st.visitStack|];
      popped := [stackTopId] + popped;
      more := stackTopId != id;
    }
    assert popped == s0[m..];
  }

  lemma PoppableFromInv(st: DfsState, nt: NodeTable, g: Graph)
    requires st.Vectors(nt, g) && Indexed(nt)
    requires Shape(g, st.Abs()) && StackShape(g, st.Abs())
    ensures Poppable(st, nt, g)
  {
    forall t | 0 <= t < |st.visitStack| ensures EntryOk(st, nt, g, st.visitStack[t]) {
      assert st.visitStack[t] in st.visitStack && Visited(st.Abs(), st.visitStack[t]);
    }
  }

  /** The object that the popping loop filled lists exactly the new SCC. */
  lemma PoppedMembers(nt: NodeTable, s: Search, scc: SCCNode, m: nat)
    requires m < |s.stack| && |s.order| == |s.comp|
    requires forall i, j :: 0 <= i < j < |s.stack| ==> s.stack[i] != s.stack[j]
    requires forall i :: i in s.stack ==> i in nt.byId && nt.byId[i].id == i && i < |s.comp|
    requires forall i :: 0 <= i < |s.comp| ==> s.comp[i] < s.count
    requires Popping(nt, scc, s.stack[m..]) && scc.id == s.count && scc.callerScc == {} && scc.calleeScc == {}
    ensures MembersOf(nt, Pop(s, m).comp, scc, s.count)
  {
    var popped := s.stack[m..];
    var comp := Pop(s, m).comp;
    var k := |popped|;
    forall n | n in scc.cgNodes
      ensures n.id in nt.byId && nt.byId[n.id] == n && n.id < |comp| && comp[n.id] == s.count
    {
      var t :| 0 <= t < k && scc.cgNodes[t] == n;
      assert scc.cgNodes[k - 1 - (k - 1 - t)] == nt.byId[popped[k - 1 - t]];
      assert popped[k - 1 - t] in s.stack;
    }
    forall i, j | 0 <= i < j < k ensures scc.cgNodes[i] != scc.cgNodes[j] {
      assert scc.cgNodes[k - 1 - (k - 1 - i)] == nt.byId[popped[k - 1 - i]];
      assert scc.cgNodes[k - 1 - (k - 1 - j)] == nt.byId[popped[k - 1 - j]];
      assert popped[k - 1 - i] == s.stack[m + k - 1 - i] && popped[k - 1 - j] == s.stack[m + k - 1 - j];
    }
    forall i | 0 <= i < |comp| && i in nt.byId && comp[i] == s.count ensures nt.byId[i] in scc.cgNodes {
      assert i in popped;
      var t :| 0 <= t < k && popped[t] == i;
      assert scc.cgNodes[k - 1 - t] == nt.byId[popped[t]];
    }
  }

  lemma MembersKept(nt: NodeTable, s: Search, m: nat, scc: SCCNode, k: nat)
    requires m < |s.stack| && k < s.count && MembersOf(nt, s.comp, scc, k)
    requires forall i :: i in s.stack ==> i < |s.comp| && s.comp[i] < 0
    ensures MembersOf(nt, Pop(s, m).comp, scc, k)
  {
    assert forall i :: i in s.stack[m..] ==> i in s.stack;
  }

  lemma MembersKeptAll(nt: NodeTable, s: Search, m: nat, sccNodes: seq<SCCNode>)
    requires m < |s.stack| && |sccNodes| <= s.count
    requires forall k :: 0 <= k < |sccNodes| ==> MembersOf(nt, s.comp, sccNodes[k], k)
    requires forall i :: i in s.stack ==> i < |s.comp| && s.comp[i] < 0
    ensures forall k :: 0 <= k < |sccNodes| ==> MembersOf(nt, Pop(s, m).comp, sccNodes[k], k)
  {
    forall k | 0 <= k < |sccNodes| ensures MembersOf(nt, Pop(s, m).comp, sccNodes[k], k) {
      MembersKept(nt, s, m, sccNodes[k], k);
    }
  }

  /** The pointers of the popped nodes now name the new SCC; `before` is what the pointers were. */
  lemma PopPointers(nt: NodeTable, s: Search, sccNodes: seq<SCCNode>, scc: SCCNode, m: nat,
                    before: map<CGNode, SCCNode?>)
    requires Indexed(nt) && m < |s.stack| && |sccNodes| == s.count && before.Keys == nt.all
    requires forall i :: i in s.stack ==> i < |s.comp| && s.comp[i] < 0 && i in nt.byId
    requires forall i :: i in nt.byId ==> PointsTo(s.comp, sccNodes, i, before[nt.byId[i]])
    requires Popping(nt, scc, s.stack[m..])
    requires forall n :: n in nt.all && n.id !in s.stack[m..] ==> n.sccNode == before[n]
    ensures PointersAre(nt, Pop(s, m).comp, sccNodes + [scc])
  {
    forall i | i in nt.byId
      ensures PointsTo(Pop(s, m).comp, sccNodes + [scc], i, nt.byId[i].sccNode)
    {
      assert PointsTo(s.comp, sccNodes, i, before[nt.byId[i]]);
      if i in s.stack[m..] {
        var t :| 0 <= t < |s.stack| - m && s.stack[m..][t] == i;
      }
    }
  }

  /** The facts about the state before the popping loop that the loop leaves alone. */
  ghost predicate BeforePopping(nt: NodeTable, g: Graph, s: Search, m: nat, sccNodes: seq<SCCNode>,
                                before: map<CGNode, SCCNode?>)
    reads sccNodes
  {
    && Indexed(nt) && m < |s.stack| && |s.order| == |s.comp| == |g| && |sccNodes| == s.count && before.Keys == nt.all
    && (forall i, j :: 0 <= i < j < |s.stack| ==> s.stack[i] != s.stack[j])
    && (forall i :: i in s.stack ==> i < |s.comp| && s.comp[i] < 0 && i in nt.byId)
    && (forall i :: 0 <= i < |s.comp| ==> s.comp[i] < s.count)
    && (forall i :: i in nt.byId ==> PointsTo(s.comp, sccNodes, i, before[nt.byId[i]]))
    && (forall j, k :: 0 <= j < k < s.count ==> sccNodes[j] != sccNodes[k])
    && (forall k :: 0 <= k < s.count ==> MembersOf(nt, s.comp, sccNodes[k], k))
  }

  /** The vectors the popping loop leaves alone are those of `s`. */
  ghost predicate VectorsMatch(st: DfsState, nt: NodeTable, g: Graph, s: Search, m: nat)
    reads st`sccNodes, st`lowestOrder, st`cgNodes, st`visitedOrder, st`visitIndex
  {
    && m <= |s.stack| && |st.sccNodes| == s.count && |s.comp| == |g| == |s.order|
    && |st.lowestOrder| == |st.cgNodes| == |g|
    && s.order == st.visitedOrder && s.next == st.visitIndex
    && (forall i :: 0 <= i < |g| && st.visitedOrder[i] > 0 ==> i in nt.byId && st.cgNodes[i] == nt.byId[i])
  }

  lemma StartPopping(st: DfsState, nt: NodeTable, g: Graph, m: nat, before: map<CGNode, SCCNode?>)
    requires st.Linked(nt, g) && Indexed(nt) && Shape(g, st.Abs()) && StackShape(g, st.Abs())
    requires m < |st.visitStack| && before == map n | n in nt.all :: n.sccNode
    ensures BeforePopping(nt, g, st.Abs(), m, st.sccNodes, before)
    ensures Poppable(st, nt, g) && VectorsMatch(st, nt, g, st.Abs(), m) && st.numOfSccs == |st.sccNodes|
  {
    hide MembersOf;
    PoppableFromInv(st, nt, g);
    var s := st.Abs();
    forall i | i in s.stack ensures i < |s.comp| && s.comp[i] < 0 && i in nt.byId {
      assert Visited(s, i) && !Done(s, i);
    }
  }

  /** What the popping loop has done. */
  ghost predicate AfterPopping(st: DfsState, sccNode: SCCNode, nt: NodeTable, g: Graph, s: Search, m: nat,
                               before: map<CGNode, SCCNode?>)
    requires before.Keys == nt.all && m <= |s.stack|
    reads st, sccNode, nt.all`sccNode
  {
    && sccNode.id == s.count && sccNode.callerScc == {} && sccNode.calleeScc == {}
    && Popping(nt, sccNode, s.stack[m..])
    && (forall n :: n in nt.all && n.id !in s.stack[m..] ==> n.sccNode == before[n])
  }

  ghost predicate Recordable(sccNodes: seq<SCCNode>, sccNode: SCCNode, nt: NodeTable, comp: seq<int>)
    reads nt.all`sccNode, sccNodes, sccNode
  {
    && Indexed(nt) && PointersAre(nt, comp, sccNodes + [sccNode])
    && (forall k :: 0 <= k < |sccNodes| ==> MembersOf(nt, comp, sccNodes[k], k))
    && MembersOf(nt, comp, sccNode, |sccNodes|)
    && (forall j, k :: 0 <= j < k < |sccNodes| ==> sccNodes[j] != sccNodes[k])
  }

  lemma PoppedIsRecordable(st: DfsState, sccNode: SCCNode, nt: NodeTable, g: Graph, s: Search, m: nat,
                           before: map<CGNode, SCCNode?>)
    requires BeforePopping(nt, g, s, m, st.sccNodes, before)
    requires AfterPopping(st, sccNode, nt, g, s, m, before)
    ensures Recordable(st.sccNodes, sccNode, nt, Pop(s, m).comp)
  {
    hide MembersOf, Popping, PointsTo;
    PoppedMembers(nt, s, sccNode, m);
    PopPointers(nt, s, st.sccNodes, sccNode, m, before);
    MembersKeptAll(nt, s, m, st.sccNodes);
  }

  /** The push onto sccNodes (callgraph.cpp:1611). */
  method RecordScc(st: DfsState, sccNode: SCCNode, ghost s: Search, ghost nt: NodeTable, ghost g: Graph, ghost m: nat)
    requires VectorsMatch(st, nt, g, s, m) && Poppable(st, nt, g)
    requires st.numOfSccs == |st.sccNodes| + 1 && m <= |s.stack| && st.visitStack == s.stack[..m]
    requires Recordable(st.sccNodes, sccNode, nt, Pop(s, m).comp)
    requires sccNode !in st.sccNodes
    modifies st`sccNodes, st`comp
    ensures st.Linked(nt, g)
    ensures st.Abs() == Pop(s, m)
    ensures st.sccNodes == old(st.sccNodes) + [sccNode]
  {
    hide MembersOf, PointersAre;
    st.sccNodes := st.sccNodes + [sccNode];
    st.comp := Pop(s, m).comp;
    assert st.Vectors(nt, g) by {
      forall i | i in st.visitStack ensures i < |g| {
        var t :| 0 <= t < |st.visitStack| && st.visitStack[t] == i;
        assert EntryOk(st, nt, g, st.visitStack[t]);
      }
    }
  }

  method CloseScc(id: nat, st: DfsState, ghost nt: NodeTable, ghost g: Graph, ghost m: nat)
    requires st.Linked(nt, g) && Indexed(nt)
    requires Shape(g, st.Abs()) && StackShape(g, st.Abs())
    requires m < |st.visitStack| && st.visitStack[m] == id
    modifies st, nt.all`sccNode
    ensures st.Linked(nt, g)
    ensures st.Abs() == Pop(old(st.Abs()), m)
    ensures st.lowestOrder == old(st.lowestOrder)
    ensures forall scc :: scc in st.sccNodes ==> scc in old(st.sccNodes) || fresh(scc)
  {
    hide Shape, StackShape, Popping, BeforePopping, Poppable, Recordable, VectorsMatch, Indexed;
    hide DfsState.Pointers, DfsState.Members, DfsState.Vectors;
    ghost var s := st.Abs();
    ghost var before := map n | n in nt.all :: n.sccNode;
    StartPopping(st, nt, g, m, before);
    var sccNode := PopLoop(id, st, nt, g, m);
    PoppedIsRecordable(st, sccNode, nt, g, s, m, before);
    RecordScc(st, sccNode, s, nt, g, m);
  }

  /** lowestOrder of a node is written only by the node's own call. */
  ghost predicate LowKept(s0: Search, low0: seq<nat>, low: seq<nat>) {
    |low0| == |low| == |s0.order| && forall v :: 0 <= v < |low0| && s0.order[v] > 0 ==> low[v] == low0[v]
  }

  ghost function Unvisited(s: Search): set<nat> {
    set v: nat | v < |s.order| && s.order[v] == 0
  }

  lemma UnvisitedShrinks(g: Graph, s0: Search, s: Search, u: nat)
    requires Shape(g, s0) && Shape(g, s) && Extends(g, s0, s) && u < |g| && !Visited(s0, u) && Visited(s, u)
    ensures Unvisited(s) < Unvisited(s0)
  {
    assert u in Unvisited(s0) && u !in Unvisited(s);
  }

  /** What every part of the search keeps. */
  ghost predicate Running(st: DfsState, nt: NodeTable, g: Graph)
    reads st, st.sccNodes, nt.all`sccNode, nt.all`callees
  {
    st.Linked(nt, g) && GraphOf(nt, g)
  }

  lemma UnvisitedOffStack(st: DfsState, nt: NodeTable, g: Graph, gray: set<nat>, u: nat)
    requires GraphOf(nt, g) && Inv(g, st.Abs(), gray) && !Visited(st.Abs(), u) && u in nt.byId
    ensures u < |g| && u !in st.visitStack
  {
  }

  /** The head of BuildSCCDFS (callgraph.cpp:1573-1579). */
  method StartNode(caller: CGNode, st: DfsState, ghost nt: NodeTable, ghost g: Graph, ghost gray: set<nat>)
    requires Running(st, nt, g) && caller in nt.all
    requires Inv(g, st.Abs(), gray) && !Visited(st.Abs(), caller.id)
    requires forall x :: x in gray ==> Reach(g, x, caller.id)
    modifies st
    ensures Running(st, nt, g) && caller.id < |st.lowestOrder|
    ensures Scanning(g, old(st.Abs()), st.Abs(), gray, caller.id, {}, st.lowestOrder[caller.id])
    ensures LowKept(old(st.Abs()), old(st.lowestOrder), st.lowestOrder)
    ensures Unvisited(st.Abs()) < Unvisited(old(st.Abs()))
    ensures st.sccNodes == old(st.sccNodes)
  {
    hide Inv, Scanning, Reach, DfsState.Pointers, DfsState.Members;
    UnvisitedOffStack(st, nt, g, gray, caller.id);
    ScanningStart(g, st.Abs(), gray, caller.id);
    StartUnvisited(g, st.Abs(), gray, caller.id);
    EnterNode(caller, st, nt, g);
  }

  lemma StartUnvisited(g: Graph, s: Search, gray: set<nat>, u: nat)
    requires u < |s.order| && Inv(g, s, gray) && !Visited(s, u) && u < |g|
    ensures Unvisited(Enter(s, u)) < Unvisited(s)
  {
    assert u in Unvisited(s) && u !in Unvisited(Enter(s, u));
  }

  lemma ScanningBasics(st: DfsState, nt: NodeTable, g: Graph, s0: Search, gray: set<nat>, u: nat, scanned: set<nat>,
                       low: nat)
    requires Running(st, nt, g) && Scanning(g, s0, st.Abs(), gray, u, scanned, low)
    ensures |st.visitedOrder| == |st.lowestOrder| == |st.inStack| == |g| && u < |g|
    ensures forall v :: v in g[u] ==> v < |g|
    ensures forall v :: 0 <= v < |g| ==> (st.inStack[v] <==> v in st.visitStack)
    ensures |s0.order| == |g| && s0.order[u] == 0
    ensures |s0.stack| < |st.visitStack| && st.visitStack[|s0.stack|] == u
    ensures Inv(g, s0, gray) && Inv(g, st.Abs(), gray + {u}) && Shape(g, st.Abs()) && StackShape(g, st.Abs())
    ensures Indexed(nt)
  {
    GraphOfValid(nt, g);
    hide Reach, StackReachesGray, StackReachesUp, BlackClosed, DoneClosed, CompIsScc, EdgeBound, LowWitness, Extends;
  }

  lemma LowKeptOn(g: Graph, s0: Search, s: Search, low0: seq<nat>, low1: seq<nat>, low2: seq<nat>)
    requires LowKept(s0, low0, low1) && LowKept(s, low1, low2) && Shape(g, s0) && Shape(g, s) && Extends(g, s0, s)
    ensures LowKept(s0, low0, low2)
  {
  }

  /** What one recursive call means to the caller's scan; the whole state is passed by value. */
  lemma TreeEdgeDone(g: Graph, s0: Search, s: Search, s1: Search, gray: set<nat>, u: nat, v: nat, scanned: set<nat>,
      low0: seq<nat>, low1: seq<nat>, low2: seq<nat>)
    requires u < |low1| && u < |low2| && v < |low2| && u < |g| && v in g[u]
    requires Scanning(g, s0, s, gray, u, scanned, low1[u]) && Returned(g, s, s1, gray + {u}, v, low2[v])
    requires LowKept(s0, low0, low1) && LowKept(s, low1, low2)
    ensures Scanning(g, s0, s1, gray, u, scanned + {v}, if low2[v] < low2[u] then low2[v] else low2[u])
    ensures LowKept(s0, low0, low2) && u < |s0.order| && s0.order[u] == 0
    ensures Unvisited(s1) < Unvisited(s)
  {
    hide Reach, StackReachesGray, StackReachesUp, BlackClosed, StackShape, DoneClosed, CompIsScc, EdgeBound, LowWitness;
    hide Extends;
    assert Visited(s, u) by { NodeVisited(g, s, s0, gray, u); }
    TreeEdge(g, s0, s, s1, gray, u, v, scanned, low1[u], low2[v]);
    LowKeptOn(g, s0, s, low0, low1, low2);
    UnvisitedShrinks(g, s, s1, v);
  }

  lemma NodeVisited(g: Graph, s: Search, s0: Search, gray: set<nat>, u: nat)
    requires Inv(g, s, gray + {u})
    ensures Visited(s, u)
  {
    assert u in s.stack;
  }

  /** One turn of the loop over the callees (callgraph.cpp:1586-1596). */
  method VisitCallee(id: nat, calleeNode: CGNode, st: DfsState, ghost nt: NodeTable, ghost g: Graph,
                     ghost gray: set<nat>, ghost s0: Search, ghost low0: seq<nat>, ghost scanned: set<nat>)
    requires Running(st, nt, g) && id < |st.lowestOrder| && calleeNode in nt.all
    requires Scanning(g, s0, st.Abs(), gray, id, scanned, st.lowestOrder[id]) && LowKept(s0, low0, st.lowestOrder)
    requires id < |g| && calleeNode.id in g[id]
    modifies st, nt.all`sccNode
    ensures Running(st, nt, g) && id < |st.lowestOrder|
    ensures Scanning(g, s0, st.Abs(), gray, id, scanned + {calleeNode.id}, st.lowestOrder[id])
    ensures LowKept(s0, low0, st.lowestOrder)
    ensures Unvisited(st.Abs()) <= Unvisited(old(st.Abs()))
    ensures forall scc :: scc in st.sccNodes ==> scc in old(st.sccNodes) || fresh(scc)
    decreases Unvisited(st.Abs()), 1
  {
    hide Inv, Scanning, Returned, Reach, GraphOf, DfsState.Pointers, DfsState.Members, Shape, StackShape, Unvisited;
    hide Indexed;
    var calleeId := calleeNode.id;
    ghost var s, low1 := st.Abs(), st.lowestOrder;
    ScanningBasics(st, nt, g, s0, gray, id, scanned, st.lowestOrder[id]);
    if st.visitedOrder[calleeId] == 0 {
      GrayReachesCallee(g, s0, s, gray, id, calleeId, scanned, st.lowestOrder[id]);
      BuildSCCDFS(calleeNode, st, nt, g, gray + {id});
      TreeEdgeDone(g, s0, s, st.Abs(), gray, id, calleeId, scanned, low0, low1, st.lowestOrder);
      if st.lowestOrder[calleeId] < st.lowestOrder[id] {
        st.lowestOrder := st.lowestOrder[id := st.lowestOrder[calleeId]];
      }
    } else {
      VisitedEdge(g, s0, s, gray, id, calleeId, scanned, st.lowestOrder[id]);
      if st.inStack[calleeId] && st.visitedOrder[calleeId] < st.lowestOrder[id] {
        st.lowestOrder := st.lowestOrder[id := st.visitedOrder[calleeId]];
      }
    }
  }

  /** The root test and the popping (callgraph.cpp:1599-1612). */
  method FinishNode(caller: CGNode, st: DfsState, ghost nt: NodeTable, ghost g: Graph, ghost gray: set<nat>,
                    ghost s0: Search)
    requires Running(st, nt, g) && caller.id < |st.lowestOrder| && caller.id < |g|
    requires Scanning(g, s0, st.Abs(), gray, caller.id, g[caller.id], st.lowestOrder[caller.id])
    modifies st, nt.all`sccNode
    ensures Running(st, nt, g) && caller.id < |st.lowestOrder|
    ensures Returned(g, s0, st.Abs(), gray, caller.id, st.lowestOrder[caller.id])
    ensures st.lowestOrder == old(st.lowestOrder)
    ensures forall scc :: scc in st.sccNodes ==> scc in old(st.sccNodes) || fresh(scc)
  {
    hide Inv, Scanning, Returned, Reach, GraphOf, DfsState.Pointers, DfsState.Members, Shape, StackShape, Indexed, Pop;
    var id := caller.id;
    ghost var s := st.Abs();
    ScanningBasics(st, nt, g, s0, gray, id, g[id], st.lowestOrder[id]);
    if st.visitedOrder[id] == st.lowestOrder[id] {
      PopScc(g, s0, s, gray, id);
      CloseScc(id, st, nt, g, |s0.stack|);
    } else {
      LowAtMost(g, s0, s, gray, id, st.lowestOrder[id]);
      Leave(g, s0, s, gray, id, st.lowestOrder[id]);
    }
  }

  lemma LowAtMost(g: Graph, s0: Search, s: Search, gray: set<nat>, u: nat, low: nat)
    requires u < |g| && Scanning(g, s0, s, gray, u, g[u], low)
    ensures u < |s.order| && low <= s.order[u]
  {
  }

  lemma CalleeKnown(nt: NodeTable, g: Graph, n: CGNode, i: nat)
    requires GraphOf(nt, g) && n in nt.all && i < |n.callees| && n.callees[i].node != null
    ensures n.id < |g| && n.callees[i].node in nt.all && n.callees[i].node.id in g[n.id]
  {
    assert KnownCallees(nt, nt.byId[n.id].callees);
    assert n.callees[i] in n.callees;
  }

  lemma CalleesAreEdges(nt: NodeTable, g: Graph, n: CGNode)
    requires GraphOf(nt, g) && n in nt.all
    ensures n.id < |g| && g[n.id] == CalleeIds(n.callees)
  {
  }

  lemma CalleeIdsStep(cs: seq<Callsite>, i: nat)
    requires i < |cs|
    ensures CalleeIds(cs[..i + 1]) == CalleeIds(cs[..i]) + if cs[i].node != null then {cs[i].node.id} else {}
  {
    assert cs[..i + 1] == cs[..i] + [cs[i]];
  }

  /** CallGraph::BuildSCCDFS: everything reachable from `caller` is visited, and the SCCs
      that are complete are put into sccNodes. */
  method BuildSCCDFS(caller: CGNode, st: DfsState, ghost nt: NodeTable, ghost g: Graph, ghost gray: set<nat>)
    requires Running(st, nt, g) && caller in nt.all
    requires Inv(g, st.Abs(), gray) && !Visited(st.Abs(), caller.id)
    requires forall x :: x in gray ==> Reach(g, x, caller.id)
    modifies st, nt.all`sccNode
    ensures Running(st, nt, g)
    ensures caller.id < |st.lowestOrder|
    ensures Returned(g, old(st.Abs()), st.Abs(), gray, caller.id, st.lowestOrder[caller.id])
    ensures LowKept(old(st.Abs()), old(st.lowestOrder), st.lowestOrder)
    ensures forall scc :: scc in st.sccNodes ==> scc in old(st.sccNodes) || fresh(scc)
    decreases Unvisited(st.Abs()), 0
  {
    hide Inv, Scanning, Returned, Reach, LowKept, GraphOf, DfsState.Linked;
    var id := caller.id;
    ghost var s0, low0 := st.Abs(), st.lowestOrder;
    StartNode(caller, st, nt, g, gray);
    assert CalleeIds(caller.callees[..0]) == {};
    var i := 0;
    while i < |caller.callees|
      invariant i <= |caller.callees|
      invariant Running(st, nt, g) && id < |st.lowestOrder|
      invariant Scanning(g, s0, st.Abs(), gray, id, CalleeIds(caller.callees[..i]), st.lowestOrder[id])
      invariant LowKept(s0, low0, st.lowestOrder)
      invariant Unvisited(st.Abs()) < Unvisited(s0)
      invariant forall scc :: scc in st.sccNodes ==> scc in old(st.sccNodes) || fresh(scc)
    {
      var calleeNode := caller.callees[i].node;
      CalleeIdsStep(caller.callees, i);
      if calleeNode != null {
        CalleeKnown(nt, g, caller, i);
        VisitCallee(id, calleeNode, st, nt, g, gray, s0, low0, CalleeIds(caller.callees[..i]));
      } else {
        assert CalleeIds(caller.callees[..i + 1]) == CalleeIds(caller.callees[..i]);
      }
      i := i + 1;
    }
    assert caller.callees[..i] == caller.callees;
    CalleesAreEdges(nt, g, caller);
    FinishNode(caller, st, nt, g, gray, s0);
  }
}
