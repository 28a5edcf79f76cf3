/** The call graph and its nodes: mapleall/maple_ipa/include/callgraph.h. */
module CallGraphNodes {
  import opened Options
  import opened Reachability

  datatype CallType =
    | CallInvalid | CallDirect | CallVirtual | CallSuper | CallInterface | CallIndirect
    | CallIntrinsic | CallXintrinsic | CallIntrinsicWithType | CallCustom | CallPolymorphic | CallFakeThreadStart

  datatype CallInfo = CallInfo(ctype: CallType, id: nat)

  /** The parts of MIRFunction that the call graph reads. */
  datatype MIRFunction = MIRFunction(puIdx: nat, name: string, hasBody: bool, isNative: bool)

  datatype Callsite = Callsite(info: CallInfo, node: CGNode?)

  class CGNode {
    const id: nat
    const mirFunc: Option<MIRFunction>
    var sccNode: SCCNode?
    var callees: seq<Callsite>
    var callerSet: set<CGNode>
    var stmtcount: nat

    constructor (func: Option<MIRFunction>, index: nat)
      ensures id == index && mirFunc == func && sccNode == null && callees == [] && callerSet == {} && stmtcount == 0
    {
      id := index;
      mirFunc := func;
      sccNode := null;
      callees := [];
      callerSet := {};
      stmtcount := 0;
    }
  }

  class SCCNode {
    const id: nat
    var cgNodes: seq<CGNode>
    var callerScc: set<SCCNode>
    var calleeScc: set<SCCNode>

    constructor (index: nat)
      ensures id == index && cgNodes == [] && callerScc == {} && calleeScc == {}
    {
      id := index;
      cgNodes := [];
      callerScc := {};
      calleeScc := {};
    }

    method AddCGNode(cgn: CGNode)
      modifies this`cgNodes
      ensures cgNodes == old(cgNodes) + [cgn]
    {
      cgNodes := cgNodes + [cgn];
    }
  }

  function CalleeIds(cs: seq<Callsite>): (r: set<nat>) {
    set c | c in cs && c.node != null :: c.node.id
  }

  /** The nodes of a call graph, found by their id. */
  datatype NodeTable = NodeTable(all: set<CGNode>, byId: map<nat, CGNode>)

  ghost predicate Indexed(nt: NodeTable) {
    && (forall i :: i in nt.byId ==> nt.byId[i] in nt.all && nt.byId[i].id == i)
    && (forall n :: n in nt.all ==> n.id in nt.byId && nt.byId[n.id] == n)
  }

  /** `g` is the call relation of the nodes of `byId`; every callee is one of the nodes. */
  ghost predicate GraphOf(nt: NodeTable, g: Graph)
    reads nt.all`callees
  {
    && Indexed(nt)
    && (forall i :: i in nt.byId ==> i < |g|)
    && (forall i :: i in nt.byId ==> g[i] == CalleeIds(nt.byId[i].callees))
    && (forall i :: i in nt.byId ==> KnownCallees(nt, nt.byId[i].callees))
    && (forall i :: 0 <= i < |g| && i !in nt.byId ==> g[i] == {})
  }

  ghost predicate KnownCallees(nt: NodeTable, cs: seq<Callsite>) {
    forall c :: c in cs && c.node != null ==> c.node.id in nt.byId && nt.byId[c.node.id] == c.node
  }

  lemma GraphOfValid(nt: NodeTable, g: Graph)
    requires GraphOf(nt, g)
    ensures ValidGraph(g)
  {
    forall i, v | 0 <= i < |g| && v in g[i] ensures v < |g| {
      assert i in nt.byId && KnownCallees(nt, nt.byId[i].callees);
    }
  }
}
