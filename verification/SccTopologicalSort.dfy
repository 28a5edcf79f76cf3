/** CallGraph::SCCTopologicalSort: the worklist that orders the condensation top-down. */
module SccTopologicalSort {
  import opened CallGraphNodes
  import opened Sequences

  /** callerScc and calleeScc are inverse to each other and stay among `all`; calls go to a
      smaller id, so the condensation has no cycle. */
  ghost predicate Acyclic(all: set<SCCNode>)
    reads all
  {
    forall a :: a in all ==> a.callerScc <= all && a.calleeScc <= all && CallersAre(all, a)
  }

  ghost predicate CallersAre(all: set<SCCNode>, a: SCCNode)
    reads a, all
  {
    && (forall b :: b in all ==> (b in a.callerScc <==> a in b.calleeScc))
    && (forall b :: b in a.callerScc ==> a.id < b.id)
  }

  ghost function Range(s: seq<SCCNode>): set<SCCNode> {
    set x | x in s
  }

  /** Every caller of an entry stands before the entry. */
  ghost predicate CallersFirst(vec: seq<SCCNode>)
    reads vec
  {
    forall j :: 0 <= j < |vec| ==> CallersWithin(vec[j], vec[..j])
  }

  ghost predicate CallersWithin(scc: SCCNode, prefix: seq<SCCNode>)
    reads scc
  {
    forall b :: b in scc.callerScc ==> b in prefix
  }

  /** A component that is not queued has a caller that the loop has not come to. */
  ghost predicate Blocked(all: set<SCCNode>, vec: seq<SCCNode>, i: nat)
    requires i <= |vec|
    reads all
  {
    forall c :: c in all && c !in vec ==> HasUnprocessedCaller(c, vec[..i])
  }

  ghost predicate HasUnprocessedCaller(c: SCCNode, processed: seq<SCCNode>)
    reads c
  {
    exists b :: b in c.callerScc && b !in processed
  }

  ghost predicate Queue(all: set<SCCNode>, vec: seq<SCCNode>, inQueue: set<SCCNode>)
    reads vec
  {
    && Distinct(vec) && Range(vec) == inQueue && inQueue <= all && CallersFirst(vec)
  }

  lemma PushKeepsQueue(all: set<SCCNode>, vec: seq<SCCNode>, inQueue: set<SCCNode>, scc: SCCNode)
    requires Queue(all, vec, inQueue) && scc in all && scc !in inQueue && scc.callerScc <= inQueue
    ensures Queue(all, vec + [scc], inQueue + {scc})
  {
    var vec1 := vec + [scc];
    assert Range(vec1) == Range(vec) + {scc};
    assert scc !in vec;
    forall j | 0 <= j < |vec1| ensures CallersWithin(vec1[j], vec1[..j]) {
      if j < |vec| {
        assert vec1[..j] == vec[..j] && CallersWithin(vec[j], vec[..j]);
      } else {
        assert vec1[..j] == vec;
      }
    }
  }

  method PushRoots(sccNodes: seq<SCCNode>, ghost all: set<SCCNode>) returns (vec: seq<SCCNode>, inQueue: set<SCCNode>)
    requires Acyclic(all) && Range(sccNodes) == all && Distinct(sccNodes)
    ensures Queue(all, vec, inQueue)
    ensures forall c :: c in all && c !in vec ==> c.callerScc != {}
  {
    vec, inQueue := [], {};
    var k := 0;
    while k < |sccNodes|
      invariant k <= |sccNodes|
      invariant Queue(all, vec, inQueue)
      invariant forall c :: c in inQueue ==> c in sccNodes[..k]
      invariant forall j :: 0 <= j < k && sccNodes[j] !in inQueue ==> sccNodes[j].callerScc != {}
    {
      var node := sccNodes[k];
      assert node in all;
      assert sccNodes[..k + 1] == sccNodes[..k] + [node];
      if node.callerScc == {} {
        PushKeepsQueue(all, vec, inQueue, node);
        vec := vec + [node];
        inQueue := inQueue + {node};
      }
      k := k + 1;
    }
  }

  /** Whether all callers are queued: the inner loop with its early exit (callgraph.cpp:1681-1688). */
  method CallersAllVisited(callee: SCCNode, inQueue: set<SCCNode>) returns (callerAllVisited: bool)
    ensures callerAllVisited <==> callee.callerScc <= inQueue
  {
    callerAllVisited := true;
    var rest := callee.callerScc;
    while rest != {}
      invariant rest <= callee.callerScc && callee.callerScc - rest <= inQueue
      decreases rest
    {
      var caller :| caller in rest;
      rest := rest - {caller};
      if caller !in inQueue {
        return false;
      }
    }
  }

  lemma StillBlocked(c: SCCNode, inQueue: set<SCCNode>, vec: seq<SCCNode>, processed: seq<SCCNode>)
    requires !(c.callerScc <= inQueue) && Range(vec) == inQueue && processed <= vec
    ensures HasUnprocessedCaller(c, processed)
  {
    var b :| b in c.callerScc && b !in inQueue;
    assert forall x :: x in processed ==> x in vec;
  }

  lemma NextBlocked(all: set<SCCNode>, vec0: seq<SCCNode>, vec: seq<SCCNode>, i: nat)
    requires Acyclic(all) && i < |vec0| && vec0 <= vec && Blocked(all, vec0, i) && vec0[i] in all
    requires forall c :: c in vec0[i].calleeScc && c !in vec ==> HasUnprocessedCaller(c, vec0[..i + 1])
    ensures Blocked(all, vec, i + 1)
  {
    assert vec[..i + 1] == vec0[..i + 1] == vec0[..i] + [vec0[i]];
    forall c | c in all && c !in vec ensures HasUnprocessedCaller(c, vec[..i + 1]) {
      if c !in vec0[i].calleeScc {
        assert c !in vec0 && HasUnprocessedCaller(c, vec0[..i]);
        var b :| b in c.callerScc && b !in vec0[..i];
        assert CallersAre(all, c);
      }
    }
  }

  lemma ProcessContext(all: set<SCCNode>, vec0: seq<SCCNode>, inQueue0: set<SCCNode>, i: nat)
    requires Acyclic(all) && Queue(all, vec0, inQueue0) && i < |vec0|
    ensures vec0[i] in all && vec0[i].calleeScc <= all
  {
    assert vec0[i] in Range(vec0);
  }

  /** The loop over the callees of one queued component (callgraph.cpp:1678-1694). */
  method ProcessOne(vec0: seq<SCCNode>, inQueue0: set<SCCNode>, i: nat, ghost all: set<SCCNode>)
    returns (vec: seq<SCCNode>, inQueue: set<SCCNode>)
    requires Acyclic(all) && Queue(all, vec0, inQueue0) && i < |vec0|
    requires Blocked(all, vec0, i)
    ensures Queue(all, vec, inQueue) && vec0 <= vec
    ensures Blocked(all, vec, i + 1)
  {
    hide Acyclic, Blocked, CallersFirst, HasUnprocessedCaller, Distinct;
    vec, inQueue := vec0, inQueue0;
    var sccNode := vec0[i];
    ProcessContext(all, vec0, inQueue0, i);
    var rest := sccNode.calleeScc;
    while rest != {}
      invariant rest <= sccNode.calleeScc
      invariant Queue(all, vec, inQueue) && vec0 <= vec
      invariant forall c :: c in sccNode.calleeScc - rest && c !in vec ==> HasUnprocessedCaller(c, vec0[..i + 1])
      decreases rest
    {
      var callee :| callee in rest;
      rest := rest - {callee};
      if callee !in inQueue {
        var callerAllVisited := CallersAllVisited(callee, inQueue);
        if callerAllVisited {
          PushKeepsQueue(all, vec, inQueue, callee);
          vec := vec + [callee];
          inQueue := inQueue + {callee};
        } else {
          StillBlocked(callee, inQueue, vec, vec0[..i + 1]);
        }
      }
    }
    NextBlocked(all, vec0, vec, i);
  }

  /** When the worklist is exhausted nothing is blocked: callers have larger ids, so a missing
      component would have a missing caller with a larger id, and so on without end. */
  lemma {:induction false} NothingMissing(all: set<SCCNode>, vec: seq<SCCNode>, c: SCCNode, top: nat)
    requires Acyclic(all) && Blocked(all, vec, |vec|) && c in all
    requires forall a :: a in all ==> a.id <= top
    ensures c in vec
    decreases top - c.id
  {
    if c !in vec {
      assert vec[..|vec|] == vec && HasUnprocessedCaller(c, vec[..|vec|]);
      var b :| b in c.callerScc && b !in vec;
      assert CallersAre(all, c) && b in all;
      NothingMissing(all, vec, b, top);
    }
  }

  method SCCTopologicalSort(sccNodes: seq<SCCNode>) returns (sccTopologicalVec: seq<SCCNode>)
    requires Acyclic(Range(sccNodes)) && Distinct(sccNodes)
    requires forall a :: a in sccNodes ==> a.id < |sccNodes|
    ensures Distinct(sccTopologicalVec) && Range(sccTopologicalVec) == Range(sccNodes)
    ensures CallersFirst(sccTopologicalVec)
  {
    ghost var all := Range(sccNodes);
    var inQueue;
    sccTopologicalVec, inQueue := PushRoots(sccNodes, all);
    var i := 0;
    assert Blocked(all, sccTopologicalVec, 0);
    while i < |sccTopologicalVec|
      invariant i <= |sccTopologicalVec|
      invariant Queue(all, sccTopologicalVec, inQueue)
      invariant Blocked(all, sccTopologicalVec, i)
      decreases |sccNodes| - i
    {
      QueueBounded(sccNodes, sccTopologicalVec);
      sccTopologicalVec, inQueue := ProcessOne(sccTopologicalVec, inQueue, i, all);
      i := i + 1;
    }
    forall c | c in all ensures c in sccTopologicalVec {
      NothingMissing(all, sccTopologicalVec, c, |sccNodes|);
    }
  }

  lemma {:induction false} DistinctSize(s: seq<SCCNode>)
    requires Distinct(s)
    ensures |Range(s)| == |s|
  {
    if s != [] {
      var t := s[..|s| - 1];
      DistinctSize(t);
      assert s == t + [s[|s| - 1]];
      assert Range(s) == Range(t) + {s[|s| - 1]};
      assert s[|s| - 1] !in t;
    }
  }

  lemma {:induction false} SubsetSize(a: set<SCCNode>, b: set<SCCNode>)
    requires a <= b
    ensures |a| <= |b|
  {
    if a != {} {
      var x :| x in a;
      SubsetSize(a - {x}, b - {x});
    }
  }

  lemma QueueBounded(sccNodes: seq<SCCNode>, vec: seq<SCCNode>)
    requires Distinct(sccNodes) && Distinct(vec) && Range(vec) <= Range(sccNodes)
    ensures |vec| <= |sccNodes|
  {
    DistinctSize(sccNodes);
    DistinctSize(vec);
    SubsetSize(Range(vec), Range(sccNodes));
  }
}
