/** Directed graphs over node ids, and the reachability relation that the call-graph
    results are stated in.  `g[u]` is the set of callee ids of node `u`. */
module Reachability {

  type Graph = seq<set<nat>>

  ghost predicate ValidGraph(g: Graph) {
    forall u, v :: 0 <= u < |g| && v in g[u] ==> v < |g|
  }

  /** `v` is reached from `u` by exactly `k` edges. */
  ghost predicate ReachIn(g: Graph, u: nat, v: nat, k: nat)
    decreases k
  {
    u < |g| &&
    if k == 0 then u == v
    else exists w :: w in g[u] && ReachIn(g, w, v, k - 1)
  }

  /** `v` is reached from `u` by zero or more edges. */
  ghost predicate Reach(g: Graph, u: nat, v: nat) {
    exists k: nat :: ReachIn(g, u, v, k)
  }

  /** `v` is reached from `u` by one or more edges. */
  ghost predicate ReachPlus(g: Graph, u: nat, v: nat) {
    u < |g| && exists w :: w in g[u] && Reach(g, w, v)
  }

  ghost predicate Mutual(g: Graph, u: nat, v: nat) {
    Reach(g, u, v) && Reach(g, v, u)
  }

  ghost predicate Closed(g: Graph, c: set<nat>) {
    forall u, v :: u in c && u < |g| && v in g[u] ==> v in c
  }

  lemma ReachRefl(g: Graph, u: nat)
    requires u < |g|
    ensures Reach(g, u, u)
  {
    assert ReachIn(g, u, u, 0);
  }

  lemma ReachStep(g: Graph, u: nat, w: nat, v: nat)
    requires u < |g| && w in g[u] && Reach(g, w, v)
    ensures Reach(g, u, v)
  {
    var k: nat :| ReachIn(g, w, v, k);
    assert ReachIn(g, u, v, k + 1);
  }

  lemma ReachEdge(g: Graph, u: nat, v: nat)
    requires ValidGraph(g) && u < |g| && v in g[u]
    ensures Reach(g, u, v)
  {
    ReachRefl(g, v);
    ReachStep(g, u, v, v);
  }

  lemma {:induction false} ReachInTrans(g: Graph, u: nat, v: nat, w: nat, j: nat, k: nat)
    requires ReachIn(g, u, v, j) && ReachIn(g, v, w, k)
    ensures ReachIn(g, u, w, j + k)
    decreases j
  {
    if j > 0 {
      var x :| x in g[u] && ReachIn(g, x, v, j - 1);
      ReachInTrans(g, x, v, w, j - 1, k);
    }
  }

  lemma ReachTrans(g: Graph, u: nat, v: nat, w: nat)
    requires Reach(g, u, v) && Reach(g, v, w)
    ensures Reach(g, u, w)
  {
    var j: nat :| ReachIn(g, u, v, j);
    var k: nat :| ReachIn(g, v, w, k);
    ReachInTrans(g, u, v, w, j, k);
  }

  /** A path cannot leave a closed set. */
  lemma {:induction false} ClosedReachIn(g: Graph, c: set<nat>, u: nat, v: nat, k: nat)
    requires Closed(g, c) && u in c && ReachIn(g, u, v, k)
    ensures v in c
    decreases k
  {
    if k > 0 {
      var w :| w in g[u] && ReachIn(g, w, v, k - 1);
      ClosedReachIn(g, c, w, v, k - 1);
    }
  }

  lemma ClosedReach(g: Graph, c: set<nat>, u: nat, v: nat)
    requires Closed(g, c) && u in c && Reach(g, u, v)
    ensures v in c
  {
    var k: nat :| ReachIn(g, u, v, k);
    ClosedReachIn(g, c, u, v, k);
  }

  /** A walk that comes back is made of mutually reachable nodes. */
  lemma ReachPlusIsReach(g: Graph, u: nat, v: nat)
    requires ReachPlus(g, u, v)
    ensures Reach(g, u, v)
  {
    var w :| w in g[u] && Reach(g, w, v);
    ReachStep(g, u, w, v);
  }

  lemma ReachSplit(g: Graph, u: nat, v: nat)
    requires Reach(g, u, v) && u != v
    ensures ReachPlus(g, u, v)
  {
    var k: nat :| ReachIn(g, u, v, k);
    var w :| w in g[u] && ReachIn(g, w, v, k - 1);
    assert Reach(g, w, v);
  }

  /** A node that is reached from another node has a predecessor. */
  lemma {:induction false} ReachInLastEdge(g: Graph, u: nat, v: nat, k: nat) returns (w: nat)
    requires ReachIn(g, u, v, k) && u != v
    ensures w < |g| && v in g[w]
    decreases k
  {
    var x :| x in g[u] && ReachIn(g, x, v, k - 1);
    if x == v {
      w := u;
    } else {
      w := ReachInLastEdge(g, x, v, k - 1);
    }
  }

  lemma ReachLastEdge(g: Graph, u: nat, v: nat) returns (w: nat)
    requires Reach(g, u, v) && u != v
    ensures w < |g| && v in g[w]
  {
    var k: nat :| ReachIn(g, u, v, k);
    w := ReachInLastEdge(g, u, v, k);
  }
}
