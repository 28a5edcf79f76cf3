/** The reasoning behind CallGraph::BuildSCCDFS, on a value snapshot of the search state.
    The methods that run the search are in SccSearch.dfy; here the state of its vectors
    is a value, and each lemma is one move of the search. */
module Tarjan {
  import opened Reachability

  /** `order[v]` is visitedOrder (0 for an unvisited node), `stack` is visitStack from
      bottom to top, `next` is visitIndex, `comp[v]` is the position of the SCC that `v`
      was put in (-1 before that), `count` is the number of SCCs formed so far.
      lowestOrder is passed beside it, because the invariant does not depend on it. */
  datatype Search = Search(order: seq<nat>, stack: seq<nat>, next: nat, comp: seq<int>, count: nat)

  ghost predicate Visited(s: Search, v: nat) {
    v < |s.order| && s.order[v] > 0
  }

  ghost predicate Done(s: Search, v: nat) {
    v < |s.comp| && s.comp[v] >= 0
  }

  ghost predicate Shape(g: Graph, s: Search) {
    && ValidGraph(g)
    && |s.order| == |g| && |s.comp| == |g|
    && s.next >= 1
    && (forall v :: 0 <= v < |g| ==> s.order[v] < s.next)
    && (forall v :: 0 <= v < |g| ==> s.comp[v] < s.count)
  }

  ghost predicate StackShape(g: Graph, s: Search)
    requires Shape(g, s)
  {
    && (forall i :: 0 <= i < |s.stack| ==> s.stack[i] < |g|)
    && (forall i, j :: 0 <= i < j < |s.stack| ==> s.order[s.stack[i]] < s.order[s.stack[j]])
    && (forall v: nat :: v in s.stack <==> Visited(s, v) && !Done(s, v))
    && (forall v: nat :: Done(s, v) ==> Visited(s, v))
  }

  /** Nodes that are visited and no longer on the recursion path have only visited callees. */
  ghost predicate BlackClosed(g: Graph, s: Search, gray: set<nat>)
    requires Shape(g, s)
  {
    forall v, w :: 0 <= v < |g| && Visited(s, v) && v !in gray && w in g[v] ==> Visited(s, w)
  }

  /** A finished SCC calls only finished SCCs, and those were formed no later than itself. */
  ghost predicate DoneClosed(g: Graph, s: Search)
    requires Shape(g, s)
  {
    forall v, w :: 0 <= v < |g| && Done(s, v) && w in g[v] ==> Done(s, w) && s.comp[w] <= s.comp[v]
  }

  /** Every node on the stack reaches a node of the recursion path at or below it. */
  ghost predicate StackReachesGray(g: Graph, s: Search, gray: set<nat>)
    requires Shape(g, s)
  {
    forall v: nat :: v in s.stack && v < |g| ==> ReachesGray(g, s, gray, v)
  }

  ghost predicate ReachesGray(g: Graph, s: Search, gray: set<nat>, v: nat)
    requires Shape(g, s) && v < |g|
  {
    exists x: nat :: x in gray && x < |g| && s.order[x] <= s.order[v] && Reach(g, v, x)
  }

  lemma GrayWitness(g: Graph, s: Search, gray: set<nat>, v: nat) returns (x: nat)
    requires Shape(g, s) && v < |g| && v in s.stack && StackReachesGray(g, s, gray)
    ensures x in gray && x < |g| && s.order[x] <= s.order[v] && Reach(g, v, x)
  {
    assert ReachesGray(g, s, gray, v);
    x :| x in gray && x < |g| && s.order[x] <= s.order[v] && Reach(g, v, x);
  }

  /** Lower stack entries reach higher ones. */
  ghost predicate StackReachesUp(g: Graph, s: Search)
    requires Shape(g, s)
  {
    forall i, j :: 0 <= i <= j < |s.stack| ==> Reach(g, s.stack[i], s.stack[j])
  }

  /** Two finished nodes share an SCC exactly when each reaches the other. */
  ghost predicate CompIsScc(g: Graph, s: Search)
    requires Shape(g, s)
  {
    forall v, w :: 0 <= v < |g| && 0 <= w < |g| && s.comp[v] >= 0 && s.comp[w] >= 0 ==>
      (s.comp[v] == s.comp[w] <==> Mutual(g, v, w))
  }

  ghost predicate Inv(g: Graph, s: Search, gray: set<nat>) {
    && Shape(g, s)
    && StackShape(g, s)
    && (forall v :: v in gray ==> v in s.stack)
    && BlackClosed(g, s, gray)
    && DoneClosed(g, s)
    && StackReachesGray(g, s, gray)
    && StackReachesUp(g, s)
    && CompIsScc(g, s)
  }

  /** What the search may have done since `s0`: it only visits, pushes above and finishes. */
  ghost predicate Extends(g: Graph, s0: Search, s: Search)
    requires Shape(g, s0) && Shape(g, s)
  {
    && s0.next <= s.next && s0.count <= s.count
    && (forall v :: 0 <= v < |g| && s0.order[v] > 0 ==> s.order[v] == s0.order[v])
    && (forall v :: 0 <= v < |g| && s0.order[v] == 0 ==> s.order[v] == 0 || s.order[v] >= s0.next)
    && (forall v :: 0 <= v < |g| && s0.comp[v] >= 0 ==> s.comp[v] == s0.comp[v])
    && |s0.stack| <= |s.stack| && s.stack[..|s0.stack|] == s0.stack
  }

  lemma ExtendsTrans(g: Graph, a: Search, b: Search, c: Search)
    requires Shape(g, a) && Shape(g, b) && Shape(g, c)
    requires Extends(g, a, b) && Extends(g, b, c)
    ensures Extends(g, a, c)
  {
    assert c.stack[..|a.stack|] == c.stack[..|b.stack|][..|a.stack|];
  }

  // ---------------------------------------------------------------- entering a node

  function Enter(s: Search, u: nat): Search
    requires u < |s.order|
  {
    s.(order := s.order[u := s.next], next := s.next + 1, stack := s.stack + [u])
  }

  lemma EnterShape(g: Graph, s: Search, u: nat)
    requires Shape(g, s) && StackShape(g, s) && u < |g| && !Visited(s, u)
    ensures Shape(g, Enter(s, u)) && StackShape(g, Enter(s, u)) && Extends(g, s, Enter(s, u))
  {
    var s1 := Enter(s, u);
    assert forall i :: 0 <= i < |s.stack| ==> s1.stack[i] == s.stack[i] && s.stack[i] in s.stack;
    assert s1.stack[|s.stack|] == u;
    forall v: nat ensures v in s1.stack <==> Visited(s1, v) && !Done(s1, v) {
      if v != u {
        assert v in s1.stack <==> v in s.stack;
      }
    }
  }

  lemma EnterBlack(g: Graph, s: Search, gray: set<nat>, u: nat)
    requires Shape(g, s) && u < |g| && !Visited(s, u) && Shape(g, Enter(s, u))
    requires BlackClosed(g, s, gray)
    ensures BlackClosed(g, Enter(s, u), gray + {u})
  {
    var s1 := Enter(s, u);
    forall v, w | 0 <= v < |g| && Visited(s1, v) && v !in gray + {u} && w in g[v] ensures Visited(s1, w) {
      assert Visited(s, v) && Visited(s, w);
    }
  }

  lemma EnterReachesUp(g: Graph, s: Search, gray: set<nat>, u: nat)
    requires Shape(g, s) && StackShape(g, s) && u < |g| && !Visited(s, u) && Shape(g, Enter(s, u))
    requires StackReachesGray(g, s, gray) && StackReachesUp(g, s)
    requires forall x :: x in gray ==> Reach(g, x, u)
    ensures StackReachesUp(g, Enter(s, u))
  {
    hide Reach;
    var s1 := Enter(s, u);
    ReachRefl(g, u);
    forall i, j | 0 <= i <= j < |s1.stack| ensures Reach(g, s1.stack[i], s1.stack[j]) {
      if j == |s.stack| && i < j {
        var v := s.stack[i];
        var x := GrayWitness(g, s, gray, v);
        ReachTrans(g, v, x, u);
      }
    }
  }

  lemma EnterReachesGray(g: Graph, s: Search, gray: set<nat>, u: nat)
    requires Shape(g, s) && StackShape(g, s) && u < |g| && !Visited(s, u) && Shape(g, Enter(s, u))
    requires StackReachesGray(g, s, gray)
    requires forall x :: x in gray ==> x in s.stack
    ensures StackReachesGray(g, Enter(s, u), gray + {u})
  {
    hide Reach;
    var s1 := Enter(s, u);
    forall v: nat | v in s1.stack && v < |g| ensures ReachesGray(g, s1, gray + {u}, v) {
      if v == u {
        ReachRefl(g, u);
      } else {
        var x := GrayWitness(g, s, gray, v);
        assert x in s.stack && x != u && x in gray + {u};
        assert s1.order[x] <= s1.order[v];
      }
    }
  }

  lemma EnterKeepsInv(g: Graph, s: Search, gray: set<nat>, u: nat)
    requires Inv(g, s, gray) && u < |g| && !Visited(s, u)
    requires forall x :: x in gray ==> Reach(g, x, u)
    ensures Inv(g, Enter(s, u), gray + {u})
    ensures Extends(g, s, Enter(s, u))
  {
    hide Reach, StackReachesGray, StackReachesUp, BlackClosed, StackShape, Mutual;
    EnterShape(g, s, u);
    EnterBlack(g, s, gray, u);
    EnterReachesUp(g, s, gray, u);
    EnterReachesGray(g, s, gray, u);
  }

  // ---------------------------------------------------------------- scanning the callees

  /** `low` is `u`'s own number, or the number of a node below `u` on the stack that `u` reaches. */
  ghost predicate LowWitness(g: Graph, s0: Search, s: Search, u: nat, low: nat)
    requires Shape(g, s) && u < |g|
  {
    && low <= s.order[u]
    && (low < s.order[u] ==>
          exists y: nat :: y in s0.stack && y < |g| && s.order[y] == low && Reach(g, u, y))
  }

  /** No scanned edge from the stack segment that starts at `u` goes below `low`. */
  ghost predicate EdgeBound(g: Graph, s0: Search, s: Search, u: nat, scanned: set<nat>, low: nat)
    requires Shape(g, s)
  {
    forall i, y ::
      (|s0.stack| <= i < |s.stack| && s.stack[i] < |g| && y in s0.stack && y in g[s.stack[i]]
       && (s.stack[i] == u ==> y in scanned)) ==> low <= s.order[y]
  }

  /** Everything visited since `s0` is reachable from `u`. */
  ghost predicate VisitsReachable(g: Graph, s0: Search, s: Search, u: nat) {
    forall v: nat :: Visited(s, v) && !Visited(s0, v) ==> Reach(g, u, v)
  }

  /** The loop invariant of BuildSCCDFS(u), entered in state `s0`, after `scanned` callees. */
  ghost predicate Scanning(g: Graph, s0: Search, s: Search, gray: set<nat>, u: nat, scanned: set<nat>, low: nat) {
    && Inv(g, s0, gray) && Inv(g, s, gray + {u})
    && u < |g| && !Visited(s0, u)
    && Extends(g, s0, s)
    && |s0.stack| < |s.stack| && s.stack[|s0.stack|] == u
    && scanned <= g[u] && (forall v :: v in scanned ==> Visited(s, v))
    && VisitsReachable(g, s0, s, u)
    && LowWitness(g, s0, s, u, low)
    && EdgeBound(g, s0, s, u, scanned, low)
  }

  /** What BuildSCCDFS(u) has done when it returns: the contract of the recursive call. */
  ghost predicate Returned(g: Graph, s0: Search, s: Search, gray: set<nat>, u: nat, low: nat) {
    && Inv(g, s0, gray) && Inv(g, s, gray)
    && u < |g| && !Visited(s0, u) && Visited(s, u)
    && Extends(g, s0, s)
    && VisitsReachable(g, s0, s, u)
    && LowWitness(g, s0, s, u, low)
    && EdgeBound(g, s0, s, u, g[u], low)
  }

  lemma ScanningStart(g: Graph, s0: Search, gray: set<nat>, u: nat)
    requires Inv(g, s0, gray) && u < |g| && !Visited(s0, u)
    requires forall x :: x in gray ==> Reach(g, x, u)
    ensures Scanning(g, s0, Enter(s0, u), gray, u, {}, s0.next)
  {
    hide Reach, StackReachesGray, StackReachesUp, BlackClosed, StackShape, DoneClosed, CompIsScc;
    EnterKeepsInv(g, s0, gray, u);
    var s := Enter(s0, u);
    assert EdgeBound(g, s0, s, u, {}, s0.next);
    ReachRefl(g, u);
  }

  /** Stack entries below `u` are those with a smaller number. */
  lemma BelowOnStack(g: Graph, s: Search, m: nat, y: nat)
    requires Shape(g, s) && StackShape(g, s) && m < |s.stack| && s.stack[m] < |g|
    requires y < |g| && y in s.stack
    ensures y in s.stack[..m] <==> s.order[y] < s.order[s.stack[m]]
  {
    var i :| 0 <= i < |s.stack| && s.stack[i] == y;
    if i < m {
      assert s.stack[..m][i] == y;
    }
  }

  lemma NextEdge(g: Graph, s0: Search, s: Search, s1: Search, u: nat, v: nat, scanned: set<nat>, low: nat, lowV: nat)
    requires Shape(g, s0) && StackShape(g, s0) && Shape(g, s) && Shape(g, s1) && StackShape(g, s1) && Extends(g, s0, s)
    requires Extends(g, s, s1)
    requires !Visited(s, v)
    requires EdgeBound(g, s0, s, u, scanned, low)
    requires v < |g| && EdgeBound(g, s, s1, v, g[v], lowV)
    ensures EdgeBound(g, s0, s1, u, scanned + {v}, if lowV < low then lowV else low)
  {
    var m := if lowV < low then lowV else low;
    forall i, y | |s0.stack| <= i < |s1.stack| && s1.stack[i] < |g| && y in s0.stack && y in g[s1.stack[i]]
      && (s1.stack[i] == u ==> y in scanned + {v}) ensures m <= s1.order[y]
    {
      assert s.stack[..|s0.stack|] == s0.stack;
      var k :| 0 <= k < |s0.stack| && s0.stack[k] == y;
      assert s.stack[k] == s.stack[..|s0.stack|][k];
      assert Visited(s0, y);
      assert y != v;
      if i < |s.stack| {
        assert s1.stack[i] == s1.stack[..|s.stack|][i] == s.stack[i];
      }
    }
  }

  lemma TreeWitness(g: Graph, s0: Search, s: Search, s1: Search, gray: set<nat>, u: nat, v: nat, scanned: set<nat>,
                    low: nat, lowV: nat)
    requires Scanning(g, s0, s, gray, u, scanned, low)
    requires v in g[u] && Returned(g, s, s1, gray + {u}, v, lowV)
    ensures LowWitness(g, s0, s1, u, if lowV < low then lowV else low)
  {
    hide Reach, StackReachesGray, StackReachesUp, BlackClosed, DoneClosed, CompIsScc, EdgeBound;
    if lowV < low {
      assert s.order[u] < s.next <= s1.order[v];
      var y: nat :| y in s.stack && y < |g| && s1.order[y] == lowV && Reach(g, v, y);
      ReachStep(g, u, v, y);
      BelowOnStack(g, s, |s0.stack|, y);
    } else if low < s1.order[u] {
      var y: nat :| y in s0.stack && y < |g| && s.order[y] == low && Reach(g, u, y);
      assert Visited(s0, y);
    }
  }

  lemma TreeVisits(g: Graph, s0: Search, s: Search, s1: Search, u: nat, v: nat)
    requires VisitsReachable(g, s0, s, u) && VisitsReachable(g, s, s1, v) && u < |g| && v in g[u]
    ensures VisitsReachable(g, s0, s1, u)
  {
    hide Reach;
    forall w: nat | Visited(s1, w) && !Visited(s0, w) ensures Reach(g, u, w) {
      if !Visited(s, w) {
        ReachStep(g, u, v, w);
      }
    }
  }

  /** After the recursive call on an unvisited callee (callgraph.cpp:1587-1592). */
  lemma TreeEdge(g: Graph, s0: Search, s: Search, s1: Search, gray: set<nat>, u: nat, v: nat, scanned: set<nat>,
                 low: nat, lowV: nat)
    requires Scanning(g, s0, s, gray, u, scanned, low)
    requires v in g[u] && Returned(g, s, s1, gray + {u}, v, lowV)
    ensures Scanning(g, s0, s1, gray, u, scanned + {v}, if lowV < low then lowV else low)
  {
    hide Reach, StackReachesGray, StackReachesUp, BlackClosed, StackShape, DoneClosed, CompIsScc, EdgeBound, LowWitness;
    hide VisitsReachable;
    TreeVisits(g, s0, s, s1, u, v);
    TreeWitness(g, s0, s, s1, gray, u, v, scanned, low, lowV);
    NextEdge(g, s0, s, s1, u, v, scanned, low, lowV);
    ExtendsTrans(g, s0, s, s1);
    assert s1.stack[|s0.stack|] == s1.stack[..|s.stack|][|s0.stack|] == u;
  }

  /** A callee that was visited before (callgraph.cpp:1593-1596). */
  lemma VisitedEdge(g: Graph, s0: Search, s: Search, gray: set<nat>, u: nat, v: nat, scanned: set<nat>, low: nat)
    requires Scanning(g, s0, s, gray, u, scanned, low)
    requires v in g[u] && Visited(s, v)
    ensures Scanning(g, s0, s, gray, u, scanned + {v}, if v in s.stack && s.order[v] < low then s.order[v] else low)
  {
    hide Reach, StackReachesGray, StackReachesUp, BlackClosed, DoneClosed, CompIsScc;
    if v in s.stack && s.order[v] < low {
      BelowOnStack(g, s, |s0.stack|, v);
      ReachEdge(g, u, v);
    }
    assert forall y :: y in s0.stack ==> y in s.stack[..|s0.stack|];
  }

  /** So the recursive call on a callee may be made: the whole recursion path reaches it. */
  lemma GrayReachesCallee(g: Graph, s0: Search, s: Search, gray: set<nat>, u: nat, v: nat, scanned: set<nat>, low: nat)
    requires Scanning(g, s0, s, gray, u, scanned, low) && v in g[u]
    ensures forall x :: x in gray + {u} ==> Reach(g, x, v)
  {
    hide Reach, StackReachesGray, BlackClosed, DoneClosed, CompIsScc, EdgeBound, LowWitness;
    var m := |s0.stack|;
    forall x | x in gray + {u} ensures Reach(g, x, v) {
      if x != u {
        var i :| 0 <= i < m && s0.stack[i] == x;
        assert s.stack[i] == s.stack[..m][i] == x;
        assert Reach(g, s.stack[i], s.stack[m]);
      } else {
        ReachRefl(g, u);
      }
      ReachEdge(g, u, v);
      ReachTrans(g, x, u, v);
    }
  }

  // ---------------------------------------------------------------- leaving a node that is no SCC root

  lemma LowReachesGray(g: Graph, s0: Search, s: Search, gray: set<nat>, u: nat, low: nat) returns (x: nat)
    requires Shape(g, s0) && StackShape(g, s0) && Shape(g, s) && Extends(g, s0, s)
    requires u < |g| && low < s.order[u] && LowWitness(g, s0, s, u, low)
    requires StackReachesGray(g, s0, gray) && forall x :: x in gray ==> x in s0.stack
    ensures x in gray && x < |g| && s.order[x] <= low && Reach(g, u, x)
  {
    hide Reach;
    var y: nat :| y in s0.stack && y < |g| && s.order[y] == low && Reach(g, u, y);
    x := GrayWitness(g, s0, gray, y);
    assert Visited(s0, y) && Visited(s0, x);
    ReachTrans(g, u, y, x);
  }

  lemma LeaveReachesGray(g: Graph, s: Search, gray: set<nat>, u: nat, x0: nat)
    requires Shape(g, s) && u < |g| && x0 in gray && x0 < |g| && s.order[x0] <= s.order[u] && Reach(g, u, x0)
    requires StackReachesGray(g, s, gray + {u})
    ensures StackReachesGray(g, s, gray)
  {
    hide Reach;
    forall v: nat | v in s.stack && v < |g| ensures ReachesGray(g, s, gray, v) {
      var x := GrayWitness(g, s, gray + {u}, v);
      if x == u {
        ReachTrans(g, v, u, x0);
      }
    }
  }

  lemma LeaveBlack(g: Graph, s: Search, gray: set<nat>, u: nat)
    requires Shape(g, s) && BlackClosed(g, s, gray + {u}) && u < |g|
    requires forall v :: v in g[u] ==> Visited(s, v)
    ensures BlackClosed(g, s, gray)
  {
  }

  /** `low < visitedOrder`: the node stays on the stack (the test of callgraph.cpp:1599 fails). */
  lemma Leave(g: Graph, s0: Search, s: Search, gray: set<nat>, u: nat, low: nat)
    requires u < |g| && Scanning(g, s0, s, gray, u, g[u], low) && low < s.order[u]
    ensures Returned(g, s0, s, gray, u, low)
  {
    hide Reach, StackReachesGray, StackReachesUp, BlackClosed, StackShape, DoneClosed, CompIsScc, EdgeBound, LowWitness;
    assert s.stack[|s0.stack|] in s.stack;
    var x0 := LowReachesGray(g, s0, s, gray, u, low);
    LeaveReachesGray(g, s, gray, u, x0);
    LeaveBlack(g, s, gray, u);
    GrayBelow(g, s0, s, gray, u);
    assert Visited(s, u) by { InStackVisited(g, s, u); }
  }

  lemma InStackVisited(g: Graph, s: Search, u: nat)
    requires Shape(g, s) && StackShape(g, s) && u in s.stack
    ensures u < |g| && Visited(s, u) && !Done(s, u)
  {
  }

  lemma GrayBelow(g: Graph, s0: Search, s: Search, gray: set<nat>, u: nat)
    requires Shape(g, s0) && Shape(g, s) && Extends(g, s0, s)
    requires forall x :: x in gray ==> x in s0.stack
    ensures forall x :: x in gray ==> x in s.stack
  {
    forall x | x in gray ensures x in s.stack {
      var i :| 0 <= i < |s0.stack| && s0.stack[i] == x;
      assert s.stack[i] == s.stack[..|s0.stack|][i];
    }
  }

  // ---------------------------------------------------------------- popping an SCC

  /** The nodes from stack position `m` upwards become SCC number `count`. */
  function Pop(s: Search, m: nat): Search
    requires m <= |s.stack|
  {
    Search(s.order, s.stack[..m], s.next,
           seq(|s.comp|, v requires 0 <= v < |s.comp| => if v in s.stack[m..] then s.count else s.comp[v]),
           s.count + 1)
  }

  /** All callees of `u` are scanned and none of the edges goes below it. */
  ghost predicate SegmentComplete(g: Graph, s0: Search, s: Search, gray: set<nat>, u: nat) {
    u < |g| && u < |s.order| && Scanning(g, s0, s, gray, u, g[u], s.order[u])
  }

  ghost predicate Tail(s: Search, m: nat, v: nat)
    requires m <= |s.stack|
  {
    v in s.stack[m..]
  }

  lemma PopShape(g: Graph, s: Search, m: nat)
    requires Shape(g, s) && StackShape(g, s) && m < |s.stack|
    ensures Shape(g, Pop(s, m)) && StackShape(g, Pop(s, m))
    ensures forall v: nat {:trigger Pop(s, m).comp[v]} {:trigger Tail(s, m, v)} :: v < |g| ==>
      Pop(s, m).comp[v] == if Tail(s, m, v) then s.count else s.comp[v]
    ensures forall v: nat :: Tail(s, m, v) ==> v < |g| && !Done(s, v) && Visited(s, v)
  {
    var s1 := Pop(s, m);
    forall v: nat | Tail(s, m, v) ensures v < |g| && !Done(s, v) && Visited(s, v) {
      assert v in s.stack;
    }
    forall v: nat ensures v in s1.stack <==> Visited(s1, v) && !Done(s1, v) {
      PopMembers(g, s, m, v);
    }
    forall v: nat | Done(s1, v) ensures Visited(s1, v) {
      assert Tail(s, m, v) || Done(s, v);
    }
    assert forall i :: 0 <= i < |s1.stack| ==> s1.stack[i] == s.stack[i];
  }

  lemma PopMembers(g: Graph, s: Search, m: nat, v: nat)
    requires Shape(g, s) && StackShape(g, s) && m < |s.stack|
    ensures v in s.stack[..m] <==> v in s.stack && !Tail(s, m, v)
    ensures Tail(s, m, v) ==> v in s.stack
  {
    assert s.stack == s.stack[..m] + s.stack[m..];
    assert forall i, j :: 0 <= i < m <= j < |s.stack| ==> s.stack[i] != s.stack[j];
  }

  lemma TailNotGray(g: Graph, s0: Search, s: Search, gray: set<nat>, v: nat)
    requires Shape(g, s0) && Shape(g, s) && StackShape(g, s) && Extends(g, s0, s) && |s0.stack| < |s.stack|
    requires forall x :: x in gray ==> x in s0.stack
    requires Tail(s, |s0.stack|, v)
    ensures v !in gray && v !in s0.stack
  {
    PopMembers(g, s, |s0.stack|, v);
  }

  /** The popped segment and the finished nodes together call nothing else. */
  lemma TailClosed(g: Graph, s0: Search, s: Search, gray: set<nat>, u: nat)
    requires SegmentComplete(g, s0, s, gray, u)
    ensures Closed(g, set v: nat | v < |g| && (Tail(s, |s0.stack|, v) || Done(s, v)))
  {
    hide Reach, StackReachesGray, StackReachesUp, CompIsScc, LowWitness;
    var m := |s0.stack|;
    forall v: nat, w | v < |g| && (Tail(s, m, v) || Done(s, v)) && w in g[v]
      ensures w < |g| && (Tail(s, m, w) || Done(s, w))
    {
      if Tail(s, m, v) {
        TailEdge(g, s0, s, gray, u, v, w);
      }
    }
  }

  lemma TailEdge(g: Graph, s0: Search, s: Search, gray: set<nat>, u: nat, v: nat, w: nat)
    requires SegmentComplete(g, s0, s, gray, u)
    requires v < |g| && Tail(s, |s0.stack|, v) && w in g[v]
    ensures w < |g| && (Tail(s, |s0.stack|, w) || Done(s, w))
  {
    hide Reach, StackReachesGray, StackReachesUp, CompIsScc, LowWitness, DoneClosed;
    var m := |s0.stack|;
    var i :| 0 <= i < |s.stack| - m && s.stack[m..][i] == v;
    assert s.stack[m + i] == v;
    assert Visited(s, w) by {
      if v != u {
        TailNotGray(g, s0, s, gray, v);
        assert v in s.stack && Visited(s, v);
      }
    }
    if !Done(s, w) {
      BelowOnStack(g, s, m, w);
      PopMembers(g, s, m, w);
    }
  }

  /** Everything in the popped segment reaches `u`, the node it is popped for. */
  lemma TailReachesRoot(g: Graph, s0: Search, s: Search, gray: set<nat>, u: nat, v: nat)
    requires SegmentComplete(g, s0, s, gray, u)
    requires Tail(s, |s0.stack|, v)
    ensures v < |g| && Reach(g, v, u) && Reach(g, u, v)
  {
    hide Reach, BlackClosed, CompIsScc, LowWitness, DoneClosed, EdgeBound;
    var m := |s0.stack|;
    var i :| 0 <= i < |s.stack| - m && s.stack[m..][i] == v;
    assert s.stack[m + i] == v && v in s.stack;
    assert Reach(g, s.stack[m], s.stack[m + i]);
    var x := GrayWitness(g, s, gray + {u}, v);
    TailStays(g, s0, s, gray, u, v, x);
  }

  /** So a gray node that a popped node reaches can only be `u`. */
  lemma TailStays(g: Graph, s0: Search, s: Search, gray: set<nat>, u: nat, v: nat, x: nat)
    requires SegmentComplete(g, s0, s, gray, u)
    requires Tail(s, |s0.stack|, v) && Reach(g, v, x) && x in gray + {u}
    ensures x == u
  {
    hide Reach, BlackClosed, CompIsScc, LowWitness, DoneClosed, EdgeBound, StackReachesUp, StackReachesGray;
    var m := |s0.stack|;
    TailClosed(g, s0, s, gray, u);
    var c := set v: nat | v < |g| && (Tail(s, m, v) || Done(s, v));
    assert v in c by { PopMembers(g, s, m, v); }
    ClosedReach(g, c, v, x);
    if Tail(s, m, x) {
      TailNotGray(g, s0, s, gray, x);
    }
  }

  lemma PopDoneClosed(g: Graph, s0: Search, s: Search, gray: set<nat>, u: nat)
    requires SegmentComplete(g, s0, s, gray, u)
    requires Shape(g, Pop(s, |s0.stack|))
    ensures DoneClosed(g, Pop(s, |s0.stack|))
  {
    hide Reach, StackReachesGray, StackReachesUp, CompIsScc, LowWitness, BlackClosed, EdgeBound;
    var m := |s0.stack|;
    var s1 := Pop(s, m);
    PopShape(g, s, m);
    forall v, w | 0 <= v < |g| && Done(s1, v) && w in g[v] ensures Done(s1, w) && s1.comp[w] <= s1.comp[v] {
      if Tail(s, m, v) {
        TailEdge(g, s0, s, gray, u, v, w);
      } else {
        assert Done(s, v);
      }
    }
  }

  lemma PopCompIsScc(g: Graph, s0: Search, s: Search, gray: set<nat>, u: nat)
    requires SegmentComplete(g, s0, s, gray, u)
    requires Shape(g, Pop(s, |s0.stack|))
    ensures CompIsScc(g, Pop(s, |s0.stack|))
  {
    hide Reach, StackReachesGray, StackReachesUp, LowWitness, BlackClosed, EdgeBound;
    var m := |s0.stack|;
    var s1 := Pop(s, m);
    PopShape(g, s, m);
    forall v, w | 0 <= v < |g| && 0 <= w < |g| && s1.comp[v] >= 0 && s1.comp[w] >= 0
      ensures s1.comp[v] == s1.comp[w] <==> Mutual(g, v, w)
    {
      PopPair(g, s0, s, gray, u, v, w);
    }
  }

  lemma PopPair(g: Graph, s0: Search, s: Search, gray: set<nat>, u: nat, v: nat, w: nat)
    requires SegmentComplete(g, s0, s, gray, u)
    requires v < |g| && w < |g|
    requires Tail(s, |s0.stack|, v) || Done(s, v)
    requires Tail(s, |s0.stack|, w) || Done(s, w)
    ensures var a := if Tail(s, |s0.stack|, v) then s.count else s.comp[v];
      var b := if Tail(s, |s0.stack|, w) then s.count else s.comp[w];
      a == b <==> Mutual(g, v, w)
  {
    hide Reach, StackReachesGray, StackReachesUp, LowWitness, BlackClosed, EdgeBound;
    var m := |s0.stack|;
    PopMembers(g, s, m, v);
    PopMembers(g, s, m, w);
    if Tail(s, m, v) && Tail(s, m, w) {
      TailReachesRoot(g, s0, s, gray, u, v);
      TailReachesRoot(g, s0, s, gray, u, w);
      ReachTrans(g, v, u, w);
      ReachTrans(g, w, u, v);
    } else if Tail(s, m, v) || Tail(s, m, w) {
      var t, d := if Tail(s, m, v) then v else w, if Tail(s, m, v) then w else v;
      if Reach(g, d, t) {
        DoneStaysDone(g, s, d, t);
      }
    }
  }

  lemma DoneStaysDone(g: Graph, s: Search, d: nat, t: nat)
    requires Shape(g, s) && DoneClosed(g, s) && Done(s, d) && Reach(g, d, t)
    ensures Done(s, t)
  {
    hide Reach;
    var c := set v: nat | v < |g| && Done(s, v);
    ClosedReach(g, c, d, t);
  }

  lemma PopBlack(g: Graph, s0: Search, s: Search, gray: set<nat>, u: nat)
    requires Shape(g, s) && BlackClosed(g, s, gray + {u}) && u < |g| && |s0.stack| < |s.stack|
    requires forall v :: v in g[u] ==> Visited(s, v)
    requires Shape(g, Pop(s, |s0.stack|))
    ensures BlackClosed(g, Pop(s, |s0.stack|), gray)
  {
    var s1 := Pop(s, |s0.stack|);
    forall v, w | 0 <= v < |g| && Visited(s1, v) && v !in gray && w in g[v] ensures Visited(s1, w) {
      assert Visited(s, v) && Visited(s, w);
    }
  }

  lemma PopReaches(g: Graph, s0: Search, s: Search, gray: set<nat>)
    requires Shape(g, s0) && StackShape(g, s0) && Shape(g, s) && StackShape(g, s) && Extends(g, s0, s)
    requires |s0.stack| < |s.stack|
    requires StackReachesGray(g, s0, gray) && StackReachesUp(g, s)
    requires forall x :: x in gray ==> x in s0.stack
    requires Shape(g, Pop(s, |s0.stack|))
    ensures StackReachesGray(g, Pop(s, |s0.stack|), gray) && StackReachesUp(g, Pop(s, |s0.stack|))
  {
    hide Reach;
    var s1 := Pop(s, |s0.stack|);
    forall v: nat | v in s1.stack && v < |g| ensures ReachesGray(g, s1, gray, v) {
      assert v in s0.stack && Visited(s0, v);
      var x := GrayWitness(g, s0, gray, v);
      assert x in s0.stack && Visited(s0, x);
    }
  }

  lemma PopExtends(g: Graph, s0: Search, s: Search)
    requires Shape(g, s0) && Shape(g, s) && StackShape(g, s) && Extends(g, s0, s) && |s0.stack| < |s.stack|
    requires Shape(g, Pop(s, |s0.stack|))
    ensures Extends(g, s0, Pop(s, |s0.stack|))
  {
    var m := |s0.stack|;
    var s1 := Pop(s, m);
    forall v: nat | v < |g| && s0.comp[v] >= 0 ensures s1.comp[v] == s0.comp[v] {
      PopMembers(g, s, m, v);
      assert Done(s, v);
    }
  }

  /** `low == visitedOrder`: the segment from `u` up is exactly one SCC (callgraph.cpp:1599-1612). */
  lemma PopScc(g: Graph, s0: Search, s: Search, gray: set<nat>, u: nat)
    requires SegmentComplete(g, s0, s, gray, u)
    ensures Returned(g, s0, Pop(s, |s0.stack|), gray, u, s.order[u])
  {
    hide Reach, StackReachesGray, StackReachesUp, BlackClosed, StackShape, DoneClosed, CompIsScc, EdgeBound, Pop;
    hide Visited, Extends, VisitsReachable;
    var m := |s0.stack|;
    var s1 := Pop(s, m);
    PopShape(g, s, m);
    PopDoneClosed(g, s0, s, gray, u);
    PopCompIsScc(g, s0, s, gray, u);
    PopBlack(g, s0, s, gray, u);
    PopReaches(g, s0, s, gray);
    PopExtends(g, s0, s);
    PopRest(g, s0, s, gray, u);
  }

  lemma PopRest(g: Graph, s0: Search, s: Search, gray: set<nat>, u: nat)
    requires SegmentComplete(g, s0, s, gray, u)
    requires Shape(g, Pop(s, |s0.stack|))
    ensures Visited(Pop(s, |s0.stack|), u)
    ensures LowWitness(g, s0, Pop(s, |s0.stack|), u, s.order[u])
    ensures EdgeBound(g, s0, Pop(s, |s0.stack|), u, g[u], s.order[u])
    ensures VisitsReachable(g, s0, Pop(s, |s0.stack|), u)
    ensures forall x :: x in gray ==> x in Pop(s, |s0.stack|).stack
  {
    hide Reach, StackReachesGray, StackReachesUp, BlackClosed, DoneClosed, CompIsScc;
    assert s.stack[|s0.stack|] in s.stack;
    assert Pop(s, |s0.stack|).stack == s0.stack;
  }

  // ---------------------------------------------------------------- after a top-level call

  lemma InitialInv(g: Graph, n: nat)
    requires ValidGraph(g) && |g| == n
    ensures Inv(g, Search(seq(n, i => 0), [], 1, seq(n, i => -1), 0), {})
  {
  }

  /** With no call pending the stack is empty, so every visited node is in an SCC. */
  lemma TopLevelDone(g: Graph, s: Search)
    requires Inv(g, s, {})
    ensures s.stack == []
    ensures forall v: nat :: Visited(s, v) <==> Done(s, v)
  {
    if s.stack != [] {
      var v := s.stack[0];
      var x := GrayWitness(g, s, {}, v);
    }
  }
}
