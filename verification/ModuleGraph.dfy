/** The graph of modules and its topological order by destructive in-degree counters:
    mapleall/maple_ipa/src/graph.cpp and mapleall/maple_ipa/include/graph.h. */
module ModuleGraph {
  import Reachability
  import opened Sequences

  // ---------------------------------------------------------------- multigraphs over ids

  /** kids[u]: the targets of the edges out of `u`, one entry per edge. */
  type Kids = seq<seq<nat>>

  function Occurs(s: seq<nat>, v: nat): (r: nat)
    ensures r == multiset(s)[v]
  {
    if s == [] then 0
    else
      assert s == [s[0]] + s[1..];
      (if s[0] == v then 1 else 0) + Occurs(s[1..], v)
  }

  lemma {:induction false} OccursIn(s: seq<nat>, v: nat)
    ensures Occurs(s, v) > 0 <==> v in s
  {
    if s != [] {
      OccursIn(s[1..], v);
    }
  }

  /** How many edges to `v` leave the vertices below `n` that are not in `done`. */
  function EdgesFrom(kids: Kids, n: nat, done: set<nat>, v: nat): nat
    requires n <= |kids|
  {
    if n == 0 then 0
    else EdgesFrom(kids, n - 1, done, v) + if n - 1 in done then 0 else Occurs(kids[n - 1], v)
  }

  function Remaining(kids: Kids, done: set<nat>, v: nat): nat {
    EdgesFrom(kids, |kids|, done, v)
  }

  function InDegree(kids: Kids, v: nat): nat {
    Remaining(kids, {}, v)
  }

  lemma {:induction false} EdgesFromOneMore(kids: Kids, n: nat, done: set<nat>, u: nat, v: nat)
    requires n <= |kids| && u < |kids| && u !in done
    ensures EdgesFrom(kids, n, done, v) == EdgesFrom(kids, n, done + {u}, v) + if u < n then Occurs(kids[u], v) else 0
  {
    if n > 0 {
      EdgesFromOneMore(kids, n - 1, done, u, v);
    }
  }

  lemma {:induction false} NoEdgesLeft(kids: Kids, n: nat, done: set<nat>, v: nat)
    requires n <= |kids|
    ensures EdgesFrom(kids, n, done, v) == 0 <==> forall u: nat :: u < n && v in kids[u] ==> u in done
  {
    if n > 0 {
      NoEdgesLeft(kids, n - 1, done, v);
      OccursIn(kids[n - 1], v);
    }
  }

  lemma {:induction false} OccursAppend(s: seq<nat>, v: nat, w: nat)
    ensures Occurs(s + [v], w) == Occurs(s, w) + if v == w then 1 else 0
  {
    if s != [] {
      assert (s + [v])[1..] == s[1..] + [v];
      OccursAppend(s[1..], v, w);
    }
  }

  lemma {:induction false} OneMoreEdge(kids: Kids, n: nat, u: nat, v: nat, w: nat)
    requires n <= |kids| && u < |kids|
    ensures EdgesFrom(kids[u := kids[u] + [v]], n, {}, w) ==
      EdgesFrom(kids, n, {}, w) + if u < n && v == w then 1 else 0
  {
    if n > 0 {
      OneMoreEdge(kids, n - 1, u, v, w);
      OccursAppend(kids[u], v, w);
    }
  }

  ghost predicate ValidKids(kids: Kids) {
    forall u, i :: 0 <= u < |kids| && 0 <= i < |kids[u]| ==> kids[u][i] < |kids|
  }

  // ---------------------------------------------------------------- the sorting, on ids

  /** Every parent of an entry stands before it. */
  ghost predicate ParentsFirst(kids: Kids, order: seq<nat>) {
    forall j :: 0 <= j < |order| ==> ParentsWithin(kids, order[j], order[..j])
  }

  ghost predicate ParentsWithin(kids: Kids, v: nat, before: seq<nat>) {
    forall u: nat :: u < |kids| && v in kids[u] ==> u in before
  }

  ghost function Below(n: nat): (r: set<nat>)
    ensures forall v: nat :: v in r <==> v < n
  {
    if n == 0 then {} else Below(n - 1) + {n - 1}
  }

  ghost function Elements(s: seq<nat>): set<nat> {
    set x | x in s
  }

  ghost predicate Counters(kids: Kids, done: set<nat>, rest: seq<nat>, ins: seq<nat>) {
    |ins| == |kids| && forall v: nat :: v < |kids| ==> ins[v] == Remaining(kids, done, v) + Occurs(rest, v)
  }

  lemma CountersNext(kids: Kids, done: set<nat>, u: nat, ins: seq<nat>)
    requires Counters(kids, done, [], ins) && u < |kids| && u !in done
    ensures Counters(kids, done + {u}, kids[u], ins)
  {
    forall v: nat | v < |kids| ensures ins[v] == Remaining(kids, done + {u}, v) + Occurs(kids[u], v) {
      EdgesFromOneMore(kids, |kids|, done, u, v);
    }
  }

  lemma CountersKid(kids: Kids, done: set<nat>, rest: seq<nat>, ins: seq<nat>)
    requires Counters(kids, done, rest, ins) && rest != [] && rest[0] < |kids|
    ensures ins[rest[0]] > 0 && Counters(kids, done, rest[1..], ins[rest[0] := ins[rest[0]] - 1])
  {
  }

  /** While the kids `rest` of the vertex at hand are still to be visited: the counters are the
      edges not followed yet, and a vertex is queued when its counter has come down to 0. */
  ghost predicate Sorting(kids: Kids, root: nat, res: seq<nat>, queue: seq<nat>, rest: seq<nat>, ins: seq<nat>) {
    && |ins| == |kids| && root < |kids|
    && Distinct(res + queue) && ParentsFirst(kids, res + queue)
    && (forall v :: v in res + queue ==> v < |kids|)
    && Counters(kids, Elements(res), rest, ins)
    && (forall v: nat :: v < |kids| ==> (v in res + queue <==> v == root || (InDegree(kids, v) > 0 && ins[v] == 0)))
  }

  lemma SortingStarts(kids: Kids, root: nat, ins: seq<nat>)
    requires ValidKids(kids) && root < |kids| && |ins| == |kids| && InDegree(kids, root) == 0
    requires forall v: nat :: v < |kids| ==> ins[v] == InDegree(kids, v)
    ensures Sorting(kids, root, [], [root], [], ins)
  {
    assert [] + [root] == [root] && Elements([]) == {};
    NoEdgesLeft(kids, |kids|, {}, root);
  }

  lemma HeadMoves(res: seq<nat>, queue: seq<nat>, n: nat)
    requires Distinct(res + queue) && queue != [] && forall v :: v in res + queue ==> v < n
    ensures (res + [queue[0]]) + queue[1..] == res + queue
    ensures queue[0] < n && queue[0] !in Elements(res)
    ensures Elements(res + [queue[0]]) == Elements(res) + {queue[0]}
    ensures Elements(res) <= Below(n)
  {
    var u := queue[0];
    assert (res + queue)[|res|] == u;
    assert u in res + queue;
    assert forall i :: 0 <= i < |res| ==> (res + queue)[i] == res[i];
    assert forall v :: v in res ==> v in res + queue;
  }

  /** Taking the next vertex from the queue. */
  lemma NextVertex(kids: Kids, root: nat, res: seq<nat>, queue: seq<nat>, ins: seq<nat>)
    requires ValidKids(kids) && Sorting(kids, root, res, queue, [], ins) && queue != []
    ensures queue[0] < |kids| && Sorting(kids, root, res + [queue[0]], queue[1..], kids[queue[0]], ins)
    ensures Elements(res) < Elements(res + [queue[0]]) <= Below(|kids|)
  {
    hide ParentsFirst, Counters, Remaining, InDegree, Distinct, Elements;
    HeadMoves(res, queue, |kids|);
    CountersNext(kids, Elements(res), queue[0], ins);
  }

  /** Following one edge. */
  lemma NextKid(kids: Kids, root: nat, res: seq<nat>, queue: seq<nat>, rest: seq<nat>, ins: seq<nat>)
    requires ValidKids(kids) && InDegree(kids, root) == 0 && res != [] && res[|res| - 1] < |kids|
    requires rest != [] && rest[0] in kids[res[|res| - 1]] && rest[0] < |kids|
    requires Sorting(kids, root, res, queue, rest, ins)
    ensures ins[rest[0]] > 0
    ensures Sorting(kids, root, res, if ins[rest[0]] == 1 then queue + [rest[0]] else queue,
                    rest[1..], ins[rest[0] := ins[rest[0]] - 1])
  {
    hide ParentsFirst, ParentsWithin, Occurs;
    var v := rest[0];
    CountersKid(kids, Elements(res), rest, ins);
    var ins' := ins[v := ins[v] - 1];
    NoEdgesLeft(kids, |kids|, {}, v);
    NoEdgesLeft(kids, |kids|, {}, root);
    assert v != root && InDegree(kids, v) > 0;
    assert v !in res + queue;
    if ins[v] == 1 {
      var all := res + (queue + [v]);
      assert all == (res + queue) + [v];
      NoEdgesLeft(kids, |kids|, Elements(res), v);
      ParentsFirstPush(kids, res + queue, v, res);
    }
  }

  lemma ParentsFirstPush(kids: Kids, order: seq<nat>, v: nat, res: seq<nat>)
    requires ParentsFirst(kids, order) && res <= order
    requires forall u: nat :: u < |kids| && v in kids[u] ==> u in Elements(res)
    ensures ParentsFirst(kids, order + [v])
  {
    var all := order + [v];
    forall j | 0 <= j < |all| ensures ParentsWithin(kids, all[j], all[..j]) {
      if j < |order| {
        assert all[..j] == order[..j] && ParentsWithin(kids, order[j], order[..j]);
      } else {
        assert all[..j] == order;
      }
    }
  }

  /** What the sort leaves: an order with parents first that holds the root and every vertex with
      edges into it all of whose parents it holds. */
  ghost predicate Sorted(kids: Kids, root: nat, res: seq<nat>) {
    && root < |kids| && Distinct(res) && ParentsFirst(kids, res)
    && (forall v :: v in res ==> v < |kids|)
    && (forall v: nat :: v < |kids| ==> (v in res <==>
      v == root || (InDegree(kids, v) > 0 && ParentsWithin(kids, v, res))))
  }

  lemma SortingEnds(kids: Kids, root: nat, res: seq<nat>, ins: seq<nat>)
    requires Sorting(kids, root, res, [], [], ins) && InDegree(kids, root) == 0
    ensures Sorted(kids, root, res)
    ensures forall v: nat :: v < |kids| ==> ins[v] == Remaining(kids, Elements(res), v)
    ensures forall v: nat :: v in res ==> ins[v] == 0
  {
    hide ParentsFirst;
    assert res + [] == res;
    NoEdgesLeft(kids, |kids|, {}, root);
    forall v: nat | v < |kids| ensures ins[v] == 0 <==> ParentsWithin(kids, v, res) {
      NoEdgesLeft(kids, |kids|, Elements(res), v);
    }
  }

  // ---------------------------------------------------------------- when the order is complete

  /** The edges as a relation. */
  ghost function Relation(kids: Kids): (g: Reachability.Graph)
    ensures |g| == |kids| && forall u :: 0 <= u < |kids| ==> g[u] == Elements(kids[u])
  {
    seq(|kids|, u requires 0 <= u < |kids| => Elements(kids[u]))
  }

  ghost predicate Acyclic(kids: Kids) {
    forall v: nat :: !Reachability.ReachPlus(Relation(kids), v, v)
  }

  ghost predicate AllReached(kids: Kids, root: nat) {
    forall v: nat :: v < |kids| ==> Reachability.Reach(Relation(kids), root, v)
  }

  ghost function Position(order: seq<nat>, v: nat): (i: nat)
    requires v in order
    ensures i < |order| && order[i] == v
  {
    var i :| 0 <= i < |order| && order[i] == v;
    i
  }

  /** In an order with parents first an edge goes forward. */
  lemma EdgeForward(kids: Kids, order: seq<nat>, u: nat, v: nat)
    requires Distinct(order) && ParentsFirst(kids, order) && v in order && u < |kids| && v in kids[u]
    ensures u in order && Position(order, u) < Position(order, v)
  {
    var j := Position(order, v);
    assert ParentsWithin(kids, order[j], order[..j]);
    assert u in order[..j];
    var i :| 0 <= i < j && order[..j][i] == u;
    assert order[i] == u;
  }

  lemma {:induction false} PathForward(kids: Kids, order: seq<nat>, u: nat, v: nat, k: nat)
    requires Distinct(order) && ParentsFirst(kids, order) && v in order && Reachability.ReachIn(Relation(kids), u, v, k)
    ensures u in order && Position(order, u) <= Position(order, v)
    decreases k
  {
    if k > 0 {
      var w :| w in Relation(kids)[u] && Reachability.ReachIn(Relation(kids), w, v, k - 1);
      PathForward(kids, order, w, v, k - 1);
      EdgeForward(kids, order, u, w);
    }
  }

  lemma CompleteIsAcyclic(kids: Kids, root: nat, res: seq<nat>)
    requires Sorted(kids, root, res) && forall v: nat :: v < |kids| ==> v in res
    ensures Acyclic(kids)
  {
    hide Sorted, ParentsFirst, Distinct;
    SortedParts(kids, root, res);
    forall v: nat ensures !Reachability.ReachPlus(Relation(kids), v, v) {
      if Reachability.ReachPlus(Relation(kids), v, v) {
        var w :| w in Relation(kids)[v] && Reachability.Reach(Relation(kids), w, v);
        var k: nat :| Reachability.ReachIn(Relation(kids), w, v, k);
        PathForward(kids, res, w, v, k);
        EdgeForward(kids, res, v, w);
        assert false;
      }
    }
  }

  lemma SortedParts(kids: Kids, root: nat, res: seq<nat>)
    requires Sorted(kids, root, res)
    ensures Distinct(res) && ParentsFirst(kids, res)
  {
  }

  /** Every entry is reached from the root: it has a parent, and that stands before it. */
  lemma {:induction false} EntryReached(kids: Kids, root: nat, res: seq<nat>, j: nat)
    requires Sorted(kids, root, res) && j < |res|
    ensures Reachability.Reach(Relation(kids), root, res[j])
  {
    hide ParentsFirst, Distinct;
    var g, v := Relation(kids), res[j];
    assert v in res;
    if v == root {
      Reachability.ReachRefl(g, root);
    } else {
      NoEdgesLeft(kids, |kids|, {}, v);
      var u: nat :| u < |kids| && v in kids[u];
      ParentBefore(kids, res, j, u);
      var i :| 0 <= i < j && res[i] == u;
      EntryReached(kids, root, res, i);
      EdgeReach(kids, u, v);
      Reachability.ReachTrans(g, root, u, v);
    }
  }

  lemma ParentBefore(kids: Kids, res: seq<nat>, j: nat, u: nat)
    requires ParentsFirst(kids, res) && j < |res| && u < |kids| && res[j] in kids[u]
    ensures exists i :: 0 <= i < j && res[i] == u
  {
    assert ParentsWithin(kids, res[j], res[..j]);
    assert u in res[..j];
    var i :| 0 <= i < j && res[..j][i] == u;
    assert res[i] == u;
  }

  lemma EdgeReach(kids: Kids, u: nat, v: nat)
    requires u < |kids| && v < |kids| && v in kids[u]
    ensures Reachability.Reach(Relation(kids), u, v)
  {
    var g := Relation(kids);
    Reachability.ReachRefl(g, v);
    Reachability.ReachStep(g, u, v, v);
  }

  /** Going back from a missing vertex to a missing parent, and on, one comes round in the end:
      `seen` are the vertices gone through, all reached from `v`. */
  lemma {:induction false} MissingCycle(kids: Kids, root: nat, res: seq<nat>, v: nat, seen: set<nat>)
    requires ValidKids(kids) && Sorted(kids, root, res) && AllReached(kids, root) && v < |kids| && v !in res
    requires seen <= Below(|kids|) && v !in seen
    requires forall s :: s in seen ==> Reachability.ReachPlus(Relation(kids), v, s)
    ensures !Acyclic(kids)
    decreases Below(|kids|) - seen
  {
    hide Distinct, ParentsFirst;
    var g := Relation(kids);
    var w := Reachability.ReachLastEdge(g, root, v);
    NoEdgesLeft(kids, |kids|, {}, v);
    assert w < |kids| && v in kids[w];
    var u: nat :| u < |kids| && v in kids[u] && u !in res;
    Reachability.ReachRefl(g, v);
    assert v in g[u];
    assert Reachability.ReachPlus(g, u, v);
    forall s | s in seen + {v} ensures Reachability.ReachPlus(g, u, s) {
      if s != v {
        Reachability.ReachPlusIsReach(g, v, s);
      }
    }
    if u !in seen + {v} {
      assert v in Below(|kids|) - seen;
      MissingCycle(kids, root, res, u, seen + {v});
    }
  }

  /** The sort emits every vertex exactly when there is no cycle and all is reached from the root. */
  lemma SortsAll(kids: Kids, root: nat, res: seq<nat>)
    requires ValidKids(kids) && Sorted(kids, root, res)
    ensures (forall v: nat :: v < |kids| ==> v in res) <==> Acyclic(kids) && AllReached(kids, root)
  {
    hide Sorted, Acyclic;
    if forall v: nat :: v < |kids| ==> v in res {
      CompleteIsAcyclic(kids, root, res);
      forall v: nat | v < |kids| ensures Reachability.Reach(Relation(kids), root, v) {
        EntryReached(kids, root, res, Position(res, v));
      }
    } else {
      var v: nat :| v < |kids| && v !in res;
      if AllReached(kids, root) {
        MissingCycle(kids, root, res, v, {});
      }
    }
  }

  // ---------------------------------------------------------------- nodes

  class ModuleNode {
    const id: nat
    const name: string
    var in_nums: nat
    var kid_nodes: seq<ModuleNode>

    constructor (nm: string, vnum: nat)
      ensures id == vnum && name == nm && in_nums == 0 && kid_nodes == []
    {
      id, name, in_nums, kid_nodes := vnum, nm, 0, [];
    }
  }

  function Ids(ns: seq<ModuleNode>): (r: seq<nat>)
    ensures |r| == |ns| && forall i :: 0 <= i < |ns| ==> r[i] == ns[i].id
  {
    if ns == [] then [] else [ns[0].id] + Ids(ns[1..])
  }

  function InNums(ns: seq<ModuleNode>): (r: seq<nat>)
    reads ns`in_nums
    decreases |ns|
    ensures |r| == |ns| && forall i :: 0 <= i < |ns| ==> r[i] == ns[i].in_nums
  {
    if ns == [] then [] else [ns[0].in_nums] + InNums(ns[1..])
  }

  function KidsOf(ns: seq<ModuleNode>): (r: Kids)
    reads ns`kid_nodes
    decreases |ns|
    ensures |r| == |ns| && forall i :: 0 <= i < |ns| ==> r[i] == Ids(ns[i].kid_nodes)
  {
    if ns == [] then [] else [Ids(ns[0].kid_nodes)] + KidsOf(ns[1..])
  }

  class Graph {
    var root_node: ModuleNode?
    var vertex_vec: seq<ModuleNode>

    constructor ()
      ensures root_node == null && vertex_vec == []
    {
      root_node, vertex_vec := null, [];
    }

    /** Vertices are numbered by their place, and edges stay among them. */
    ghost predicate Shape()
      reads this, vertex_vec`kid_nodes
    {
      && (forall i :: 0 <= i < |vertex_vec| ==> vertex_vec[i].id == i && Known(vertex_vec, vertex_vec[i].kid_nodes))
      && (root_node != null ==> root_node.id < |vertex_vec| && vertex_vec[root_node.id] == root_node)
    }

    /** The counters are the numbers of edges. */
    ghost predicate Counted()
      reads this, vertex_vec
    {
      forall i :: 0 <= i < |vertex_vec| ==> vertex_vec[i].in_nums == InDegree(KidsOf(vertex_vec), i)
    }

    /** ModuleNode::AddEdge keeps the counters right, with several edges between two vertices too. */
    method AddEdge(node: ModuleNode, kidnode: ModuleNode)
      requires Shape() && Counted()
      requires node.id < |vertex_vec| && vertex_vec[node.id] == node && kidnode.id < |vertex_vec|
      requires vertex_vec[kidnode.id] == kidnode
      modifies node`kid_nodes, kidnode`in_nums
      ensures Shape() && Counted()
      ensures KidsOf(vertex_vec) == old(KidsOf(vertex_vec))[node.id := old(Ids(node.kid_nodes)) + [kidnode.id]]
    {
      hide EdgesFrom, Occurs, Ids, KidsOf;
      ghost var kids := KidsOf(vertex_vec);
      IdsAppend(node.kid_nodes, kidnode);
      node.kid_nodes := node.kid_nodes + [kidnode];
      kidnode.in_nums := kidnode.in_nums + 1;
      assert KidsOf(vertex_vec) == kids[node.id := kids[node.id] + [kidnode.id]];
      forall v | 0 <= v < |vertex_vec|
        ensures InDegree(KidsOf(vertex_vec), v) == InDegree(kids, v) + if v == kidnode.id then 1 else 0
      {
        OneMoreEdge(kids, |kids|, node.id, kidnode.id, v);
      }
    }

    /** The order, and what is left of the counters: the number of edges from vertices that are not
        in it.  It holds every vertex, once, exactly when there is no cycle and all vertices are
        reached from the root. */
    method TopologicalSorting() returns (resvec: seq<ModuleNode>)
      requires Shape() && Counted() && root_node != null && root_node.in_nums == 0
      modifies vertex_vec`in_nums
      ensures Known(vertex_vec, resvec) && Sorted(KidsOf(vertex_vec), root_node.id, Ids(resvec))
      ensures (forall i :: 0 <= i < |vertex_vec| ==> vertex_vec[i] in resvec)
          <==> (Acyclic(KidsOf(vertex_vec)) && AllReached(KidsOf(vertex_vec), root_node.id))
      ensures forall v :: v in resvec ==> v.in_nums == 0
      ensures forall i :: 0 <= i < |vertex_vec| ==>
        vertex_vec[i].in_nums == Remaining(KidsOf(vertex_vec), Elements(Ids(resvec)), i)
    {
      hide Sorting, Sorted, Remaining, InDegree, Acyclic, AllReached, ValidKids, Shape, Known, Ids, KidsOf, InNums;
      hide Counted, Elements;
      ghost var kids, root := KidsOf(vertex_vec), root_node.id;
      var qu: seq<ModuleNode> := [root_node];
      resvec := [];
      SortBegins(this, qu, resvec);
      while qu != []
        invariant Known(vertex_vec, qu) && Known(vertex_vec, resvec) && Shape()
        invariant Sorting(kids, root, Ids(resvec), Ids(qu), [], InNums(vertex_vec))
        decreases Below(|kids|) - Elements(Ids(resvec))
      {
        HeadKnown(this, qu, resvec);
        NextVertex(kids, root, Ids(resvec), Ids(qu), InNums(vertex_vec));
        var node := qu[0];
        resvec := resvec + [node];
        qu := VisitKids(node, qu[1..], Ids(resvec));
      }
      ShapeIds(this);
      NoIds(qu);
      SortingEnds(kids, root, Ids(resvec), InNums(vertex_vec));
      SortsAll(kids, root, Ids(resvec));
      EmittedById(vertex_vec, resvec);
      EmittedCounters(vertex_vec, resvec);
    }

    /** The loop over the kids of one vertex. */
    method VisitKids(node: ModuleNode, qu0: seq<ModuleNode>, ghost res: seq<nat>) returns (qu: seq<ModuleNode>)
      requires Shape() && root_node != null && res != [] && res[|res| - 1] == node.id
      requires node.id < |vertex_vec| && vertex_vec[node.id] == node && Known(vertex_vec, qu0)
      requires InDegree(KidsOf(vertex_vec), root_node.id) == 0
      requires Sorting(KidsOf(vertex_vec), root_node.id, res, Ids(qu0), Ids(node.kid_nodes), InNums(vertex_vec))
      modifies vertex_vec`in_nums
      ensures Known(vertex_vec, qu) && Sorting(KidsOf(vertex_vec), root_node.id, res, Ids(qu), [], InNums(vertex_vec))
    {
      hide Sorting, InDegree, ValidKids, Shape, Known, Ids, KidsOf, InNums;
      ghost var kids, root := KidsOf(vertex_vec), root_node.id;
      ShapeValid(this);
      qu := qu0;
      var i := 0;
      assert node.kid_nodes[0..] == node.kid_nodes;
      while i < |node.kid_nodes|
        invariant 0 <= i <= |node.kid_nodes| && Known(vertex_vec, qu) && Shape()
        invariant Sorting(kids, root, res, Ids(qu), Ids(node.kid_nodes[i..]), InNums(vertex_vec))
      {
        KidKnown(this, node, i);
        NextKid(kids, root, res, Ids(qu), Ids(node.kid_nodes[i..]), InNums(vertex_vec));
        qu := VisitKid(node.kid_nodes[i], qu);
        i := i + 1;
      }
      NoIds(node.kid_nodes[i..]);
    }

    method VisitKid(kidnode: ModuleNode, qu0: seq<ModuleNode>) returns (qu: seq<ModuleNode>)
      requires kidnode.id < |vertex_vec| && vertex_vec[kidnode.id] == kidnode && kidnode.in_nums > 0
      requires Known(vertex_vec, qu0)
      requires Shape()
      modifies kidnode`in_nums
      ensures Known(vertex_vec, qu)
      ensures InNums(vertex_vec) == old(InNums(vertex_vec))[kidnode.id := old(kidnode.in_nums) - 1]
      ensures Ids(qu) == if old(kidnode.in_nums) == 1 then Ids(qu0) + [kidnode.id] else Ids(qu0)
    {
      hide Ids, InNums;
      ghost var before := InNums(vertex_vec);
      var innums := kidnode.in_nums;
      kidnode.in_nums := kidnode.in_nums - 1;
      assert forall i :: 0 <= i < |vertex_vec| ==>
        InNums(vertex_vec)[i] == if i == kidnode.id then before[i] - 1 else before[i];
      assert InNums(vertex_vec) == before[kidnode.id := innums - 1];
      qu := qu0;
      if innums == 1 {
        IdsAppend(qu, kidnode);
        qu := qu + [kidnode];
      }
    }
  }

  lemma SortBegins(g: Graph, qu: seq<ModuleNode>, resvec: seq<ModuleNode>)
    requires g.Shape() && g.Counted() && g.root_node != null && g.root_node.in_nums == 0 && qu == [g.root_node]
    requires resvec == []
    ensures Known(g.vertex_vec, qu) && Known(g.vertex_vec, resvec) && ValidKids(KidsOf(g.vertex_vec))
    ensures InDegree(KidsOf(g.vertex_vec), g.root_node.id) == 0
    ensures Sorting(KidsOf(g.vertex_vec), g.root_node.id, Ids(resvec), Ids(qu), [], InNums(g.vertex_vec))
  {
    hide Sorting, InDegree;
    ShapeValid(g);
    SortingStarts(KidsOf(g.vertex_vec), g.root_node.id, InNums(g.vertex_vec));
    assert Ids(qu) == [g.root_node.id] && Ids(resvec) == [];
  }

  lemma HeadKnown(g: Graph, qu: seq<ModuleNode>, resvec: seq<ModuleNode>)
    requires g.Shape() && Known(g.vertex_vec, qu) && Known(g.vertex_vec, resvec) && qu != []
    ensures qu[0].id < |g.vertex_vec| && g.vertex_vec[qu[0].id] == qu[0] && Known(g.vertex_vec, qu[1..])
    ensures Ids(qu) != [] && Ids(qu)[0] == qu[0].id && Ids(qu)[1..] == Ids(qu[1..])
    ensures Known(g.vertex_vec, resvec + [qu[0]]) && Ids(resvec + [qu[0]]) == Ids(resvec) + [qu[0].id]
    ensures KidsOf(g.vertex_vec)[qu[0].id] == Ids(qu[0].kid_nodes)
  {
    IdsAppend(resvec, qu[0]);
  }

  /** The emitted vertices by their ids. */
  lemma EmittedById(vertices: seq<ModuleNode>, ns: seq<ModuleNode>)
    requires Known(vertices, ns) && forall i :: 0 <= i < |vertices| ==> vertices[i].id == i
    ensures (forall i :: 0 <= i < |vertices| ==> vertices[i] in ns) <==> forall v: nat :: v < |vertices| ==>
      v in Ids(ns)
    ensures forall n :: n in ns ==> n.id in Ids(ns) && n.id < |vertices| && vertices[n.id] == n
  {
    hide Ids;
    forall v: nat | v < |vertices| ensures vertices[v] in ns <==> v in Ids(ns) {
      OneEmittedById(vertices, ns, v);
    }
    if forall i :: 0 <= i < |vertices| ==> vertices[i] in ns {
      forall v: nat | v < |vertices| ensures v in Ids(ns) {
        assert vertices[v] in ns;
      }
    }
    forall n | n in ns ensures n.id in Ids(ns) && n.id < |vertices| && vertices[n.id] == n {
      var j :| 0 <= j < |ns| && ns[j] == n;
      assert Ids(ns)[j] == n.id;
    }
  }

  lemma OneEmittedById(vertices: seq<ModuleNode>, ns: seq<ModuleNode>, v: nat)
    requires Known(vertices, ns) && v < |vertices| && vertices[v].id == v
    ensures vertices[v] in ns <==> v in Ids(ns)
  {
    hide Ids;
    if v in Ids(ns) {
      var j :| 0 <= j < |ns| && Ids(ns)[j] == v;
      assert ns[j] == vertices[v];
    }
    if vertices[v] in ns {
      var j :| 0 <= j < |ns| && ns[j] == vertices[v];
      assert Ids(ns)[j] == v;
    }
  }

  lemma EmittedCounters(vertices: seq<ModuleNode>, ns: seq<ModuleNode>)
    requires Known(vertices, ns) && forall v: nat :: v in Ids(ns) && v < |vertices| ==> InNums(vertices)[v] == 0
    requires forall n :: n in ns ==> n.id in Ids(ns) && n.id < |vertices| && vertices[n.id] == n
    ensures forall n :: n in ns ==> n.in_nums == 0
  {
    hide Ids, InNums;
    forall n | n in ns ensures n.in_nums == 0 {
      assert InNums(vertices)[n.id] == 0;
    }
  }

  lemma ShapeIds(g: Graph)
    requires g.Shape()
    ensures forall i :: 0 <= i < |g.vertex_vec| ==> g.vertex_vec[i].id == i
    ensures ValidKids(KidsOf(g.vertex_vec))
  {
    ShapeValid(g);
  }

  lemma KidKnown(g: Graph, node: ModuleNode, i: nat)
    requires g.Shape() && node.id < |g.vertex_vec| && g.vertex_vec[node.id] == node && i < |node.kid_nodes|
    ensures var kid, rest := node.kid_nodes[i], Ids(node.kid_nodes[i..]);
      && kid.id < |g.vertex_vec| && g.vertex_vec[kid.id] == kid
      && rest != [] && rest[0] == kid.id && rest[1..] == Ids(node.kid_nodes[i + 1..])
      && kid.id in KidsOf(g.vertex_vec)[node.id] && InNums(g.vertex_vec)[kid.id] == kid.in_nums
  {
    assert node.kid_nodes[i..][1..] == node.kid_nodes[i + 1..];
    assert KidsOf(g.vertex_vec)[node.id][i] == node.kid_nodes[i].id;
  }

  /** Nodes that are vertices of the graph. */
  ghost predicate Known(vertices: seq<ModuleNode>, ns: seq<ModuleNode>) {
    forall i :: 0 <= i < |ns| ==> ns[i].id < |vertices| && vertices[ns[i].id] == ns[i]
  }

  lemma ShapeValid(g: Graph)
    requires g.Shape()
    ensures ValidKids(KidsOf(g.vertex_vec))
  {
  }

  lemma NoIds(ns: seq<ModuleNode>)
    requires ns == []
    ensures Ids(ns) == []
  {
  }

  lemma {:induction false} IdsAppend(ns: seq<ModuleNode>, n: ModuleNode)
    ensures Ids(ns + [n]) == Ids(ns) + [n.id]
  {
  }
}
