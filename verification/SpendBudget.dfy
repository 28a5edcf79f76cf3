/** What a function costs to inline: MInline::SpendBudget and the end of MInline::CanInline,
    mapleall/maple_ipa/src/inline.cpp:588-746 and 873-877. */
module SpendBudget {
  datatype Op =
    | Block
    | Table(entries: nat)     // switch, multiway, rangegoto
    | Loop                    // foreachelem, doloop
    | While
    | Branch                  // goto, brtrue, brfalse, if, dowhile
    | IntrinsicCall
    | Call(puIdx: nat)
    | Throw
    | IntrinsicOp
    | Refused                 // try blocks, custom calls, stack allocation, synchronization and the like
    | Barrier                 // the membar operations
    | Comment
    | Plain

  /** A statement or expression with its operands, which for a statement include nested bodies;
      an operand may be missing. */
  datatype Tree = Nothing | Node(op: Op, kids: seq<Tree>)

  datatype Context = Context(toInline: map<nat, int>, inlineLevel: int, inConstructor: bool)

  /** Operations that are not inlined at this level. */
  predicate OpAllowed(c: Context, op: Op) {
    match op
    case Table(_) => c.inlineLevel >= 2
    case Loop => c.inlineLevel >= 2
    case While => c.inlineLevel >= 2
    case Branch => c.inlineLevel >= 2
    case IntrinsicCall => c.inlineLevel > 2
    case Throw => c.inlineLevel >= 2
    case IntrinsicOp => c.inlineLevel >= 2
    case Refused => false
    case Barrier => !c.inConstructor
    case _ => true
  }

  function OpCost(c: Context, op: Op): int {
    match op
    case Block => 0
    case Table(n) => n + 1
    case Loop => 4
    case While => 2
    case IntrinsicCall => 4
    case Call(f) => if f in c.toInline then c.toInline[f] else 1
    case Throw => 4
    case IntrinsicOp => 4
    case Comment => 0
    case _ => 1
  }

  /** What each operation costs. */
  lemma Costs(c: Context, op: Op)
    ensures op.Block? || op.Comment? ==> OpCost(c, op) == 0
    ensures op.Table? ==> OpCost(c, op) == op.entries + 1
    ensures op.Loop? || op.IntrinsicCall? || op.Throw? || op.IntrinsicOp? ==> OpCost(c, op) == 4
    ensures op.While? ==> OpCost(c, op) == 2
    ensures op.Call? && op.puIdx in c.toInline ==> OpCost(c, op) == c.toInline[op.puIdx]
    ensures op.Branch? || op.Barrier? || op.Plain? || (op.Call? && op.puIdx !in c.toInline) ==> OpCost(c, op) == 1
  {
  }

  /** From which level on each operation is inlined; some never are. */
  lemma Levels(c: Context, op: Op)
    ensures op.Refused? || (op.Barrier? && c.inConstructor) ==> !OpAllowed(c, op)
    ensures op.IntrinsicCall? ==> (OpAllowed(c, op) <==> c.inlineLevel >= 3)
    ensures op.Table? || op.Loop? || op.While? || op.Branch? || op.Throw? || op.IntrinsicOp? ==>
      (OpAllowed(c, op) <==> c.inlineLevel >= 2)
    ensures op.Block? || op.Call? || op.Comment? || op.Plain? || (op.Barrier? && !c.inConstructor) ==> OpAllowed(c, op)
  {
  }

  // ---------------------------------------------------------------- the plain sum

  predicate Allowed(c: Context, t: Tree) {
    t.Nothing? || (OpAllowed(c, t.op) && AllAllowed(c, t.kids))
  }

  predicate AllAllowed(c: Context, ts: seq<Tree>) {
    ts == [] || (AllAllowed(c, ts[..|ts| - 1]) && Allowed(c, ts[|ts| - 1]))
  }

  function Cost(c: Context, t: Tree): int {
    if t.Nothing? then 0 else OpCost(c, t.op) + TotalCost(c, t.kids)
  }

  function TotalCost(c: Context, ts: seq<Tree>): int {
    if ts == [] then 0 else TotalCost(c, ts[..|ts| - 1]) + Cost(c, ts[|ts| - 1])
  }

  /** A tree is admitted exactly if its own operation and all its operands are. */
  lemma {:induction false} AllowedExactly(c: Context, op: Op, kids: seq<Tree>)
    ensures Allowed(c, Node(op, kids)) <==> OpAllowed(c, op) && forall k :: 0 <= k < |kids| ==> Allowed(c, kids[k])
  {
    EachAllowed(c, kids);
  }

  lemma {:induction false} EachAllowed(c: Context, ts: seq<Tree>)
    ensures AllAllowed(c, ts) <==> forall k :: 0 <= k < |ts| ==> Allowed(c, ts[k])
  {
    hide Allowed;
    if ts != [] {
      EachAllowed(c, ts[..|ts| - 1]);
    }
  }

  /** Every operand counts, once and with its own cost: putting another in its place changes the
      cost of the tree by the difference of the two. */
  lemma OperandCounts(c: Context, op: Op, kids: seq<Tree>, k: nat, t: Tree)
    requires k < |kids|
    ensures Cost(c, Node(op, kids[k := t])) - Cost(c, Node(op, kids)) == Cost(c, t) - Cost(c, kids[k])
    ensures Cost(c, Nothing) == 0 && Cost(c, Node(op, [])) == OpCost(c, op)
  {
    OneCounts(c, kids, k, t);
  }

  lemma {:induction false} OneCounts(c: Context, ts: seq<Tree>, k: nat, t: Tree)
    requires k < |ts|
    ensures TotalCost(c, ts[k := t]) - TotalCost(c, ts) == Cost(c, t) - Cost(c, ts[k])
  {
    hide Cost;
    var n := |ts| - 1;
    if k < n {
      OneCounts(c, ts[..n], k, t);
      assert ts[k := t][..n] == ts[..n][k := t];
    } else {
      assert ts[k := t][..n] == ts[..n];
    }
  }

  /** Missing operands cost nothing. */
  lemma {:induction false} NothingCounts(c: Context, ts: seq<Tree>)
    requires forall k :: 0 <= k < |ts| ==> ts[k] == Nothing
    ensures TotalCost(c, ts) == 0
  {
    if ts != [] {
      var n := |ts| - 1;
      NothingCounts(c, ts[..n]);
      assert Cost(c, ts[n]) == 0 by { assert ts[n] == Nothing; }
    }
  }

  ghost predicate CostsRecorded(toInline: map<nat, int>, maxBudget: int) {
    forall f :: f in toInline ==> 0 <= toInline[f] <= maxBudget
  }

  ghost predicate NoNegativeCosts(toInline: map<nat, int>) {
    forall f :: f in toInline ==> toInline[f] >= 0
  }

  lemma {:induction false} CostNotNegative(c: Context, t: Tree)
    requires NoNegativeCosts(c.toInline)
    ensures Cost(c, t) >= 0
    decreases t, 0
  {
    if t.Node? {
      TotalNotNegative(c, t.kids);
    }
  }

  lemma {:induction false} TotalNotNegative(c: Context, ts: seq<Tree>)
    requires NoNegativeCosts(c.toInline)
    ensures TotalCost(c, ts) >= 0
    decreases ts, 1
  {
    if ts != [] {
      TotalNotNegative(c, ts[..|ts| - 1]);
      CostNotNegative(c, ts[|ts| - 1]);
    }
  }

  /** Stopping early is sound: once a prefix is refused or too dear, so is the whole. */
  lemma {:induction false} PrefixDecides(c: Context, ts: seq<Tree>, i: nat)
    requires NoNegativeCosts(c.toInline) && i <= |ts|
    ensures TotalCost(c, ts[..i]) <= TotalCost(c, ts)
    ensures AllAllowed(c, ts) ==> AllAllowed(c, ts[..i])
    decreases |ts| - i
  {
    if i < |ts| {
      PrefixDecides(c, ts, i + 1);
      assert ts[..i + 1][..i] == ts[..i];
      CostNotNegative(c, ts[i]);
    } else {
      assert ts[..i] == ts;
    }
  }

  // ---------------------------------------------------------------- the early exits

  /** True exactly when nothing in the tree is refused and the sum of all costs is within the
      budget, of which the rest is returned. */
  method Spend(c: Context, t: Tree, budget0: int) returns (ok: bool, budget: int)
    requires budget0 >= 0 && NoNegativeCosts(c.toInline)
    ensures ok <==> Allowed(c, t) && Cost(c, t) <= budget0
    ensures ok ==> budget == budget0 - Cost(c, t)
    decreases t
  {
    budget := budget0;
    if t.Nothing? {
      return true, budget;
    }
    TotalNotNegative(c, t.kids);
    if !OpAllowed(c, t.op) {
      return false, budget;
    }
    budget := budget - OpCost(c, t.op);
    if budget < 0 {
      return false, budget;
    }
    var i := 0;
    while i < |t.kids|
      invariant 0 <= i <= |t.kids| && AllAllowed(c, t.kids[..i])
      invariant 0 <= budget == budget0 - OpCost(c, t.op) - TotalCost(c, t.kids[..i])
    {
      assert t.kids[..i + 1][..i] == t.kids[..i];
      PrefixDecides(c, t.kids, i + 1);
      ok, budget := Spend(c, t.kids[i], budget);
      if !ok {
        return;
      }
      i := i + 1;
    }
    assert t.kids[..i] == t.kids;
    ok := true;
  }

  /** What CanInline does once the function is admitted: a function within the budget is recorded
      with its cost, unless it was recorded before. */
  method RecordCost(c: Context, func: nat, body: Tree, maxBudget: int) returns (toInline: map<nat, int>)
    requires maxBudget >= 0 && CostsRecorded(c.toInline, maxBudget)
    ensures CostsRecorded(toInline, maxBudget)
    ensures toInline ==
      if Allowed(c, body) && Cost(c, body) <= maxBudget
        && func !in c.toInline then c.toInline[func := Cost(c, body)] else c.toInline
  {
    var budget := maxBudget;
    var ok;
    CostNotNegative(c, body);
    ok, budget := Spend(c, body, budget);
    toInline := c.toInline;
    if ok && budget >= 0 && func !in toInline {
      toInline := toInline[func := maxBudget - budget];
    }
  }
}
