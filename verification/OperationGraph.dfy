/** The heap graphs of src/nn: nodes with shared inputs and cached values, the two
    traversals of src/nn/nn.h, and the graph that builds a derivative beside its original. */
module OperationGraph {
  import opened Basics
  import opened Expression
  import Limits

  /** A node's vtable, with the payload of the leaf structs. */
  datatype Kind =
    | IsPlaceholder(reference: Address)
    | IsConst(value: real)
    | IsAdd
    | IsSub
    | IsMul
    | IsDiv
  {
    predicate Leaf() {
      IsPlaceholder? || IsConst?
    }
  }

  class Operation {
    const kind: Kind
    const inputs: seq<Operation>
    var outputValue: real
    var outputComputed: bool

    /** A node is made after its inputs, so it ranks above them. */
    ghost const rank: nat

    /** The nodes reachable from this one. */
    ghost const reach: set<Operation>

    /** `malloc` and the assignments of the make functions: the cache stays uninitialised. */
    constructor (kind: Kind, inputs: seq<Operation>)
      ensures this.kind == kind && this.inputs == inputs
      ensures forall i :: i in inputs ==> i.rank < rank
      ensures reach == {this} + ReachAll(inputs)
    {
      this.kind := kind;
      this.inputs := inputs;
      rank := RankAbove(inputs);
      reach := {this} + ReachAll(inputs);
    }

    /** `vtable->compute`. */
    method Compute(mem: Memory)
      requires kind.Leaf() || |inputs| == 2
      requires this !in inputs
      modifies this`outputValue
      ensures outputValue == Combine(this, mem)
      ensures (kind.IsPlaceholder? ==> kind.reference in mem) && (kind.IsDiv? ==> inputs[1].outputValue != 0.0) ==>
                HoldsItsValue(this, mem)
    {
      match kind
      case IsPlaceholder(r) => outputValue := if r in mem then mem[r] else 0.0;
      case IsConst(c) => outputValue := c;
      case IsAdd => outputValue := inputs[0].outputValue + inputs[1].outputValue;
      case IsSub => outputValue := inputs[0].outputValue - inputs[1].outputValue;
      case IsMul => outputValue := Times(inputs[0].outputValue, inputs[1].outputValue);
      case IsDiv => outputValue := Quotient(inputs[0].outputValue, inputs[1].outputValue);
    }
  }

  /** The cached value is what the node stands for, given the cached values of its inputs. */
  ghost predicate HoldsItsValue(n: Operation, mem: Memory)
    reads n, n.inputs
  {
    if n.kind.IsPlaceholder? then n.kind.reference in mem && n.outputValue == mem[n.kind.reference]
    else if n.kind.IsConst? then n.outputValue == n.kind.value
    else
      |n.inputs| == 2 &&
      var a, b := n.inputs[0].outputValue, n.inputs[1].outputValue;
      if n.kind.IsAdd? then n.outputValue == a + b
      else if n.kind.IsSub? then n.outputValue == a - b
      else if n.kind.IsMul? then n.outputValue == a * b
      else b != 0.0 && n.outputValue * b == a
  }

  ghost function RankAbove(nodes: seq<Operation>): (r: nat)
    ensures forall n :: n in nodes ==> n.rank < r
  {
    if nodes == [] then 0 else
    var r := RankAbove(nodes[1..]);
    if nodes[0].rank < r then r else nodes[0].rank + 1
  }

  /** What the compute function of each kind makes of the values of its inputs. */
  function Apply(kind: Kind, a: real, b: real, mem: Memory): real {
    match kind
    case IsPlaceholder(r) => if r in mem then mem[r] else 0.0
    case IsConst(c) => c
    case IsAdd => a + b
    case IsSub => a - b
    case IsMul => Times(a, b)
    case IsDiv => Quotient(a, b)
  }

  function Combine(n: Operation, mem: Memory): real
    requires n.kind.Leaf() || |n.inputs| == 2
    reads n.inputs
  {
    if n.kind.Leaf() then Apply(n.kind, 0.0, 0.0, mem)
    else Apply(n.kind, n.inputs[0].outputValue, n.inputs[1].outputValue, mem)
  }

  /** A finite acyclic graph with the right number of inputs at every node. */
  ghost predicate WellFormed(op: Operation)
    decreases op.rank
  {
    && (if op.kind.Leaf() then op.inputs == [] else |op.inputs| == 2)
    && op.reach == {op} + ReachAll(op.inputs)
    && forall i :: i in op.inputs ==> i.rank < op.rank && WellFormed(i)
  }

  /** The meaning of a node: the expression its graph unfolds to. */
  ghost function Tree(op: Operation): Expr
    requires WellFormed(op)
    decreases op.rank
  {
    match op.kind
    case IsPlaceholder(r) => Placeholder(r)
    case IsConst(c) => Constant(c)
    case IsAdd => Add(Tree(op.inputs[0]), Tree(op.inputs[1]))
    case IsSub => Sub(Tree(op.inputs[0]), Tree(op.inputs[1]))
    case IsMul => Mul(Tree(op.inputs[0]), Tree(op.inputs[1]))
    case IsDiv => Div(Tree(op.inputs[0]), Tree(op.inputs[1]))
  }

  ghost function ReachAll(nodes: seq<Operation>): set<Operation> {
    set i, n | i in nodes && n in i.reach :: n
  }

  lemma {:induction false} ReachCloses(op: Operation, n: Operation)
    requires WellFormed(op) && n in op.reach
    ensures WellFormed(n) && n.reach <= op.reach && n.rank <= op.rank
    ensures n == op || n.rank < op.rank
    decreases op.rank
  {
    if n == op {
    } else {
      var i :| i in op.inputs && n in i.reach;
      ReachCloses(i, n);
    }
  }

  lemma ReachFacts(op: Operation)
    requires WellFormed(op)
    ensures op in op.reach && op.reach == {op} + ReachAll(op.inputs)
    ensures op.kind.Leaf() || |op.inputs| == 2
    ensures forall i :: i in op.inputs ==>
              WellFormed(i) && i.rank < op.rank && i in i.reach && i.reach <= op.reach && op !in i.reach
    ensures forall n :: n in op.reach ==>
              WellFormed(n) && n.reach <= op.reach && (n.kind.Leaf() || |n.inputs| == 2)
    ensures forall n, i :: n in op.reach && i in n.inputs ==> i in op.reach && i != op
  {
    forall i | i in op.inputs ensures i in i.reach && i.reach <= op.reach && op !in i.reach {
      if op in i.reach { ReachCloses(i, op); }
    }
    forall n | n in op.reach ensures WellFormed(n) && n.reach <= op.reach {
      ReachCloses(op, n);
    }
    forall n, i | n in op.reach && i in n.inputs ensures i in op.reach && i != op {
      ReachCloses(op, n);
      assert i in i.reach && i.reach <= n.reach;
    }
  }

  lemma DistinctConcat(a: seq<Operation>, b: seq<Operation>)
    requires Distinct(a) && Distinct(b) && forall n :: n in b ==> n !in a
    ensures Distinct(a + b)
  {
    forall i, j | 0 <= i < j < |a + b| ensures (a + b)[i] != (a + b)[j] {
      if i < |a| <= j {
        assert b[j - |a|] in b;
      }
    }
  }

  // ----- reset_graph -----

  ghost function Uncomputed(nodes: set<Operation>): set<Operation>
    reads nodes
  {
    set n | n in nodes && !n.outputComputed
  }

  /** No node of `some` has an input among `nodes` outside of `some`. */
  ghost predicate Closed(some: set<Operation>, nodes: set<Operation>) {
    forall n, i :: n in some && i in n.inputs && i in nodes ==> i in some
  }

  /** An uncomputed node has no computed input, in the whole graph. */
  ghost predicate UncomputedClosed(nodes: set<Operation>)
    reads nodes
  {
    Closed(Uncomputed(nodes), nodes)
  }

  lemma ClosedInPart(some: set<Operation>, nodes: set<Operation>, part: set<Operation>)
    requires Closed(some, nodes) && part <= nodes
    ensures Closed(some * part, part)
  {
  }

  /** Clearing a node and all below it keeps the rest closed. */
  lemma ClosedWithReach(some: set<Operation>, nodes: set<Operation>, op: Operation)
    requires WellFormed(op) && Closed(some, nodes)
    ensures Closed(some + op.reach, nodes)
  {
    ReachFacts(op);
  }

  lemma {:induction false} UncomputedBelow(op: Operation, nodes: set<Operation>)
    requires WellFormed(op) && op.reach <= nodes && UncomputedClosed(nodes) && !op.outputComputed
    ensures forall n :: n in op.reach ==> !n.outputComputed
    decreases op.rank
  {
    forall n | n in op.reach ensures !n.outputComputed {
      if n != op {
        var i :| i in op.inputs && n in i.reach;
        ReachCloses(op, i);
        UncomputedBelow(i, nodes);
      }
    }
  }

  ghost function Elements(nodes: seq<Operation>): set<Operation> {
    set n | n in nodes
  }

  /** When a node is cleared, its inputs were uncomputed before or have been cleared. */
  ghost predicate InputsFirst(uncomputed: set<Operation>, looped: seq<Operation>) {
    forall k, i :: 0 <= k < |looped| && i in looped[k].inputs ==> i in uncomputed || i in looped[..k]
  }

  lemma InputsFirstConcat(u: set<Operation>, v: set<Operation>, a: seq<Operation>, b: seq<Operation>)
    requires InputsFirst(u, a) && InputsFirst(v, b) && v <= u + Elements(a)
    ensures InputsFirst(u, a + b)
  {
    forall k, i | 0 <= k < |a + b| && i in (a + b)[k].inputs
      ensures i in u || i in (a + b)[..k]
    {
      if k < |a| {
        assert (a + b)[..k] == a[..k];
      } else {
        var j := k - |a|;
        assert (a + b)[..k] == a + b[..j] && (a + b)[k] == b[j];
        assert i in v || i in b[..j];
      }
    }
  }

  lemma InputsFirstLast(u: set<Operation>, a: seq<Operation>, op: Operation)
    requires InputsFirst(u, a) && forall i :: i in op.inputs ==> i in u || i in a
    ensures InputsFirst(u, a + [op])
  {
    assert forall k :: 0 <= k <= |a| ==> (a + [op])[..k] == a[..k];
  }

  /** A reset keeps uncomputed nodes closed at every step: `u` are the nodes of any graph
      around it that were uncomputed before, and `k` of `looped` have been cleared. */
  lemma ClosedThroughout(u: set<Operation>, v: set<Operation>, looped: seq<Operation>, nodes: set<Operation>, k: nat)
    requires Closed(u, nodes) && v <= u && InputsFirst(v, looped) && k <= |looped|
    ensures Closed(u + Elements(looped[..k]), nodes)
  {
    forall n, i | n in u + Elements(looped[..k]) && i in n.inputs && i in nodes
      ensures i in u + Elements(looped[..k])
    {
      if n !in u {
        var j :| 0 <= j < k && looped[j] == n;
        assert looped[..j] <= looped[..k];
      }
    }
  }

  /** `looped` lists the nodes whose input loop was run, in the order in which they were
      cleared. A forced reset clears every reachable node. An unforced one does so too where
      uncomputed nodes are closed under inputs, and then runs each loop at most once. */
  method ResetGraph(op: Operation, force: bool) returns (ghost looped: seq<Operation>)
    requires WellFormed(op)
    modifies op.reach`outputComputed
    ensures !op.outputComputed
    ensures forall n :: n in looped ==> n in op.reach
    ensures forall n :: n in op.reach ==> n.outputComputed == (old(n.outputComputed) && n !in looped)
    ensures force || old(UncomputedClosed(op.reach)) ==> Uncomputed(op.reach) == op.reach
    ensures !force ==> Distinct(looped) && forall n :: n in looped ==> old(n.outputComputed)
    ensures InputsFirst(old(Uncomputed(op.reach)), looped)
    decreases op.rank
  {
    hide WellFormed, ReachAll, Closed, InputsFirst;
    ghost var start := Uncomputed(op.reach);
    looped := [];
    NothingLooped(start);
    if !op.outputComputed && !force {
      if UncomputedClosed(op.reach) { UncomputedBelow(op, op.reach); }
      return;
    }
    ReachFacts(op);
    ghost var good := force || UncomputedClosed(op.reach);
    ghost var done: set<Operation> := {};
    ReachNone();
    for i := 0 to |op.inputs|
      invariant op !in looped && forall n :: n in looped ==> n in op.reach
      invariant forall n :: n in op.reach ==> n.outputComputed == (old(n.outputComputed) && n !in looped)
      invariant !force ==> Distinct(looped) && forall n :: n in looped ==> old(n.outputComputed)
      invariant InputsFirst(start, looped) && forall j :: 0 <= j < i ==> !op.inputs[j].outputComputed
      invariant good && !force ==> UncomputedClosed(op.reach)
      invariant done == ReachAll(op.inputs[..i]) && (good ==> done <= Uncomputed(op.reach))
    {
      var input := op.inputs[i];
      ghost var before, part := Uncomputed(op.reach), Uncomputed(input.reach);
      assert input in op.inputs;
      if good && !force { ClosedForInput(op, input); }
      var more := ResetGraph(input, force);
      assert good ==> Uncomputed(op.reach) == before + input.reach;
      if !force { DistinctConcat(looped, more); }
      InputsFirstConcat(start, part, looped, more);
      looped := looped + more;
      done := done + input.reach;
      ReachOneMore(op.inputs, i);
    }
    assert op.inputs[..|op.inputs|] == op.inputs;
    op.outputComputed := false;
    InputsFirstLast(start, looped, op);
    looped := looped + [op];
  }

  lemma NothingLooped(u: set<Operation>)
    ensures InputsFirst(u, [])
  {
  }

  lemma ReachNone()
    ensures ReachAll([]) == {}
  {
  }

  lemma ClosedForInput(op: Operation, input: Operation)
    requires WellFormed(op) && input in op.inputs && UncomputedClosed(op.reach)
    ensures UncomputedClosed(input.reach)
    ensures Closed(Uncomputed(op.reach) + input.reach, op.reach)
  {
    ReachFacts(op);
    ClosedInPart(Uncomputed(op.reach), op.reach, input.reach);
    assert Uncomputed(op.reach) * input.reach == Uncomputed(input.reach);
    ClosedWithReach(Uncomputed(op.reach), op.reach, input);
  }

  lemma ReachOneMore(nodes: seq<Operation>, i: nat)
    requires i < |nodes|
    ensures ReachAll(nodes[..i + 1]) == ReachAll(nodes[..i]) + nodes[i].reach
  {
    assert nodes[..i + 1] == nodes[..i] + [nodes[i]];
  }

  // ----- compute_graph -----

  ghost predicate Settled(n: Operation, mem: Memory)
    requires WellFormed(n)
    reads n, n.inputs
  {
    n.outputComputed ==> (forall i :: i in n.inputs ==> i.outputComputed) && n.outputValue == Combine(n, mem)
  }

  /** No cached value among these nodes is garbage. */
  ghost predicate AllSettled(nodes: set<Operation>, mem: Memory)
    reads nodes
  {
    forall n :: n in nodes ==> WellFormed(n) && (forall i :: i in n.inputs ==> i in nodes) && Settled(n, mem)
  }

  lemma SettledNode(op: Operation, mem: Memory)
    requires WellFormed(op) && op.outputComputed && Settled(op, mem)
    requires forall i :: i in op.inputs ==> i.outputValue == Eval(Tree(i), mem)
    ensures op.outputValue == Eval(Tree(op), mem)
  {
    hide Times, Quotient;
  }

  /** A computed node of a graph without garbage holds the value of its expression, and so
      does every node below it. */
  lemma {:induction false} SettledMeansEval(op: Operation, nodes: set<Operation>, mem: Memory)
    requires WellFormed(op) && op in nodes && AllSettled(nodes, mem) && op.outputComputed
    ensures forall n :: n in op.reach ==>
              WellFormed(n) && n.outputComputed && n.outputValue == Eval(Tree(n), mem)
    decreases op.rank
  {
    hide Times, Quotient, Combine;
    ReachFacts(op);
    forall i | i in op.inputs
      ensures forall n :: n in i.reach ==> n.outputComputed && n.outputValue == Eval(Tree(n), mem)
    {
      SettledMeansEval(i, nodes, mem);
    }
    forall i | i in op.inputs ensures i.outputValue == Eval(Tree(i), mem) {
      assert i in i.reach;
    }
    SettledNode(op, mem);
  }

  /** Runs the compute function of each node in `order`, once each and in that order: the
      nodes that were uncomputed. Nothing else changes, and every node that was run ends
      with computed inputs and the value its function gives for them. */
  method ComputeGraph(op: Operation, mem: Memory) returns (v: real, ghost order: seq<Operation>)
    requires WellFormed(op)
    modifies op.reach
    ensures op.outputComputed && v == op.outputValue
    ensures Distinct(order)
    ensures forall n :: n in order ==> n in op.reach && !old(n.outputComputed)
    ensures forall n :: n in order ==> WellFormed(n) && n.outputComputed && Settled(n, mem)
    ensures forall n :: n in op.reach && n !in order ==>
              n.outputComputed == old(n.outputComputed) && n.outputValue == old(n.outputValue)
    decreases op.rank
  {
    hide Apply, WellFormed, ReachAll, Combine, Settled, Agrees, CombineOf;
    order := [];
    if op.outputComputed {
      return op.outputValue, [];
    }
    ReachFacts(op);
    for i := 0 to |op.inputs|
      invariant !op.outputComputed && op.outputValue == old(op.outputValue) && op !in order
      invariant Distinct(order)
      invariant forall n :: n in order ==> n in op.reach && !old(n.outputComputed)
      invariant forall n :: n in order ==> n.outputComputed && Settled(n, mem)
      invariant forall n, j :: n in order && j in n.inputs ==> j.outputComputed
      invariant forall n :: n in op.reach && n !in order ==>
                  n.outputComputed == old(n.outputComputed) && n.outputValue == old(n.outputValue)
      invariant forall k :: 0 <= k < i ==> op.inputs[k].outputComputed
    {
      ReachFacts(op.inputs[i]);
      ghost var values := map n | n in op.reach && n.outputComputed :: n.outputValue;
      Snapshot(order, values, mem);
      var _, more := ComputeGraph(op.inputs[i], mem);
      assert forall n :: n in values ==> n.outputComputed && n.outputValue == values[n];
      SettledAsInSnapshot(order, values, mem);
      InputsComputed(more, mem);
      DistinctConcat(order, more);
      order := order + more;
    }
    op.outputComputed := true;
    op.Compute(mem);
    SettledNow(op, mem);
    order := order + [op];
    v := op.outputValue;
  }

  /** The value of a node among recorded values. */
  ghost function CombineOf(n: Operation, values: map<Operation, real>, mem: Memory): real
    requires WellFormed(n) && forall i :: i in n.inputs ==> i in values
  {
    if n.kind.Leaf() then Apply(n.kind, 0.0, 0.0, mem)
    else Apply(n.kind, values[n.inputs[0]], values[n.inputs[1]], mem)
  }

  ghost predicate Agrees(nodes: seq<Operation>, values: map<Operation, real>, mem: Memory) {
    forall n :: n in nodes ==>
      && WellFormed(n) && n in values && (forall i :: i in n.inputs ==> i in values)
      && values[n] == CombineOf(n, values, mem)
  }

  lemma Snapshot(nodes: seq<Operation>, values: map<Operation, real>, mem: Memory)
    requires forall n :: n in nodes ==> WellFormed(n) && n.outputComputed && Settled(n, mem) && n in values
    requires forall n, i :: n in nodes && i in n.inputs ==> i in values
    requires forall n :: n in values ==> n.outputValue == values[n]
    ensures Agrees(nodes, values, mem)
  {
    hide Apply;
  }

  lemma SettledAsInSnapshot(nodes: seq<Operation>, values: map<Operation, real>, mem: Memory)
    requires Agrees(nodes, values, mem)
    requires forall n :: n in values ==> n.outputComputed && n.outputValue == values[n]
    ensures forall n :: n in nodes ==> WellFormed(n) && Settled(n, mem)
    ensures forall n, j :: n in nodes && j in n.inputs ==> j.outputComputed
  {
    hide Apply;
  }

  lemma InputsComputed(nodes: seq<Operation>, mem: Memory)
    requires forall n :: n in nodes ==> WellFormed(n) && n.outputComputed && Settled(n, mem)
    ensures forall n, j :: n in nodes && j in n.inputs ==> j.outputComputed
  {
  }

  lemma SettledNow(op: Operation, mem: Memory)
    requires WellFormed(op) && op.outputValue == Combine(op, mem)
    requires forall i :: i in op.inputs ==> i.outputComputed
    ensures Settled(op, mem)
  {
  }

  /** `reset_graph` followed by `compute_graph`. From any cache contents after a forced
      reset, or where an unforced one clears as much, the result is the value of the
      expression and every reachable node has run its compute function exactly once. */
  method Evaluate(op: Operation, force: bool, mem: Memory) returns (v: real, ghost order: seq<Operation>)
    requires WellFormed(op) && Defined(Tree(op), mem)
    requires force || UncomputedClosed(op.reach)
    modifies op.reach
    ensures v == Eval(Tree(op), mem)
    ensures forall n :: n in op.reach ==>
              WellFormed(n) && n.outputComputed && n.outputValue == Eval(Tree(n), mem)
    ensures forall n :: n in op.reach ==> HoldsItsValue(n, mem)
    ensures Distinct(order) && forall n :: n in order <==> n in op.reach
    ensures UncomputedClosed(op.reach)
  {
    var _ := ResetGraph(op, force);
    ReachFacts(op);
    v, order := ComputeGraph(op, mem);
    SettledMeansEval(op, op.reach, mem);
    forall n | n in op.reach ensures HoldsItsValue(n, mem) {
      ReachDefined(op, n, mem);
      ReachFacts(n);
      assert forall i :: i in n.inputs ==> i in op.reach;
      EvalHolds(n, mem);
    }
  }

  lemma {:induction false} ReachDefined(op: Operation, n: Operation, mem: Memory)
    requires WellFormed(op) && Defined(Tree(op), mem) && n in op.reach
    ensures WellFormed(n) && Defined(Tree(n), mem)
    decreases op.rank
  {
    hide Defined, Tree;
    ReachFacts(op);
    if n == op {
    } else {
      var i :| i in op.inputs && n in i.reach;
      InputDefined(op, i, mem);
      ReachDefined(i, n, mem);
    }
  }

  lemma InputDefined(op: Operation, i: Operation, mem: Memory)
    requires WellFormed(op) && Defined(Tree(op), mem) && i in op.inputs
    ensures WellFormed(i) && Defined(Tree(i), mem)
  {
    hide Eval;
    if !op.kind.Leaf() {
      TreeOfPairwise(op);
    }
  }

  lemma EvalHolds(n: Operation, mem: Memory)
    requires WellFormed(n) && Defined(Tree(n), mem) && n.outputValue == Eval(Tree(n), mem)
    requires forall i :: i in n.inputs ==> WellFormed(i) && i.outputValue == Eval(Tree(i), mem)
    ensures HoldsItsValue(n, mem)
  {
    if n.kind.Leaf() {
      LeafHolds(n, mem);
    } else {
      hide WellFormed, Tree, Build, Eval, Defined, HoldsItsValue;
      TreeOfPairwise(n);
      EvalOfBuild(n.kind, Tree(n.inputs[0]), Tree(n.inputs[1]), mem);
      PairHolds(n, mem);
    }
  }

  lemma LeafHolds(n: Operation, mem: Memory)
    requires WellFormed(n) && n.kind.Leaf() && Defined(Tree(n), mem) && n.outputValue == Eval(Tree(n), mem)
    ensures HoldsItsValue(n, mem)
  {
  }

  lemma PairHolds(n: Operation, mem: Memory)
    requires !n.kind.Leaf() && |n.inputs| == 2
    requires OfKind(n.kind, n.outputValue, n.inputs[0].outputValue, n.inputs[1].outputValue)
    ensures HoldsItsValue(n, mem)
  {
  }

  ghost predicate OfKind(kind: Kind, v: real, x: real, y: real) {
    && (kind.IsAdd? ==> v == x + y) && (kind.IsSub? ==> v == x - y)
    && (kind.IsMul? ==> v == x * y) && (kind.IsDiv? ==> y != 0.0 && v * y == x)
  }

  lemma EvalOfBuild(kind: Kind, a: Expr, b: Expr, mem: Memory)
    requires !kind.Leaf() && Defined(Build(kind, a, b), mem)
    ensures OfKind(kind, Eval(Build(kind, a, b), mem), Eval(a, mem), Eval(b, mem))
  {
    hide Times, Quotient;
    TimesIs(Eval(a, mem), Eval(b, mem));
    match kind
    case IsAdd => assert Build(kind, a, b) == Add(a, b);
    case IsSub => assert Build(kind, a, b) == Sub(a, b);
    case IsMul => assert Build(kind, a, b) == Mul(a, b);
    case IsDiv => assert Build(kind, a, b) == Div(a, b);
  }

  lemma TimesIs(a: real, b: real)
    ensures Times(a, b) == a * b && (b != 0.0 ==> Quotient(a, b) * b == a)
  {
  }

  // ----- derivative -----

  ghost function Build(kind: Kind, a: Expr, b: Expr): Expr
    requires !kind.Leaf()
  {
    match kind
    case IsAdd => Add(a, b)
    case IsSub => Sub(a, b)
    case IsMul => Mul(a, b)
    case IsDiv => Div(a, b)
  }

  /** `make_op_pairwise`. */
  method MakePairwise(kind: Kind, a: Operation, b: Operation) returns (p: Operation)
    requires WellFormed(a) && WellFormed(b) && !kind.Leaf()
    ensures fresh(p) && WellFormed(p) && p.kind == kind && p.inputs == [a, b]
    ensures Tree(p) == Build(kind, Tree(a), Tree(b))
    ensures p.reach == {p} + a.reach + b.reach
  {
    p := new Operation(kind, [a, b]);
    assert a in p.inputs && b in p.inputs;
  }

  /** `make_op_placeholder`. */
  method MakePlaceholder(reference: Address) returns (p: Operation)
    ensures fresh(p) && WellFormed(p) && Tree(p) == Placeholder(reference) && p.reach == {p}
  {
    p := new Operation(IsPlaceholder(reference), []);
  }

  /** `make_op_const`. */
  method MakeConst(value: real) returns (p: Operation)
    ensures fresh(p) && WellFormed(p) && Tree(p) == Constant(value) && p.reach == {p}
  {
    p := new Operation(IsConst(value), []);
  }

  /** The two products that the product rule adds and the quotient rule subtracts. */
  method CrossProducts(kind: Kind, a: Operation, b: Operation, d1: Operation, d2: Operation) returns (p: Operation)
    requires WellFormed(a) && WellFormed(b) && WellFormed(d1) && WellFormed(d2) && !kind.Leaf()
    ensures fresh(p) && WellFormed(p)
    ensures Tree(p) == Build(kind, Mul(Tree(d1), Tree(b)), Mul(Tree(d2), Tree(a)))
    ensures fresh(p.reach - a.reach - b.reach - d1.reach - d2.reach)
  {
    hide WellFormed, Tree, ReachAll;
    var l := MakePairwise(IsMul, d1, b);
    var r := MakePairwise(IsMul, d2, a);
    p := MakePairwise(kind, l, r);
  }

  /** `derivative_mul`, given the derivatives of the inputs. */
  method DerivativeMul(a: Operation, b: Operation, d1: Operation, d2: Operation) returns (d: Operation)
    requires WellFormed(a) && WellFormed(b) && WellFormed(d1) && WellFormed(d2)
    ensures fresh(d) && WellFormed(d)
    ensures Tree(d) == Add(Mul(Tree(d1), Tree(b)), Mul(Tree(d2), Tree(a)))
    ensures fresh(d.reach - a.reach - b.reach - d1.reach - d2.reach)
  {
    d := CrossProducts(IsAdd, a, b, d1, d2);
  }

  /** `derivative_div`, given the derivatives of the inputs. */
  method DerivativeDiv(a: Operation, b: Operation, d1: Operation, d2: Operation) returns (d: Operation)
    requires WellFormed(a) && WellFormed(b) && WellFormed(d1) && WellFormed(d2)
    ensures fresh(d) && WellFormed(d)
    ensures Tree(d) == Div(Sub(Mul(Tree(d1), Tree(b)), Mul(Tree(d2), Tree(a))), Mul(Tree(b), Tree(b)))
    ensures fresh(d.reach - a.reach - b.reach - d1.reach - d2.reach)
  {
    hide WellFormed, Tree, ReachAll;
    var n := CrossProducts(IsSub, a, b, d1, d2);
    var s := MakePairwise(IsMul, b, b);
    d := MakePairwise(IsDiv, n, s);
  }

  lemma TreeOfPairwise(op: Operation)
    requires WellFormed(op) && !op.kind.Leaf()
    ensures |op.inputs| == 2 && op.inputs[0] in op.inputs && op.inputs[1] in op.inputs
    ensures WellFormed(op.inputs[0]) && WellFormed(op.inputs[1])
    ensures Tree(op) == Build(op.kind, Tree(op.inputs[0]), Tree(op.inputs[1]))
  {
  }

  lemma DerivativeOfBuild(kind: Kind, a: Expr, b: Expr, v: Address)
    requires !kind.Leaf()
    ensures D(Build(kind, a, b), v) ==
            match kind
            case IsMul => Add(Mul(D(a, v), b), Mul(D(b, v), a))
            case IsDiv => Div(Sub(Mul(D(a, v), b), Mul(D(b, v), a)), Mul(b, b))
            case _ => Build(kind, D(a, v), D(b, v))
  {
  }

  lemma DerivativeOfLeaf(op: Operation, v: Address)
    requires WellFormed(op) && op.kind.Leaf()
    ensures D(Tree(op), v) == Constant(if op.kind == IsPlaceholder(v) then 1.0 else 0.0)
  {
  }

  /** `vtable->derivative`. The result means the derivative expression; it is made of new
      nodes and nodes of the original. Having no `modifies` clause, the method changes no
      node that existed before, so no cached value either. */
  method Derivative(op: Operation, v: Address) returns (d: Operation)
    requires WellFormed(op)
    ensures WellFormed(d) && Tree(d) == D(Tree(op), v)
    ensures fresh(d) && fresh(d.reach - op.reach)
    decreases op.rank
  {
    hide WellFormed, Tree, ReachAll, D, Build;
    if op.kind.Leaf() {
      DerivativeOfLeaf(op, v);
      d := MakeConst(if op.kind == IsPlaceholder(v) then 1.0 else 0.0);
    } else {
      ReachFacts(op);
      TreeOfPairwise(op);
      var a, b := op.inputs[0], op.inputs[1];
      DerivativeOfBuild(op.kind, Tree(a), Tree(b), v);
      var d1 := Derivative(a, v);
      var d2 := Derivative(b, v);
      if op.kind.IsMul? {
        d := DerivativeMul(a, b, d1, d2);
      } else if op.kind.IsDiv? {
        d := DerivativeDiv(a, b, d1, d2);
      } else {
        d := MakePairwise(op.kind, d1, d2);
      }
    }
  }

  /** The order of src/nn/main.c or the other one: differentiate, then force-reset and
      evaluate both graphs, although they share nodes. Both values are right, the nodes of
      `op` are the only ones changed that existed before, and the derivative's value is the
      limit of the difference quotients. */
  method ValueAndDerivative(op: Operation, v: Address, mem: Memory, valueFirst: bool)
    returns (value: real, slope: real)
    requires WellFormed(op) && v in mem && Defined(Tree(op), mem)
    modifies op.reach
    ensures value == Eval(Tree(op), mem)
    ensures slope == Eval(D(Tree(op), v), mem)
    ensures Limits.IsDerivative(Tree(op), v, mem, slope)
  {
    hide WellFormed, Tree, ReachAll, D, Eval, Defined, Limits.IsDerivative, UncomputedClosed;
    var d := Derivative(op, v);
    Limits.DerivativeConverges(Tree(op), v, mem);
    ghost var order;
    if valueFirst {
      value, order := Evaluate(op, true, mem);
      slope, order := Evaluate(d, true, mem);
    } else {
      slope, order := Evaluate(d, true, mem);
      value, order := Evaluate(op, true, mem);
    }
  }
}
