/** `atomic_push` of src/atomic/list/main.c run by any number of threads at once, each
    pushing a node of its own. A step is the load of the head, the write of the node's own
    link, or the compare-and-exchange, which may also fail for no reason. */
module AtomicList {
  import opened Basics

  type Node = nat

  /** `seen` is the number of pushes made before the load: history, not program state. */
  datatype Pc =
    | Loading
    | Linking(current: Option<Node>, seen: nat)
    | Swapping(current: Option<Node>, seen: nat)
    | Finished

  datatype Pusher = Pusher(node: Node, pc: Pc)

  datatype State = State(
    head: Option<Node>,
    next: map<Node, Option<Node>>,
    pushers: seq<Pusher>,
    pushed: seq<Node>,      // history: nodes in the order of their successful exchange
    original: seq<Node>)    // the list before any push

  datatype Action =
    | Load(i: nat)
    | Link(i: nat)
    | SwapOk(i: nat)
    | SwapFail(i: nat)

  ghost predicate Enabled(s: State, a: Action) {
    a.i < |s.pushers| &&
    var pc := s.pushers[a.i].pc;
    match a
    case Load(_) => pc.Loading?
    case Link(_) => pc.Linking?
    case SwapOk(_) => pc.Swapping? && s.head == pc.current
    case SwapFail(_) => pc.Swapping?
  }

  ghost function Do(s: State, a: Action): State
    requires Enabled(s, a)
  {
    var p := s.pushers[a.i];
    match a
    case Load(i) => Goto(s, i, Linking(s.head, |s.pushed|))
    case Link(i) => Goto(s, i, Swapping(p.pc.current, p.pc.seen)).(next := s.next[p.node := p.pc.current])
    case SwapOk(i) => Goto(s, i, Finished).(head := Some(p.node), pushed := s.pushed + [p.node])
    case SwapFail(i) => Goto(s, i, Loading)
  }

  ghost function Goto(s: State, i: nat, pc: Pc): State
    requires i < |s.pushers|
  {
    s.(pushers := s.pushers[i := s.pushers[i].(pc := pc)])
  }

  /** Following the links from `from` visits exactly `nodes` and then ends. */
  ghost predicate IsChain(from: Option<Node>, next: map<Node, Option<Node>>, nodes: seq<Node>)
    decreases |nodes|
  {
    if nodes == [] then from == None else
    from == Some(nodes[0]) && nodes[0] in next && IsChain(next[nodes[0]], next, nodes[1..])
  }

  /** The list to be found once these nodes have been pushed, in this order. */
  ghost function Expected(pushed: seq<Node>, original: seq<Node>): seq<Node> {
    if pushed == [] then original else
    [pushed[|pushed| - 1]] + Expected(pushed[..|pushed| - 1], original)
  }

  ghost predicate Init(s: State) {
    && IsChain(s.head, s.next, s.original) && Distinct(s.original) && s.pushed == []
    && (forall i :: 0 <= i < |s.pushers| ==> s.pushers[i].pc == Loading && s.pushers[i].node !in s.original)
    && (forall i, j :: 0 <= i < j < |s.pushers| ==> s.pushers[i].node != s.pushers[j].node)
  }

  ghost predicate Step(s: State, s': State) {
    exists a :: Enabled(s, a) && s' == Do(s, a)
  }

  ghost predicate IsRun(run: seq<State>) {
    && run != [] && Init(run[0])
    && forall i :: 0 < i < |run| ==> Step(run[i - 1], run[i])
  }

  // ----- The invariant -----

  ghost function HeadOf(nodes: seq<Node>): Option<Node> {
    if nodes == [] then None else Some(nodes[0])
  }

  /** What a thread that loaded the head after `seen` pushes knows. */
  ghost predicate LoadOk(s: State, current: Option<Node>, seen: nat) {
    seen <= |s.pushed| && current == HeadOf(Expected(s.pushed[..seen], s.original))
  }

  ghost predicate PusherOk(s: State, p: Pusher) {
    && (p.pc.Finished? <==> p.node in s.pushed)
    && p.node !in s.original
    && match p.pc
       case Linking(current, seen) => LoadOk(s, current, seen)
       case Swapping(current, seen) => LoadOk(s, current, seen) && p.node in s.next && s.next[p.node] == current
       case _ => true
  }

  ghost predicate Owned(pushers: seq<Pusher>, x: Node) {
    exists i :: 0 <= i < |pushers| && pushers[i].node == x
  }

  lemma StillOwned(pushers: seq<Pusher>, i: nat, pc: Pc, x: Node)
    requires i < |pushers| && (Owned(pushers, x) || x == pushers[i].node)
    ensures Owned(pushers[i := pushers[i].(pc := pc)], x)
  {
    var pushers' := pushers[i := pushers[i].(pc := pc)];
    if x == pushers[i].node {
      assert pushers'[i].node == x;
    } else {
      var j :| 0 <= j < |pushers| && pushers[j].node == x;
      assert pushers'[j].node == x;
    }
  }

  ghost predicate ListOk(s: State) {
    && IsChain(s.head, s.next, Expected(s.pushed, s.original))
    && Distinct(s.original) && Distinct(s.pushed)
    && forall x :: x in s.pushed ==> x !in s.original
  }

  ghost predicate AllOwned(s: State) {
    forall x :: x in s.pushed ==> Owned(s.pushers, x)
  }

  ghost predicate PushersOk(s: State) {
    forall i :: 0 <= i < |s.pushers| ==> PusherOk(s, s.pushers[i])
  }

  ghost predicate NodesDistinct(pushers: seq<Pusher>) {
    forall i, j :: 0 <= i < j < |pushers| ==> pushers[i].node != pushers[j].node
  }

  ghost predicate Inv(s: State) {
    ListOk(s) && AllOwned(s) && PushersOk(s) && NodesDistinct(s.pushers)
  }

  lemma {:induction false} ExpectedElements(pushed: seq<Node>, original: seq<Node>, x: Node)
    ensures x in Expected(pushed, original) <==> x in pushed || x in original
  {
    if pushed == [] {
    } else {
      var n := |pushed| - 1;
      ExpectedElements(pushed[..n], original, x);
      assert pushed == pushed[..n] + [pushed[n]];
    }
  }

  lemma {:induction false} ExpectedDistinct(pushed: seq<Node>, original: seq<Node>)
    requires Distinct(pushed) && Distinct(original) && forall x :: x in pushed ==> x !in original
    ensures Distinct(Expected(pushed, original))
  {
    if pushed == [] {
    } else {
      var n := |pushed| - 1;
      ExpectedDistinct(pushed[..n], original);
      ExpectedElements(pushed[..n], original, pushed[n]);
      var rest := Expected(pushed[..n], original);
      forall i, j | 0 <= i < j < |rest| + 1 ensures ([pushed[n]] + rest)[i] != ([pushed[n]] + rest)[j] {
        assert rest[j - 1] in rest;
      }
    }
  }

  /** Writing the link of a node outside the chain leaves the chain alone. */
  lemma {:induction false} ChainFrame(from: Option<Node>, next: map<Node, Option<Node>>, nodes: seq<Node>,
                                      x: Node, link: Option<Node>)
    requires IsChain(from, next, nodes) && x !in nodes
    ensures IsChain(from, next[x := link], nodes)
    decreases |nodes|
  {
    if nodes == [] {
    } else {
      ChainFrame(next[nodes[0]], next, nodes[1..], x, link);
    }
  }

  lemma ChainHead(from: Option<Node>, next: map<Node, Option<Node>>, nodes: seq<Node>)
    requires IsChain(from, next, nodes)
    ensures from == HeadOf(nodes)
  {
  }

  /** The head is the one that was loaded exactly if nothing was pushed since: nodes are
      never taken out and never pushed twice, so an old head cannot come back. */
  lemma HeadTellsPushes(s: State, current: Option<Node>, seen: nat)
    requires Inv(s) && LoadOk(s, current, seen)
    ensures s.head == current <==> seen == |s.pushed|
  {
    var n := |s.pushed|;
    ChainHead(s.head, s.next, Expected(s.pushed, s.original));
    assert s.pushed[..n] == s.pushed;
    if seen < n {
      var top := s.pushed[n - 1];
      assert s.head == Some(top);
      ExpectedElements(s.pushed[..seen], s.original, top);
      assert top in s.pushed;
      assert top !in s.pushed[..seen];
      var earlier := Expected(s.pushed[..seen], s.original);
      assert earlier != [] ==> earlier[0] in earlier;
    }
  }

  lemma NodesStayDistinct(s: State, a: Action)
    requires Inv(s) && Enabled(s, a)
    ensures NodesDistinct(Do(s, a).pushers)
  {
    hide ListOk, AllOwned, PushersOk;
  }

  lemma StaysOwned(s: State, a: Action)
    requires Inv(s) && Enabled(s, a)
    ensures AllOwned(Do(s, a))
  {
    hide ListOk, PushersOk, NodesDistinct, Owned;
    var s' := Do(s, a);
    forall x | x in s'.pushed ensures Owned(s'.pushers, x) {
      StillOwned(s.pushers, a.i, s'.pushers[a.i].pc, x);
    }
  }

  lemma LinkKeepsList(s: State, i: nat)
    requires Inv(s) && Enabled(s, Link(i))
    ensures ListOk(Do(s, Link(i)))
  {
    hide AllOwned, NodesDistinct;
    var p := s.pushers[i];
    assert PusherOk(s, p);
    ExpectedElements(s.pushed, s.original, p.node);
    ChainFrame(s.head, s.next, Expected(s.pushed, s.original), p.node, p.pc.current);
  }

  lemma SwapKeepsList(s: State, i: nat)
    requires Inv(s) && Enabled(s, SwapOk(i))
    ensures ListOk(Do(s, SwapOk(i)))
  {
    hide AllOwned, NodesDistinct;
    var x := s.pushers[i].node;
    assert PusherOk(s, s.pushers[i]);
    hide IsChain, Expected, Distinct;
    ChainGrows(s.head, s.next, Expected(s.pushed, s.original), x);
    ExpectedGrows(s.pushed, s.original, x);
    DistinctGrows(s.pushed, x);
  }

  lemma ChainGrows(head: Option<Node>, next: map<Node, Option<Node>>, nodes: seq<Node>, x: Node)
    requires IsChain(head, next, nodes) && x in next && next[x] == head
    ensures IsChain(Some(x), next, [x] + nodes)
  {
    assert ([x] + nodes)[1..] == nodes;
  }

  lemma ExpectedGrows(pushed: seq<Node>, original: seq<Node>, x: Node)
    ensures Expected(pushed + [x], original) == [x] + Expected(pushed, original)
  {
    assert (pushed + [x])[..|pushed|] == pushed;
  }

  lemma DistinctGrows(nodes: seq<Node>, x: Node)
    requires Distinct(nodes) && x !in nodes
    ensures Distinct(nodes + [x])
  {
  }

  /** What a thread knew when it loaded the head stays true of that moment. */
  lemma OthersKept(s: State, a: Action, j: nat)
    requires Inv(s) && Enabled(s, a) && j < |s.pushers| && j != a.i
    ensures PusherOk(Do(s, a), s.pushers[j])
  {
    hide ListOk, AllOwned, Expected, HeadOf;
    assert PusherOk(s, s.pushers[j]);
    assert s.pushers[j].node != s.pushers[a.i].node;
    var s', pc := Do(s, a), s.pushers[j].pc;
    if pc.Linking? || pc.Swapping? {
      assert s'.pushed[..pc.seen] == s.pushed[..pc.seen];
    }
  }

  lemma MoverOk(s: State, a: Action)
    requires Inv(s) && Enabled(s, a)
    ensures PusherOk(Do(s, a), Do(s, a).pushers[a.i])
  {
    hide AllOwned, NodesDistinct, Expected;
    assert PusherOk(s, s.pushers[a.i]);
    if a.Load? {
      ChainHead(s.head, s.next, Expected(s.pushed, s.original));
      assert s.pushed[..|s.pushed|] == s.pushed;
    }
  }

  lemma StepKeepsInv(s: State, a: Action)
    requires Inv(s) && Enabled(s, a)
    ensures Inv(Do(s, a))
  {
    NodesStayDistinct(s, a);
    StaysOwned(s, a);
    MoverOk(s, a);
    if a.Link? { LinkKeepsList(s, a.i); }
    if a.SwapOk? { SwapKeepsList(s, a.i); }
    var s' := Do(s, a);
    forall j | 0 <= j < |s'.pushers| ensures PusherOk(s', s'.pushers[j]) {
      if j != a.i { OthersKept(s, a, j); }
    }
    hide PusherOk, AllOwned, NodesDistinct;
  }

  // ----- Whole runs -----

  lemma {:induction false} RunKeepsInv(run: seq<State>)
    requires IsRun(run)
    ensures var s := run[|run| - 1]; Inv(s) && s.original == run[0].original
  {
    if |run| == 1 {
    } else {
      var s, s' := run[|run| - 2], run[|run| - 1];
      assert Step(s, s');
      hide Inv;
      RunKeepsInv(run[..|run| - 1]);
      var a :| Enabled(s, a) && s' == Do(s, a);
      StepKeepsInv(s, a);
    }
  }

  /** In every state of every run the links from the head visit the pushed nodes, latest
      first, and then the original list, each node once. */
  lemma ListIsPushedThenOriginal(run: seq<State>)
    requires IsRun(run)
    ensures var s := run[|run| - 1];
            && IsChain(s.head, s.next, Expected(s.pushed, run[0].original))
            && Distinct(Expected(s.pushed, run[0].original))
  {
    RunKeepsInv(run);
    ExpectedDistinct(run[|run| - 1].pushed, run[0].original);
  }

  /** In every run an exchange can succeed exactly if nothing was pushed since the load, so
      one that finds another head fails because another thread's push went through. */
  lemma SwapSucceedsIffNothingPushed(run: seq<State>, i: nat)
    requires IsRun(run)
    requires var s := run[|run| - 1]; i < |s.pushers| && s.pushers[i].pc.Swapping?
    ensures var s := run[|run| - 1];
            Enabled(s, SwapOk(i)) <==> s.pushers[i].pc.seen == |s.pushed|
  {
    var s := run[|run| - 1];
    RunKeepsInv(run);
    assert PusherOk(s, s.pushers[i]);
    HeadTellsPushes(s, s.pushers[i].pc.current, s.pushers[i].pc.seen);
  }

  /** A node is in the list exactly if its thread has finished or it was there before. */
  lemma InListIffFinished(run: seq<State>, i: nat)
    requires IsRun(run)
    requires i < |run[|run| - 1].pushers|
    ensures var s := run[|run| - 1];
            s.pushers[i].pc.Finished? <==> s.pushers[i].node in Expected(s.pushed, run[0].original)
  {
    var s := run[|run| - 1];
    RunKeepsInv(run);
    assert PusherOk(s, s.pushers[i]);
    ExpectedElements(s.pushed, s.original, s.pushers[i].node);
  }

  // ----- Every push takes effect -----

  /** In every run a thread that leaves its exchange for anything but another try is done,
      and its node is the head. */
  lemma SuccessPutsNodeFirst(run: seq<State>, k: nat, i: nat)
    requires IsRun(run) && k + 1 < |run| && i < |run[k].pushers| == |run[k + 1].pushers|
    requires run[k].pushers[i].pc.Swapping? && !run[k + 1].pushers[i].pc.Swapping?
    requires !run[k + 1].pushers[i].pc.Loading?
    ensures run[k + 1].pushers[i].pc.Finished?
    ensures run[k + 1].head == Some(run[k].pushers[i].node)
    ensures run[k].pushers[i].node in run[k + 1].next && run[k + 1].next[run[k].pushers[i].node] == run[k].head
  {
    var s, s' := run[k], run[k + 1];
    assert Step(s, s');
    var a :| Enabled(s, a) && s' == Do(s, a);
    RunKeepsInv(run[..k + 1]);
    assert run[..k + 1][k] == s;
    assert PusherOk(s, s.pushers[i]);
  }

  /** A thread has to try again although the head is the one that it loaded. */
  ghost predicate Spurious(s: State, s': State) {
    exists i :: 0 <= i < |s.pushers| == |s'.pushers| &&
      s.pushers[i].pc.Swapping? && s.head == s.pushers[i].pc.current && s'.pushers[i].pc.Loading?
  }

  ghost predicate NoSpuriousFailure(run: seq<State>) {
    forall k :: 0 < k < |run| ==> !Spurious(run[k - 1], run[k])
  }

  function Less(x: nat, d: nat): nat {
    if x >= d then x - d else 0
  }

  /** How many steps a thread can still take, when `pushed` pushes are made and `rest` are
      still to come: it fails at most once for every push of another thread. */
  function Weight(pc: Pc, pushed: nat, rest: nat): nat {
    match pc
    case Loading => 3 * rest
    case Linking(_, seen) => if seen == pushed then Less(3 * rest, 1) else 3 * rest + 2
    case Swapping(_, seen) => if seen == pushed then Less(3 * rest, 2) else 3 * rest + 1
    case Finished => 0
  }

  function Rest(s: State): nat {
    Less(|s.pushers|, |s.pushed|)
  }

  ghost function Weights(s: State): (weights: seq<nat>)
    ensures |weights| == |s.pushers|
  {
    seq(|s.pushers|, i requires 0 <= i < |s.pushers| => Weight(s.pushers[i].pc, |s.pushed|, Rest(s)))
  }

  function Done(p: Pusher): nat {
    if p.pc.Finished? then 1 else 0
  }

  /** The finished threads are as many as the pushes made. */
  ghost predicate Counted(s: State) {
    Total(s.pushers, Done) == |s.pushed|
  }

  lemma StepKeepsCount(s: State, a: Action)
    requires Enabled(s, a) && Counted(s)
    ensures Counted(Do(s, a)) && |Do(s, a).pushers| == |s.pushers|
  {
    TotalUpdate(s.pushers, a.i, Do(s, a).pushers[a.i], Done);
  }

  /** While a thread is not done, a push is still to come. */
  lemma PushToCome(s: State, i: nat)
    requires Counted(s) && i < |s.pushers| && !s.pushers[i].pc.Finished?
    ensures |s.pushed| < |s.pushers| && Rest(s) == |s.pushers| - |s.pushed| > 0
  {
    TotalWithZero(s.pushers, Done, i);
  }

  lemma StepLowersWeights(s: State, a: Action)
    requires Inv(s) && Counted(s) && Enabled(s, a)
    requires a.SwapFail? ==> s.head != s.pushers[a.i].pc.current
    ensures Sum(Weights(Do(s, a))) < Sum(Weights(s))
  {
    var s' := Do(s, a);
    PushToCome(s, a.i);
    assert PusherOk(s, s.pushers[a.i]);
    if a.SwapOk? || a.SwapFail? {
      HeadTellsPushes(s, s.pushers[a.i].pc.current, s.pushers[a.i].pc.seen);
    }
    hide ListOk, AllOwned, NodesDistinct, LoadOk;
    forall j | 0 <= j < |s.pushers| && j != a.i ensures Weights(s')[j] <= Weights(s)[j] {
      SeenInPast(s, j);
      assert s'.pushers[j] == s.pushers[j];
    }
    assert Weights(s')[a.i] < Weights(s)[a.i];
    SumDrops(Weights(s'), Weights(s), a.i);
  }

  lemma SeenInPast(s: State, j: nat)
    requires Inv(s) && j < |s.pushers|
    ensures var pc := s.pushers[j].pc; pc.Linking? || pc.Swapping? ==> pc.seen <= |s.pushed|
  {
    assert PusherOk(s, s.pushers[j]);
  }

  lemma StepLowers(s: State, s': State)
    requires Inv(s) && Counted(s) && Step(s, s')
    requires !Spurious(s, s')
    ensures Counted(s') && |s'.pushers| == |s.pushers| && Sum(Weights(s')) < Sum(Weights(s))
  {
    var a :| Enabled(s, a) && s' == Do(s, a);
    StepKeepsCount(s, a);
    assert a.SwapFail? ==> s.head != s.pushers[a.i].pc.current by {
      if a.SwapFail? { assert s'.pushers[a.i].pc.Loading?; }
    }
    hide Inv, Weights;
    StepLowersWeights(s, a);
  }

  lemma StartCounts(s: State)
    requires Init(s)
    ensures Counted(s) && Sum(Weights(s)) == |s.pushers| * (3 * |s.pushers|)
  {
    TotalOfZeros(s.pushers, Done);
    SumOfSame(Weights(s), 3 * |s.pushers|);
  }

  /** Where the exchange fails only when another push came between, every run is bounded:
      with `n` threads it has at most 3 n^2 steps. */
  lemma {:induction false} PushesAreBounded(run: seq<State>)
    requires IsRun(run) && NoSpuriousFailure(run)
    ensures var s, n := run[|run| - 1], |run[0].pushers|;
            && |s.pushers| == n && Counted(s)
            && |run| - 1 + Sum(Weights(s)) <= n * (3 * n)
  {
    hide Inv, Init, Counted, Weights, Step;
    if |run| == 1 {
      StartCounts(run[0]);
    } else {
      var before, s, s' := run[..|run| - 1], run[|run| - 2], run[|run| - 1];
      assert NoSpuriousFailure(before);
      PushesAreBounded(before);
      RunKeepsInv(before);
      assert before[|before| - 1] == s;
      StepLowers(s, s');
    }
  }

  lemma {:induction false} RunKeepsCount(run: seq<State>)
    requires IsRun(run)
    ensures Counted(run[|run| - 1])
  {
    if |run| == 1 {
      StartCounts(run[0]);
    } else {
      var s, s' := run[|run| - 2], run[|run| - 1];
      assert Step(s, s');
      hide Counted;
      RunKeepsCount(run[..|run| - 1]);
      var a :| Enabled(s, a) && s' == Do(s, a);
      StepKeepsCount(s, a);
    }
  }

  lemma {:induction false} ExpectedShape(pushed: seq<Node>, original: seq<Node>)
    ensures var nodes := Expected(pushed, original);
            && |nodes| == |pushed| + |original| && nodes[|pushed|..] == original
            && forall k :: 0 <= k < |pushed| ==> nodes[k] == pushed[|pushed| - 1 - k]
  {
    if pushed == [] {
    } else {
      var n := |pushed| - 1;
      ExpectedShape(pushed[..n], original);
      var rest := Expected(pushed[..n], original);
      assert Expected(pushed, original) == [pushed[n]] + rest;
      hide Expected;
      assert ([pushed[n]] + rest)[n + 1..] == rest[n..];
    }
  }

  lemma GoesOn(s: State, i: nat)
    requires i < |s.pushers| && !s.pushers[i].pc.Finished?
    ensures CanGoOn(s)
  {
    var pc := s.pushers[i].pc;
    var a := if pc.Loading? then Load(i) else if pc.Linking? then Link(i)
             else if s.head == pc.current then SwapOk(i) else SwapFail(i);
    assert Step(s, Do(s, a));
  }

  /** Some step is possible that is not a spurious failure. */
  ghost predicate CanGoOn(s: State) {
    exists s' :: Step(s, s') && !Spurious(s, s')
  }

  /** A run that cannot go on, but for spurious failures, has every thread done, and the
      links from the head visit the nodes of all threads, each once, and then the original
      list. */
  lemma EveryPushTakesEffect(run: seq<State>) returns (nodes: seq<Node>)
    requires IsRun(run) && !CanGoOn(run[|run| - 1])
    ensures var s, n := run[|run| - 1], |run[|run| - 1].pushers|;
            && (forall i :: 0 <= i < n ==> s.pushers[i].pc.Finished?)
            && IsChain(s.head, s.next, nodes) && Distinct(nodes)
            && |nodes| == n + |run[0].original| && nodes[n..] == run[0].original
            && forall i :: 0 <= i < n ==> s.pushers[i].node in nodes[..n]
  {
    var s := run[|run| - 1];
    var n := |s.pushers|;
    forall i | 0 <= i < n ensures s.pushers[i].pc.Finished? {
      if !s.pushers[i].pc.Finished? { GoesOn(s, i); }
    }
    RunKeepsInv(run);
    RunKeepsCount(run);
    ListIsPushedThenOriginal(run);
    nodes := Expected(s.pushed, run[0].original);
    ExpectedShape(s.pushed, run[0].original);
    TotalOfOnes(s.pushers, Done);
    hide ListOk, AllOwned, NodesDistinct, IsChain, Expected, IsRun;
    forall i | 0 <= i < n ensures s.pushers[i].node in nodes[..n] {
      assert PusherOk(s, s.pushers[i]);
      var k :| 0 <= k < n && s.pushed[k] == s.pushers[i].node;
      assert nodes[..n][n - 1 - k] == s.pushed[k];
    }
  }
}
