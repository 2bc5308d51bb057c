/** The parent and the two children of src/signal/ping-pong/main.c: one pipe that all of
    them share, read in FIFO order, and one pending bit a child for SIGUSR1, so that a
    second signal would merge with the first. */
module PingPong {
  import opened Basics

  /** Where a child is; `v` is the number it holds. */
  datatype Pc =
    | ReadPid
    | AwaitSignal
    | ReadNumber
    | Got(v: nat)
    | Printed(v: nat)
    | Signalled(v: nat)
    | Written(v: nat)
    | Exited

  datatype Child = Child(pc: Pc, peer: nat, pending: bool)

  /** What the parent does next. */
  datatype Parent = SendPid | SendOne | Start | Waiting

  datatype Line = Line(child: nat, v: nat)

  datatype State = State(
    n: nat,
    pids: seq<nat>,        // the children's process ids
    pipe: seq<nat>,
    children: seq<Child>,
    parent: Parent,
    printed: seq<Line>,    // history
    taken: nat)            // history: how many numbers have been read

  datatype Action =
    | ParentStep
    | TakePid
    | TakeSignal(i: nat)
    | TakeNumber(i: nat)
    | Print(i: nat)
    | Kill(i: nat)
    | Write(i: nat)
    | Decide(i: nat)

  predicate Shaped(s: State) {
    |s.pids| == |s.children| == 2
  }

  ghost predicate Enabled(s: State, a: Action)
    requires Shaped(s)
  {
    match a
    case ParentStep => !s.parent.Waiting?
    case TakePid => s.children[0].pc.ReadPid? && s.pipe != []
    case TakeSignal(i) => i < 2 && s.children[i].pc.AwaitSignal? && s.children[i].pending
    case TakeNumber(i) => i < 2 && s.children[i].pc.ReadNumber? && s.pipe != []
    case Print(i) => i < 2 && s.children[i].pc.Got?
    case Kill(i) => i < 2 && s.children[i].pc.Printed?
    case Write(i) => i < 2 && s.children[i].pc.Signalled?
    case Decide(i) => i < 2 && s.children[i].pc.Written?
  }

  ghost function Do(s: State, a: Action): State
    requires Shaped(s) && Enabled(s, a)
  {
    match a
    case ParentStep =>
      (match s.parent
       case SendPid => s.(pipe := s.pipe + [s.pids[1]], parent := SendOne)
       case SendOne => s.(pipe := s.pipe + [1], parent := Start)
       case Start => Signal(s.(parent := Waiting), s.pids[0])
       case Waiting => s)
    case TakePid =>
      s.(children := s.children[0 := s.children[0].(pc := AwaitSignal, peer := s.pipe[0])], pipe := s.pipe[1..])
    case TakeSignal(i) =>
      s.(children := s.children[i := s.children[i].(pc := ReadNumber, pending := false)])
    case TakeNumber(i) =>
      Goto(s, i, Got(s.pipe[0])).(pipe := s.pipe[1..], taken := s.taken + 1)
    case Print(i) =>
      var v := s.children[i].pc.v;
      Goto(s, i, Printed(v)).(printed := s.printed + if v <= s.n then [Line(i + 1, v)] else [])
    case Kill(i) => Signal(Goto(s, i, Signalled(s.children[i].pc.v)), s.children[i].peer)
    case Write(i) =>
      Goto(s, i, Written(s.children[i].pc.v)).(pipe := s.pipe + [s.children[i].pc.v + 1])
    case Decide(i) => Goto(s, i, if s.children[i].pc.v >= s.n then Exited else AwaitSignal)
  }

  ghost function Goto(s: State, i: nat, pc: Pc): State
    requires i < |s.children|
  {
    s.(children := s.children[i := s.children[i].(pc := pc)])
  }

  /** `kill(pid, SIGUSR1)`. */
  ghost function Signal(s: State, pid: nat): State
    requires Shaped(s)
  {
    if pid == s.pids[0] then Deliver(s, 0) else if pid == s.pids[1] then Deliver(s, 1) else s
  }

  ghost function Deliver(s: State, i: nat): State
    requires i < |s.children|
  {
    s.(children := s.children[i := s.children[i].(pending := true)])
  }

  /** Both children exist, and the second one was forked with the pid of the first. */
  ghost predicate Init(s: State) {
    && Shaped(s) && s.pids[0] != s.pids[1]
    && s.children[0].pc == ReadPid && !s.children[0].pending
    && s.children[1] == Child(AwaitSignal, s.pids[0], false)
    && s.pipe == [] && s.parent == SendPid && s.printed == [] && s.taken == 0
  }

  ghost predicate Step(s: State, s': State) {
    exists a :: Shaped(s) && Enabled(s, a) && s' == Do(s, a)
  }

  ghost predicate IsRun(run: seq<State>) {
    && run != [] && Init(run[0])
    && forall i :: 0 < i < |run| ==> Step(run[i - 1], run[i])
  }

  // ----- The invariant -----

  /** Which child handles number `k`: the first one the odd numbers. */
  function Handler(k: nat): (i: nat)
    ensures i < 2 && (k > 0 ==> i == 1 - Handler(k - 1))
  {
    if k % 2 == 1 then 0 else 1
  }

  /** The lines `1 1`, `2 2`, `1 3`, ... up to number `m`. */
  function Lines(m: nat): seq<Line> {
    seq(m, j requires 0 <= j < m => Line(Handler(j + 1) + 1, j + 1))
  }

  /** A child that is done with number `m` (or has had none, for m <= 0). */
  ghost predicate Idle(c: Child, m: int, n: nat) {
    if m <= 0 then c.pc.AwaitSignal? else
    c.pc == Written(m) || c.pc == (if m >= n then Exited else AwaitSignal)
  }

  /** A child done with `m` that has been sent the signal for its next number. */
  ghost predicate Called(c: Child, m: int, n: nat) {
    || (Idle(c, m, n) && c.pending)
    || (c.pc.ReadNumber? && !c.pending && (m <= 0 || m < n))
  }

  /** Before the first number is read. */
  ghost predicate StartingUp(s: State)
    requires Shaped(s)
  {
    var c := s.children[0];
    var pid := if c.pc.ReadPid? then [s.pids[1]] else [];
    && !s.children[1].pending && Idle(s.children[1], 0, s.n) && s.printed == []
    && (c.pc.ReadPid? || c.peer == s.pids[1])
    && (!s.parent.Waiting? ==> !c.pending && (c.pc.ReadPid? || c.pc.AwaitSignal?))
    && match s.parent
       case SendPid => s.pipe == [] && c.pc.ReadPid?
       case SendOne => s.pipe == pid
       case Start => s.pipe == pid + [1]
       case Waiting => s.pipe == pid + [1] && ((c.pc.ReadPid? && c.pending) || Called(c, -1, s.n))
  }

  /** From the moment number `k == taken` has been read. */
  ghost predicate Passing(s: State)
    requires Shaped(s) && s.taken > 0
  {
    var k := s.taken;
    var me, other := s.children[Handler(k)], s.children[1 - Handler(k)];
    && s.parent.Waiting? && s.children[0].peer == s.pids[1] && !me.pending
    && k <= Last(s.n)
    && (me.pc == Got(k) || me.pc == Printed(k) ==> s.pipe == [] && !other.pending && Idle(other, k - 1, s.n))
    && (me.pc == Signalled(k) ==> s.pipe == [] && Called(other, k - 1, s.n))
    && (me.pc == Got(k) || me.pc == Printed(k) || me.pc == Signalled(k) ||
        (Idle(me, k, s.n) && s.pipe == [k + 1] && Called(other, k - 1, s.n)))
    && s.printed == Lines(Least(s.n, if me.pc == Got(k) then k - 1 else k))
  }

  /** The last number that is read. */
  function Last(n: nat): nat {
    if n == 0 then 2 else n + 1
  }

  ghost predicate Inv(s: State) {
    && Shaped(s) && s.pids[0] != s.pids[1]
    && s.children[1].peer == s.pids[0]
    && if s.taken == 0 then StartingUp(s) else Passing(s)
  }

  lemma StartKeepsInv(s: State, a: Action)
    requires Inv(s) && Enabled(s, a) && s.taken == 0
    ensures Inv(Do(s, a))
  {
  }

  lemma ReadKeepsInv(s: State, i: nat)
    requires Inv(s) && Enabled(s, TakeNumber(i)) && s.taken > 0
    ensures Inv(Do(s, TakeNumber(i)))
  {
    assert i == Handler(s.taken + 1);
  }

  /** Between reading and writing a number, a child is the one that handles it. */
  lemma ActorIsHandler(s: State, i: nat)
    requires Inv(s) && s.taken > 0 && i < 2
    requires s.children[i].pc.Got? || s.children[i].pc.Printed? || s.children[i].pc.Signalled?
    ensures i == Handler(s.taken) && s.children[i].pc.v == s.taken
  {
    hide Lines, Last;
  }

  lemma PrintKeepsInv(s: State, i: nat)
    requires Inv(s) && Enabled(s, Print(i)) && s.taken > 0
    ensures Inv(Do(s, Print(i)))
  {
    hide Idle, Called, Last;
    var k := s.taken;
    ActorIsHandler(s, i);
    assert Lines(k) == Lines(k - 1) + [Line(i + 1, k)];
  }

  lemma KillKeepsInv(s: State, i: nat)
    requires Inv(s) && Enabled(s, Kill(i)) && s.taken > 0
    ensures Inv(Do(s, Kill(i)))
  {
    hide Lines, Last;
    ActorIsHandler(s, i);
  }

  lemma WriteKeepsInv(s: State, i: nat)
    requires Inv(s) && Enabled(s, Write(i)) && s.taken > 0
    ensures Inv(Do(s, Write(i)))
  {
    hide Lines, Last;
    ActorIsHandler(s, i);
  }

  lemma DecideKeepsInv(s: State, i: nat)
    requires Inv(s) && Enabled(s, Decide(i)) && s.taken > 0
    ensures Inv(Do(s, Decide(i)))
  {
  }

  lemma SignalTakenKeepsInv(s: State, i: nat)
    requires Inv(s) && Enabled(s, TakeSignal(i)) && s.taken > 0
    ensures Inv(Do(s, TakeSignal(i)))
  {
    assert i == 1 - Handler(s.taken);
  }

  lemma StepKeepsInv(s: State, a: Action)
    requires Inv(s) && Enabled(s, a)
    ensures Inv(Do(s, a))
  {
    if s.taken == 0 {
      StartKeepsInv(s, a);
    } else {
      match a
      case TakeNumber(i) => ReadKeepsInv(s, i);
      case Print(i) => PrintKeepsInv(s, i);
      case Kill(i) => KillKeepsInv(s, i);
      case Write(i) => WriteKeepsInv(s, i);
      case Decide(i) => DecideKeepsInv(s, i);
      case TakeSignal(i) => SignalTakenKeepsInv(s, i);
      case _ =>
    }
  }

  // ----- Progress -----

  ghost predicate Ended(s: State)
    requires Shaped(s)
  {
    s.children[0].pc.Exited? && s.children[1].pc.Exited?
  }

  lemma EndedMeansAllPrinted(s: State)
    requires Inv(s) && Ended(s)
    ensures s.taken == Last(s.n) && s.printed == Lines(s.n) && s.parent.Waiting?
  {
  }

  lemma NextAction(s: State) returns (a: Action)
    requires Inv(s) && !Ended(s)
    ensures Enabled(s, a)
  {
    if s.taken == 0 {
      a := StartAction(s);
    } else {
      a := PassAction(s);
    }
  }

  lemma StartAction(s: State) returns (a: Action)
    requires Inv(s) && s.taken == 0
    ensures Enabled(s, a)
  {
    var c := s.children[0];
    if !s.parent.Waiting? {
      a := ParentStep;
    } else if c.pc.ReadPid? {
      a := TakePid;
    } else if c.pc.AwaitSignal? {
      a := TakeSignal(0);
    } else {
      a := TakeNumber(0);
    }
  }

  lemma PassAction(s: State) returns (a: Action)
    requires Inv(s) && s.taken > 0 && !Ended(s)
    ensures Enabled(s, a)
  {
    var i := Handler(s.taken);
    var me, other := s.children[i].pc, s.children[1 - i].pc;
    if me.Got? {
      a := Print(i);
    } else if me.Printed? {
      a := Kill(i);
    } else if me.Signalled? {
      a := Write(i);
    } else if me.Written? {
      a := Decide(i);
    } else if other.Written? {
      a := Decide(1 - i);
    } else if other.ReadNumber? {
      a := TakeNumber(1 - i);
    } else {
      a := TakeSignal(1 - i);
    }
  }

  function Weight(pc: Pc): nat {
    match pc
    case ReadPid => 3
    case AwaitSignal => 2
    case ReadNumber => 1
    case Got(_) => 6
    case Printed(_) => 5
    case Signalled(_) => 4
    case Written(_) => 3
    case Exited => 0
  }

  function ParentWeight(p: Parent): nat {
    match p
    case SendPid => 3
    case SendOne => 2
    case Start => 1
    case Waiting => 0
  }

  /** How many steps are left, at most. */
  ghost function Measure(s: State): int
    requires Shaped(s)
  {
    6 * (Last(s.n) - s.taken) + Weight(s.children[0].pc) + Weight(s.children[1].pc) + ParentWeight(s.parent)
  }

  lemma StepLowersMeasure(s: State, a: Action)
    requires Shaped(s) && Enabled(s, a)
    ensures Shaped(Do(s, a)) && Do(s, a).n == s.n && Measure(Do(s, a)) < Measure(s)
  {
  }

  lemma MeasureNonnegative(s: State)
    requires Inv(s)
    ensures Measure(s) >= 0
  {
  }

  // ----- Whole runs -----

  lemma StepKeepsAll(s: State, s': State)
    requires Inv(s) && Step(s, s')
    ensures Inv(s') && s'.n == s.n && Measure(s') < Measure(s)
  {
    var a :| Shaped(s) && Enabled(s, a) && s' == Do(s, a);
    StepKeepsInv(s, a);
    StepLowersMeasure(s, a);
  }

  lemma {:induction false} RunKeepsInv(run: seq<State>)
    requires IsRun(run)
    ensures var s := run[|run| - 1];
            Inv(s) && s.n == run[0].n && |run| - 1 + Measure(s) <= 6 * Last(s.n) + 8
  {
    if |run| == 1 {
    } else {
      hide Inv, Step, Init, Measure;
      RunKeepsInv(run[..|run| - 1]);
      StepKeepsAll(run[|run| - 2], run[|run| - 1]);
    }
  }

  lemma LinesAre(m: nat)
    ensures |Lines(m)| == m
    ensures forall j :: 0 <= j < m ==> Lines(m)[j].v == j + 1 && Lines(m)[j].child == if j % 2 == 0 then 1 else 2
  {
  }

  lemma LinesGrow(m: nat, n: nat)
    requires m <= n
    ensures Lines(m) <= Lines(n)
  {
  }

  /** In every state of every run: what is printed so far is the beginning of the lines
      1..n in order, odd numbers by child 1 and even ones by child 2. */
  lemma PrintsInOrder(run: seq<State>)
    requires IsRun(run)
    ensures var s := run[|run| - 1];
            && s.printed <= Lines(s.n) && |s.printed| <= s.n
            && forall j :: 0 <= j < |s.printed| ==>
                 s.printed[j].v == j + 1 && s.printed[j].child == if j % 2 == 0 then 1 else 2
  {
    var s := run[|run| - 1];
    RunKeepsInv(run);
    LinesAre(s.n);
    if s.taken > 0 {
      var k := s.taken;
      LinesGrow(Least(s.n, if s.children[Handler(k)].pc == Got(k) then k - 1 else k), s.n);
    }
  }

  /** In every run a signal finds no other one pending: neither the first, which the parent
      sends, nor any that a child sends, and it is then pending. */
  lemma SignalsFindNonePending(run: seq<State>, k: nat, i: nat)
    requires IsRun(run) && k + 1 < |run| && i < 2
    ensures var s, s' := run[k], run[k + 1];
            && Shaped(s) && Shaped(s')
            && (s.parent.Start? && s'.parent.Waiting? ==> !s.children[0].pending && s'.children[0].pending)
            && (s.children[i].pc.Printed? && s'.children[i].pc.Signalled? ==>
                  !s.children[1 - i].pending && s'.children[1 - i].pending)
  {
    assert Step(run[k], run[k + 1]);
    hide Inv, Step, Init;
    RunKeepsInv(run[..k + 1]);
    assert run[..k + 1][k] == run[k];
    StepFindsNonePending(run[k], run[k + 1], i);
  }

  lemma StepFindsNonePending(s: State, s': State, i: nat)
    requires Inv(s) && Step(s, s') && i < 2
    ensures Shaped(s) && Shaped(s')
    ensures s.parent.Start? && s'.parent.Waiting? ==> !s.children[0].pending && s'.children[0].pending
    ensures s.children[i].pc.Printed? && s'.children[i].pc.Signalled? ==>
              !s.children[1 - i].pending && s'.children[1 - i].pending
  {
    hide Inv, Do;
    InvShaped(s);
    var a :| Shaped(s) && Enabled(s, a) && s' == Do(s, a);
    WhoSignals(s, a, i);
    if a.Kill? {
      KillFindsNonePending(s, a.i);
    } else if a.ParentStep? && s.parent.Start? {
      StartFindsNonePending(s);
    }
  }

  lemma InvShaped(s: State)
    requires Inv(s)
    ensures Shaped(s)
  {
  }

  lemma WhoSignals(s: State, a: Action, i: nat)
    requires Shaped(s) && Enabled(s, a) && i < 2
    ensures Shaped(Do(s, a))
    ensures s.parent.Start? && Do(s, a).parent.Waiting? ==> a == ParentStep
    ensures s.children[i].pc.Printed? && Do(s, a).children[i].pc.Signalled? ==> a == Kill(i)
  {
  }

  lemma KillFindsNonePending(s: State, i: nat)
    requires Inv(s) && Enabled(s, Kill(i))
    ensures !s.children[1 - i].pending && Do(s, Kill(i)).children[1 - i].pending
  {
    hide Lines, Called, Idle;
    if s.taken > 0 {
      ActorIsHandler(s, i);
    } else {
      NobodyPrintedYet(s, i);
    }
  }

  lemma NobodyPrintedYet(s: State, i: nat)
    requires Inv(s) && s.taken == 0 && i < 2
    ensures !s.children[i].pc.Printed?
  {
  }

  lemma StartFindsNonePending(s: State)
    requires Inv(s) && Enabled(s, ParentStep) && s.parent.Start?
    ensures !s.children[0].pending && Do(s, ParentStep).children[0].pending
  {
  }

  /** In every state of every run: the message about to be read is the one meant for its
      reader. The first child gets the pid, and number `k` goes to the handler of `k`. */
  lemma MessagesReachTheirReader(run: seq<State>, i: nat)
    requires IsRun(run)
    ensures var s := run[|run| - 1];
            && Shaped(s)
            && (Enabled(s, TakePid) ==> s.pipe[0] == s.pids[1])
            && (Enabled(s, TakeNumber(i)) ==>
                  |s.pipe| == 1 && s.pipe == [s.taken + 1] && i == if s.pipe[0] % 2 == 1 then 0 else 1)
  {
    RunKeepsInv(run);
    var s := run[|run| - 1];
    if s.taken == 0 { assert Handler(1) == 0; }
  }

  /** Every run ends: it has a bounded number of steps, it stops only with both children
      exited, and then all lines are printed after max(n, 1) + 1 numbers were read. */
  lemma EveryRunEnds(run: seq<State>)
    requires IsRun(run)
    ensures var s := run[|run| - 1];
            && Shaped(s)
            && |run| <= 6 * Last(s.n) + 9
            && ((exists a :: Enabled(s, a)) || Ended(s))
            && (Ended(s) ==>
                  s.printed == Lines(s.n) && |s.printed| == s.n && s.taken == if s.n == 0 then 2 else s.n + 1)
  {
    var s := run[|run| - 1];
    RunKeepsInv(run);
    MeasureNonnegative(s);
    if Ended(s) {
      EndedMeansAllPrinted(s);
    } else {
      var a := NextAction(s);
    }
  }
}
