/** The parent and the children of src/signal/sequence_print/main.c, for any number of
    children and any limit. A signal is one pending bit a process; its handler runs at any
    later moment and sets `received`. `wait_signal` checks the flag and then pauses, in two
    steps. A child increments the shared counter by a load and a store. */
module SequencePrint {
  import opened Basics

  datatype Pc =
    // in wait_signal
    | Check
    | Pausing      // saw the flag unset, has not yet called pause
    | Paused
    | Clear        // saw the flag set, has not yet unset it
    // the parent
    | Raise
    | Test
    | Kill(next: nat)
    | Killing(i: nat)
    | Done
    // a child
    | Load
    | Store(value: nat)
    | Print(value: nat)
    | Notify
    | Dead

  datatype Process = Process(pc: Pc, received: bool, pending: bool)

  datatype Line = Line(child: nat, value: nat)

  /** Whose turn it is. */
  datatype Turn = Parents | Childs(i: nat) | Nobodys

  datatype State = State(
    limit: nat,
    mem: nat,
    index: nat,
    parent: Process,
    children: seq<Process>,
    printed: seq<Line>,   // history: the printf calls made
    turn: Turn)           // history: who was signalled last

  /** An action of one process, or the run of its signal handler. */
  datatype Action =
    | ParentStep
    | ParentHandler
    | ChildStep(i: nat)
    | ChildHandler(i: nat)

  predicate CanStep(p: Process) {
    !p.pc.Paused? && !p.pc.Done? && !p.pc.Dead?
  }

  predicate CanHandle(p: Process) {
    p.pending && !p.pc.Done? && !p.pc.Dead?
  }

  /** `index % CHILDREN_COUNT`. */
  function ChildFor(v: nat, count: nat): (i: nat)
    requires count > 0
    ensures i < count
  {
    v % count
  }

  ghost predicate Enabled(s: State, a: Action)
    requires s.children != []
  {
    match a
    case ParentStep => CanStep(s.parent)
    case ParentHandler => CanHandle(s.parent)
    case ChildStep(i) => i < |s.children| && CanStep(s.children[i])
    case ChildHandler(i) => i < |s.children| && CanHandle(s.children[i])
  }

  /** The handler runs; a pause that it interrupts returns. */
  function Handle(p: Process): Process {
    Process(if p.pc.Paused? then Check else p.pc, true, false)
  }

  /** One step of `wait_signal`, which goes on to `next`. */
  function WaitStep(p: Process, next: Pc): Process {
    match p.pc
    case Check => p.(pc := if p.received then Clear else Pausing)
    case Pausing => p.(pc := Paused)
    case Clear => p.(pc := next, received := false)
    case _ => p
  }

  predicate Waits(pc: Pc) {
    pc.Check? || pc.Pausing? || pc.Paused? || pc.Clear?
  }

  ghost function Do(s: State, a: Action): State
    requires s.children != [] && Enabled(s, a)
  {
    match a
    case ParentHandler => s.(parent := Handle(s.parent))
    case ChildHandler(i) => s.(children := s.children[i := Handle(s.children[i])])
    case ParentStep => DoParent(s)
    case ChildStep(i) => DoChild(s, i)
  }

  ghost function DoParent(s: State): State
    requires s.children != []
  {
    var p := s.parent;
    match p.pc
    case Raise => s.(parent := p.(pc := Check, received := true))
    case Test =>
      var s' := s.(index := s.index + 1);
      if s.mem < s.limit then s'.(parent := p.(pc := Kill(ChildFor(s.index, |s.children|))))
      else s'.(parent := p.(pc := Killing(0)), turn := Nobodys)
    case Kill(next) =>
      if next < |s.children|
      then s.(parent := p.(pc := Check), turn := Childs(next),
              children := s.children[next := s.children[next].(pending := true)])
      else s
    case Killing(i) =>
      if i < |s.children|
      then s.(parent := p.(pc := Killing(i + 1)), children := s.children[i := s.children[i].(pc := Dead)])
      else s.(parent := p.(pc := Done))
    case _ => s.(parent := WaitStep(p, Test))
  }

  ghost function DoChild(s: State, i: nat): State
    requires i < |s.children|
  {
    var p := s.children[i];
    match p.pc
    case Load => SetChild(s, i, p.(pc := Store(s.mem)))
    case Store(v) => SetChild(s, i, p.(pc := Print(v))).(mem := v + 1)
    case Print(v) => SetChild(s, i, p.(pc := Notify)).(printed := s.printed + [Line(i, v)])
    case Notify => SetChild(s, i, p.(pc := Check)).(parent := s.parent.(pending := true), turn := Parents)
    case _ => SetChild(s, i, WaitStep(p, Load))
  }

  ghost function SetChild(s: State, i: nat, p: Process): State
    requires i < |s.children|
  {
    s.(children := s.children[i := p])
  }

  ghost predicate Init(s: State) {
    && s.children != [] && s.mem == 0 && s.index == 0 && s.printed == [] && s.turn == Parents
    && s.parent == Process(Raise, false, false)
    && forall i :: 0 <= i < |s.children| ==> s.children[i] == Process(Check, false, false)
  }

  ghost predicate Step(s: State, s': State) {
    exists a :: s.children != [] && Enabled(s, a) && s' == Do(s, a)
  }

  ghost predicate IsRun(run: seq<State>) {
    && run != [] && Init(run[0])
    && forall i :: 0 < i < |run| ==> Step(run[i - 1], run[i])
  }

  // ----- The invariant -----

  predicate ParentActs(pc: Pc) {
    pc.Raise? || pc.Test? || pc.Kill?
  }

  predicate ChildActs(pc: Pc) {
    pc.Load? || pc.Store? || pc.Print? || pc.Notify?
  }

  /** Not its turn: nothing signalled, waiting for a signal. */
  predicate Resting(p: Process) {
    !p.pending && !p.received && (p.pc.Check? || p.pc.Pausing? || p.pc.Paused?)
  }

  /** Its turn, of which it has not yet taken notice: in the pending bit or in the flag. */
  predicate Signalled(p: Process) {
    Waits(p.pc) && p.pending != p.received && (p.pc.Clear? ==> p.received)
  }

  function Lines(m: nat, count: nat): seq<Line>
    requires count > 0
  {
    seq(m, v requires 0 <= v < m => Line(ChildFor(v, count), v))
  }

  /** The counter, the index and the lines printed, wherever the turn is. */
  ghost predicate Counts(s: State)
    requires s.children != []
  {
    var lines := Lines(s.mem, |s.children|);
    match s.turn
    case Parents =>
      && s.mem <= s.limit && s.printed == lines
      && if s.parent.pc.Kill?
         then s.mem < s.limit && s.index == s.mem + 1 && s.parent.pc.next == ChildFor(s.mem, |s.children|)
         else s.index == s.mem
    case Nobodys => s.mem == s.limit && s.printed == lines
    case Childs(i) =>
      i < |s.children| &&
      (match s.children[i].pc
       case Store(v) =>
         v == s.mem < s.limit && s.index == s.mem + 1 && i == ChildFor(v, |s.children|) && s.printed == lines
       case Print(v) =>
         && v + 1 == s.mem <= s.limit && s.index == s.mem && i == ChildFor(v, |s.children|)
         && s.printed == Lines(v, |s.children|)
       case Notify => s.mem <= s.limit && s.index == s.mem && s.printed == lines
       case _ => s.mem < s.limit && s.index == s.mem + 1 && i == ChildFor(s.mem, |s.children|) && s.printed == lines)
  }

  ghost predicate Turns(s: State) {
    && (match s.turn
        case Parents =>
          Signalled(s.parent) || (ParentActs(s.parent.pc) && !s.parent.pending && !s.parent.received)
        case Nobodys => (s.parent.pc.Killing? || s.parent.pc.Done?) && !s.parent.pending && !s.parent.received
        case Childs(i) => Resting(s.parent))
    && forall i: nat :: i < |s.children| ==>
         var c := s.children[i];
         if s.turn == Childs(i) then Signalled(c) || (ChildActs(c.pc) && !c.pending && !c.received)
         else Resting(c) || (s.turn.Nobodys? && c == Process(Dead, false, false))
  }

  /** The SIGKILLs go through the children in order. */
  ghost predicate Killed(s: State) {
    && (s.parent.pc.Killing? ==> s.parent.pc.i <= |s.children|)
    && forall i: nat :: i < |s.children| ==>
         (s.children[i].pc.Dead? <==> s.parent.pc.Done? || (s.parent.pc.Killing? && i < s.parent.pc.i))
  }

  ghost predicate Inv(s: State) {
    s.children != [] && Counts(s) && Turns(s) && Killed(s)
  }

  lemma LinesGrow(m: nat, count: nat)
    requires count > 0
    ensures Lines(m + 1, count) == Lines(m, count) + [Line(ChildFor(m, count), m)]
  {
  }

  lemma ParentKeepsInv(s: State)
    requires Inv(s) && Enabled(s, ParentStep)
    ensures Inv(DoParent(s))
  {
    hide Lines, ChildFor;
  }

  lemma ChildKeepsCounts(s: State, i: nat)
    requires Inv(s) && Enabled(s, ChildStep(i))
    ensures Counts(DoChild(s, i))
  {
    LinesGrow(if s.mem > 0 then s.mem - 1 else 0, |s.children|);
    hide Lines, ChildFor, Killed;
  }

  lemma ChildKeepsTurns(s: State, i: nat)
    requires Inv(s) && Enabled(s, ChildStep(i))
    ensures Turns(DoChild(s, i)) && Killed(DoChild(s, i))
  {
    hide Lines, ChildFor;
  }

  lemma ChildKeepsInv(s: State, i: nat)
    requires Inv(s) && Enabled(s, ChildStep(i))
    ensures Inv(DoChild(s, i))
  {
    ChildKeepsCounts(s, i);
    ChildKeepsTurns(s, i);
    hide Counts, Turns, Killed;
  }

  lemma HandlerKeepsInv(s: State, a: Action)
    requires Inv(s) && Enabled(s, a) && (a.ParentHandler? || a.ChildHandler?)
    ensures Inv(Do(s, a))
  {
  }

  lemma StepKeepsInv(s: State, a: Action)
    requires Inv(s) && Enabled(s, a)
    ensures Inv(Do(s, a))
  {
    match a
    case ParentStep => ParentKeepsInv(s);
    case ChildStep(i) => ChildKeepsInv(s, i);
    case _ => HandlerKeepsInv(s, a);
  }

  // ----- Safety over whole runs -----

  lemma SizesKept(s: State, a: Action)
    requires s.children != [] && Enabled(s, a)
    ensures Do(s, a).limit == s.limit && |Do(s, a).children| == |s.children|
  {
  }

  lemma StepKeepsAll(s: State, s': State)
    requires Inv(s) && Step(s, s')
    ensures Inv(s') && s'.limit == s.limit && |s'.children| == |s.children|
  {
    var a :| Enabled(s, a) && s' == Do(s, a);
    StepKeepsInv(s, a);
    SizesKept(s, a);
    hide Inv, Do;
  }

  lemma {:induction false} RunKeepsInv(run: seq<State>)
    requires IsRun(run)
    ensures var s := run[|run| - 1];
            Inv(s) && s.limit == run[0].limit && |s.children| == |run[0].children|
  {
    if |run| == 1 {
    } else {
      hide Inv, Step, Init;
      RunKeepsInv(run[..|run| - 1]);
      StepKeepsAll(run[|run| - 2], run[|run| - 1]);
    }
  }

  /** In every state of every run: the printf calls made so far are 0, 1, 2, ... below the
      limit with value `v` made by child `v % count`; the counter is their number, or one
      more while a child is about to make one; it never passes the limit; and when the
      parent has finished all of them were made. */
  lemma PrintsInOrder(run: seq<State>)
    requires IsRun(run)
    ensures var s := run[|run| - 1];
            && s.children != [] && s.mem <= s.limit && s.printed <= Lines(s.limit, |s.children|)
            && (s.parent.pc.Done? ==> s.printed == Lines(s.limit, |s.children|))
            && (forall v :: 0 <= v < |s.printed| ==>
                  s.printed[v].value == v && s.printed[v].child == v % |s.children|)
            && |s.printed| <= s.limit && (s.parent.pc.Done? ==> |s.printed| == s.limit)
            && (if exists i :: 0 <= i < |s.children| && s.children[i].pc.Print?
                then s.mem == |s.printed| + 1 else s.mem == |s.printed|)
  {
    RunKeepsInv(run);
    LinesAre(run[|run| - 1].limit, |run[|run| - 1].children|);
    hide ChildFor;
  }

  lemma LinesAre(m: nat, count: nat)
    requires count > 0
    ensures |Lines(m, count)| == m
    ensures forall v :: 0 <= v < m ==> Lines(m, count)[v].value == v && Lines(m, count)[v].child == v % count
  {
  }

  /** In every state of every run at most one of the parent and the children acts, and a
      child about to store holds the value the counter still has. */
  lemma AtMostOneActs(run: seq<State>, i: nat, j: nat)
    requires IsRun(run)
    requires var s := run[|run| - 1]; i < |s.children| && j < |s.children|
    ensures var s := run[|run| - 1];
            && !(ParentActs(s.parent.pc) && ChildActs(s.children[i].pc))
            && (ChildActs(s.children[i].pc) && ChildActs(s.children[j].pc) ==> i == j)
            && (s.children[i].pc.Store? ==> s.children[i].pc.value == s.mem)
  {
    RunKeepsInv(run);
  }

  // ----- The wake-up that can be missed -----

  /** The process whose turn it is sleeps in `pause` although its flag is set: the signal
      came between the check of the flag and the pause. */
  ghost predicate Missed(s: State) {
    match s.turn
    case Parents => s.parent.pc.Paused? && s.parent.received
    case Childs(i) => i < |s.children| && s.children[i].pc.Paused? && s.children[i].received
    case Nobodys => false
  }

  ghost predicate OfTurn(s: State, a: Action) {
    match s.turn
    case Parents => a.ParentStep? || a.ParentHandler?
    case Childs(i) => a == ChildStep(i) || a == ChildHandler(i)
    case Nobodys => a.ParentStep?
  }

  /** In every reachable state, the process whose turn it is can go on exactly when it has
      not missed its wake-up and the program has not ended. */
  lemma GoesOnUnlessMissed(run: seq<State>)
    requires IsRun(run)
    ensures var s := run[|run| - 1];
            s.children != [] &&
            ((exists a :: OfTurn(s, a) && Enabled(s, a)) <==> !Missed(s) && !s.parent.pc.Done?)
  {
    RunKeepsInv(run);
    var s := run[|run| - 1];
    if !Missed(s) && !s.parent.pc.Done? {
      var a := match s.turn
        case Parents => if s.parent.pending then ParentHandler else ParentStep
        case Childs(i) => if s.children[i].pending then ChildHandler(i) else ChildStep(i)
        case Nobodys => ParentStep;
      assert OfTurn(s, a) && Enabled(s, a);
    }
  }

  lemma MissedStaysMissed(s: State, s': State)
    requires Inv(s) && Missed(s) && Step(s, s')
    ensures Missed(s') && s'.printed == s.printed && s'.mem == s.mem
  {
  }

  /** A missed wake-up is never made up for: whatever run goes on from there, nothing is
      printed or counted any more. */
  lemma {:induction false} MissedForEver(run: seq<State>, k: nat, j: nat)
    requires IsRun(run) && k <= j < |run| && Missed(run[k])
    ensures Missed(run[j]) && run[j].printed == run[k].printed && run[j].mem == run[k].mem
  {
    hide Missed, Step, Init, Inv;
    if j == k {
    } else {
      MissedForEver(run, k, j - 1);
      var past := run[..j];
      assert past[|past| - 1] == run[j - 1];
      RunKeepsInv(past);
      MissedStaysMissed(run[j - 1], run[j]);
    }
  }

  /** The shortest such run: the first child checks its flag, is signalled, and pauses. */
  lemma MissIsReachable(limit: nat, children: seq<Process>) returns (run: seq<State>)
    requires limit > 0 && children != []
    requires forall i :: 0 <= i < |children| ==> children[i] == Process(Check, false, false)
    ensures IsRun(run) && run[0].limit == limit && run[0].children == children
    ensures Missed(run[|run| - 1]) && run[|run| - 1].printed == []
  {
    hide IsRun, Lines;
    run := ParentAboutToSignal(limit, children);
    var before := run[|run| - 1];
    var checked := before.(children := children[0 := Process(Pausing, false, false)]);
    run := Extend(run, ChildStep(0), checked);
    var signalled := State(limit, 0, 1, Process(Check, false, false),
                           children[0 := Process(Pausing, false, true)], [], Childs(0));
    run := Extend(run, ParentStep, signalled);
    var handled := signalled.(children := children[0 := Process(Pausing, true, false)]);
    run := Extend(run, ChildHandler(0), handled);
    run := Extend(run, ChildStep(0), handled.(children := children[0 := Process(Paused, true, false)]));
  }

  lemma ParentAboutToSignal(limit: nat, children: seq<Process>) returns (run: seq<State>)
    requires limit > 0 && children != []
    requires forall i :: 0 <= i < |children| ==> children[i] == Process(Check, false, false)
    ensures run != [] && IsRun(run) && run[0].limit == limit && run[0].children == children
    ensures run[|run| - 1] == State(limit, 0, 1, Process(Kill(0), false, false), children, [], Parents)
  {
    hide IsRun, Lines;
    var s := State(limit, 0, 0, Process(Raise, false, false), children, [], Parents);
    StartRun(s);
    assert ChildFor(0, |children|) == 0;
    run := Extend([s], ParentStep, s.(parent := Process(Check, true, false)));
    run := Extend(run, ParentStep, s.(parent := Process(Clear, true, false)));
    run := Extend(run, ParentStep, s.(parent := Process(Test, false, false)));
    run := Extend(run, ParentStep, s.(index := 1, parent := Process(Kill(0), false, false)));
  }

  lemma StartRun(s: State)
    requires Init(s)
    ensures IsRun([s])
  {
  }

  lemma Extend(run: seq<State>, a: Action, s': State) returns (longer: seq<State>)
    requires run != [] && IsRun(run)
    requires var s := run[|run| - 1]; s.children != [] && Enabled(s, a) && s' == Do(s, a)
    ensures longer == run + [s'] && IsRun(longer)
  {
    longer := run + [s'];
  }

  // ----- Every run ends -----

  function Weight(p: Process, count: nat): nat {
    match p.pc
    case Check => if p.pending then 9 else if p.received then 6 else 2
    case Pausing => if p.pending then 8 else 1
    case Paused => if p.pending then 7 else 0
    case Clear => 5
    case Raise => 7
    case Test => 2
    case Kill(_) => 1
    case Killing(i) => if i <= count then count - i + 1 else 0
    case Load => 4
    case Store(_) => 3
    case Print(_) => 2
    case Notify => 1
    case Done => 0
    case Dead => 0
  }

  function ChildWeight(p: Process): nat {
    Weight(p, 0)
  }

  /** How many turns are left. */
  ghost function TurnsLeft(s: State): int {
    match s.turn
    case Parents => 2 * (s.limit - s.mem) + 1
    case Childs(_) => 2 * (s.limit - s.index) + 2
    case Nobodys => 0
  }

  ghost function LocalWeight(s: State): int {
    Weight(s.parent, |s.children|) + Total(s.children, ChildWeight)
  }

  /** A turn is worth more than all that can be added when it passes on. */
  ghost function Measure(s: State): int {
    MeasureOf(TurnsLeft(s), LocalWeight(s), |s.children|)
  }

  function MeasureOf(turns: int, weight: int, count: nat): int {
    turns * (count + 20) + weight
  }

  lemma MeasureDrops(turns: int, turns': int, weight: int, weight': int, count: nat)
    requires (turns' == turns && weight' < weight) || (turns' == turns - 1 && weight' < weight + count + 20)
    ensures MeasureOf(turns', weight', count) < MeasureOf(turns, weight, count)
  {
    if turns' == turns - 1 {
      assert (turns - 1) * (count + 20) == turns * (count + 20) - (count + 20);
    }
  }

  ghost predicate Drops(s: State, s': State) {
    || (TurnsLeft(s') == TurnsLeft(s) && LocalWeight(s') < LocalWeight(s))
    || (TurnsLeft(s') == TurnsLeft(s) - 1 && LocalWeight(s') < LocalWeight(s) + |s.children| + 20)
  }

  lemma ParentDrops(s: State)
    requires Inv(s) && Enabled(s, ParentStep)
    ensures Drops(s, DoParent(s))
  {
    hide Lines, ChildFor, Total;
    var s' := DoParent(s);
    if s.parent.pc.Kill? {
      TotalUpdate(s.children, s.parent.pc.next, s'.children[s.parent.pc.next], ChildWeight);
    } else if s.parent.pc.Killing? && s.parent.pc.i < |s.children| {
      TotalUpdate(s.children, s.parent.pc.i, s'.children[s.parent.pc.i], ChildWeight);
    }
  }

  lemma ChildDrops(s: State, i: nat)
    requires Inv(s) && Enabled(s, ChildStep(i))
    ensures Drops(s, DoChild(s, i))
  {
    hide Lines, ChildFor, Total;
    TotalUpdate(s.children, i, DoChild(s, i).children[i], ChildWeight);
  }

  lemma HandlerDrops(s: State, a: Action)
    requires Inv(s) && Enabled(s, a) && (a.ParentHandler? || a.ChildHandler?)
    ensures Drops(s, Do(s, a))
  {
    hide Lines, ChildFor, Total;
    if a.ChildHandler? {
      TotalUpdate(s.children, a.i, Do(s, a).children[a.i], ChildWeight);
    }
  }

  lemma WeightDrops(s: State, a: Action)
    requires Inv(s) && Enabled(s, a)
    ensures Drops(s, Do(s, a))
  {
    match a
    case ParentStep => ParentDrops(s);
    case ChildStep(i) => ChildDrops(s, i);
    case _ => HandlerDrops(s, a);
  }

  lemma StepLowersMeasure(s: State, s': State)
    requires Inv(s) && Step(s, s')
    ensures Measure(s') < Measure(s) && |s'.children| == |s.children|
  {
    var a :| Enabled(s, a) && s' == Do(s, a);
    WeightDrops(s, a);
    SizesKept(s, a);
    hide MeasureOf, TurnsLeft, LocalWeight, Inv, Do;
    MeasureDrops(TurnsLeft(s), TurnsLeft(s'), LocalWeight(s), LocalWeight(s'), |s.children|);
  }

  lemma MeasureNonnegative(s: State)
    requires Inv(s)
    ensures Measure(s) >= 0
  {
    assert TurnsLeft(s) >= 0 by { hide Lines, ChildFor; }
    assert TurnsLeft(s) * (|s.children| + 20) >= 0;
  }

  lemma {:induction false} RunIsShort(run: seq<State>)
    requires IsRun(run)
    ensures |run| - 1 + Measure(run[|run| - 1]) <= Measure(run[0])
  {
    if |run| == 1 {
    } else {
      hide Inv, Step, Init, Measure;
      var before := run[..|run| - 1];
      RunIsShort(before);
      RunKeepsInv(before);
      StepLowersMeasure(run[|run| - 2], run[|run| - 1]);
    }
  }

  /** No run goes on for ever, and one that cannot go on has either made all the printf
      calls and killed the children, or missed a wake-up. */
  lemma EveryRunEnds(run: seq<State>)
    requires IsRun(run)
    ensures var s := run[|run| - 1];
            && s.children != []
            && |run| <= Measure(run[0]) + 1
            && ((exists a :: Enabled(s, a)) || Missed(s) ||
                (s.parent.pc.Done? && s.printed == Lines(s.limit, |s.children|) && |s.printed| == s.limit))
  {
    RunIsShort(run);
    RunKeepsInv(run);
    MeasureNonnegative(run[|run| - 1]);
    GoesOnUnlessMissed(run);
    PrintsInOrder(run);
  }
}
