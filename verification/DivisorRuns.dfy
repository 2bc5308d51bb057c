/** Whole runs of src/fork/divisors/main.c: what the reports say, how every request ends,
    and which requests stop the program. */
module DivisorRuns {
  import opened Basics
  import opened DivisorPairs
  import opened DivisorLoop
  import opened DivisorRounds

  lemma {:induction false} RunKeepsInv(c: Config, run: seq<State>)
    requires IsRun(c, run)
    ensures Inv(c, run[|run| - 1])
  {
    hide Inv;
    if |run| == 1 {
      InitInv(c, run[0]);
    } else {
      var s, s' := run[|run| - 2], run[|run| - 1];
      assert Step(c, s, s');
      RunKeepsInv(c, run[..|run| - 1]);
      var a :| Enabled(c, s, a) && s' == Do(c, s, a);
      StepKeepsInv(c, s, a);
    }
  }

  lemma InitInv(c: Config, s: State)
    requires Init(c, s)
    ensures Inv(c, s)
  {
  }

  // ----- Safety -----

  /** In every state of every run: while the parent resets the cursor or reads the array,
      and between rounds, no worker is in its loop; and no two workers hold one slot. */
  lemma NoWorkerActiveWhenParentTouchesSlots(c: Config, run: seq<State>, id: nat, id': nat, slot: nat)
    requires IsRun(c, run) && !run[|run| - 1].undefined
    ensures var s := run[|run| - 1];
            && |s.workers| == c.threads
            && (id < c.threads && (s.parent.Resetting? || s.parent.Reporting? || s.parent.Idle?) ==>
                  s.workers[id] == Worker(0, 0, Waiting))
            && (Holds(s.workers, id, slot) && Holds(s.workers, id', slot) ==> id == id')
            && (Holds(s.workers, id, slot) ==> slot < s.responseSize)
  {
    var s := run[|run| - 1];
    RunKeepsInv(c, run);
    if id < c.threads {
      assert WorkerOk(s.claims, s.workers[id], StageOf(s.parent, id), id, Current(s));
    }
    if Holds(s.workers, id, slot) { Asking(c, s, id); }
    if Holds(s.workers, id', slot) { Asking(c, s, id'); }
  }

  /** In every state of every run: the cursor never passes the number of responses to the
      current request; if these fit the array, every slot that a worker holds is inside it
      and no access was outside; and once the parent reports, they do fit. */
  lemma SlotsHandedOut(c: Config, run: seq<State>, id: nat, slot: nat)
    requires IsRun(c, run) && InRound(run[|run| - 1])
    ensures var s := run[|run| - 1];
            c.threads > 0 &&
            var count := |AllResponses(c, Current(s))|;
            && (s.undefined ==> count > 64)
            && (!s.undefined ==> s.responseSize <= count)
            && (count <= 64 && Holds(s.workers, id, slot) ==> slot < 64)
            && (!s.undefined && s.parent.Reporting? ==> s.responseSize == count <= 64)
  {
    var s := run[|run| - 1];
    RunKeepsInv(c, run);
    if !s.undefined {
      ClaimsBounded(c, s);
      if Holds(s.workers, id, slot) { Asking(c, s, id); }
      if s.parent.Reporting? { RoundIsComplete(c, s); }
    }
  }

  /** Every report of every run lists all responses to its own request and nothing else:
      none lost, overwritten or left from an earlier round. Only requests that eventfds
      carry and whose responses fit the array get a report. Where the ranges reach the root,
      the lines are the divisors exactly if no worker examines a divisor past the root. */
  lemma ReportsAreTheDivisors(c: Config, run: seq<State>, r: Report)
    requires IsRun(c, run) && r in run[|run| - 1].reports
    ensures c.threads > 0 && 0 < r.request && Delivered(r.request) == r.request
    ensures multiset(r.lines) == multiset(AllResponses(c, r.request)) && !TooMany(c, r.request)
    ensures r.request < WORD && c.root(r.request) * c.root(r.request) > r.request ==>
              (ListsDivisors(r.lines, r.request) <==> !Strays(r.request, c.root(r.request), c.threads))
  {
    RunKeepsInv(c, run);
    var x := r.request;
    assert Complete(c, r);
    SameSize(r.lines, AllResponses(c, x));
    AllResponsesIs(c, x);
    if x < WORD && c.root(x) * c.root(x) > x {
      RightIffNoneStrays(x, c.root(x), c.threads);
    }
  }

  // ----- Progress -----

  /** Everything but a new request. */
  ghost predicate Internal(c: Config, s: State, a: Action)
    requires Shaped(c, s)
  {
    Enabled(c, s, a) && !a.Request?
  }

  ghost predicate Quiet(c: Config, s: State)
    requires Shaped(c, s)
  {
    forall a :: !Internal(c, s, a)
  }

  lemma NextAction(c: Config, s: State) returns (a: Action)
    requires Inv(c, s) && !s.undefined && !s.parent.Idle?
    requires s.parent.Collecting? && s.parent.k == 0 ==> Current(s) > 0
    ensures Internal(c, s, a)
  {
    hide RangeSize, High, Low, WrappedSquare, AllResponses, AllUnclaimed, ResponsesOf, SlotOk, Complete;
    match s.parent
    case Resetting(_) => a := ResetSize;
    case Sending(_, _) => a := Send;
    case Reporting(_, lines) => a := if |lines| < s.responseSize then PrintLine else EndReport;
    case Collecting(_, k) => a := CollectAction(c, s);
  }

  lemma CollectAction(c: Config, s: State) returns (a: Action)
    requires Going(c, s) && s.parent.Collecting? && Current(s) > 0
    ensures Internal(c, s, a)
  {
    hide RangeSize, High, Low, WrappedSquare, AllResponses, AllUnclaimed, ResponsesOf, SlotOk, Complete;
    var k := s.parent.k;
    assert WorkerOk(s.claims, s.workers[k], Asked, k, Current(s));
    a := WorkerAction(c, s, k);
  }

  lemma WorkerAction(c: Config, s: State, k: nat) returns (a: Action)
    requires Shaped(c, s) && k < c.threads && !s.undefined
    requires s.parent.Collecting? && s.parent.k == k
    requires s.workers[k].phase.Waiting? ==> s.workers[k].input + s.workers[k].output > 0
    ensures Internal(c, s, a)
  {
    match s.workers[k].phase
    case Waiting => a := if s.workers[k].input > 0 then ReadRequest(k) else Collect;
    case Scanning(_, _) =>
      a := if !LoopsOn(c, s, k) then Reply(k) else if DividesHere(s, k) then ClaimFirst(k) else SkipCandidate(k);
    case Claimed(_, _, _, _) => a := StoreFirst(k);
    case Middle(_, _, _) => a := ClaimOther(k);
    case ClaimedSecond(_, _, _, _) => a := StoreOther(k);
  }

  /** No worker has been given anything to read. */
  ghost predicate AtRest(s: State) {
    s.parent.Idle? || (s.parent.Collecting? && s.parent.k == 0 && Current(s) == 0)
  }

  lemma NothingToDo(c: Config, s: State)
    requires Inv(c, s) && AtRest(s)
    ensures Quiet(c, s)
  {
    if !s.undefined {
      forall id: nat | id < c.threads ensures s.workers[id] == Worker(0, 0, Waiting) {
        assert WorkerOk(s.claims, s.workers[id], StageOf(s.parent, id), id, 0);
      }
    }
    hide Inv;
  }

  /** While a request is under way and no access was outside the array, the program can go
      on, unless the request is one of the two that no eventfd carries, 0 and 2^64 - 1, and
      has been sent to all workers: then it waits for the first reply for ever. */
  lemma StuckIffNotCarried(c: Config, run: seq<State>)
    requires IsRun(c, run)
    requires var s := run[|run| - 1]; !s.undefined && !s.parent.Idle?
    ensures var s := run[|run| - 1]; var x := s.parent.request;
            Shaped(c, s) &&
            (Quiet(c, s) <==> (x == 0 || x == WORD - 1) && s.parent == Collecting(x, 0))
  {
    var s := run[|run| - 1];
    RunKeepsInv(c, run);
    if AtRest(s) {
      NothingToDo(c, s);
    } else {
      var a := NextAction(c, s);
    }
  }

  // ----- Every request ends -----

  function Span(i: nat, hi: nat): nat {
    if i < hi then hi - i else 0
  }

  /** How many steps a worker can still take for its request, its part of sending and
      collecting included. */
  ghost function Weight(c: Config, w: Worker, stage: Stage, id: nat, x: nat): nat
    requires c.threads > 0
  {
    var hi := High(Size(c, x), id);
    var whole := 5 * Span(Low(Size(c, x), id), hi) + 2;
    match stage
    case Unasked => whole + 2
    case Collected => 0
    case Asked =>
      1 + match w.phase
      case Waiting => if w.input > 0 then whole else 0
      case Scanning(_, i) => 5 * Span(i, hi) + 1
      case Claimed(_, i, _, _) => 5 * Span(i + 1, hi) + 5
      case Middle(_, i, _) => 5 * Span(i + 1, hi) + 4
      case ClaimedSecond(_, i, _, _) => 5 * Span(i + 1, hi) + 3
  }

  ghost function Weights(c: Config, s: State): (weights: seq<nat>)
    requires Shaped(c, s)
    ensures |weights| == c.threads
  {
    seq(c.threads, id requires 0 <= id < c.threads =>
      Weight(c, s.workers[id], StageOf(s.parent, id), id, Current(s)))
  }

  ghost function RoundMeasure(c: Config, s: State): int
    requires Shaped(c, s) && InRound(s)
  {
    Sum(Weights(c, s)) + |AllResponses(c, Current(s))| + 1 - if s.parent.Reporting? then |s.parent.lines| else 0
  }

  /** How many steps are left until the parent is idle again, at most. */
  ghost function Measure(c: Config, s: State): int
    requires Shaped(c, s)
  {
    if s.undefined || s.parent.Idle? then 0
    else if s.parent.Resetting? then RoundMeasure(c, s.(parent := Sending(s.parent.request, 0))) + 1
    else RoundMeasure(c, s)
  }

  lemma MeasureNonnegative(c: Config, s: State)
    requires Inv(c, s)
    ensures Measure(c, s) >= 0
    ensures !s.undefined && !s.parent.Idle? ==> Measure(c, s) > 0
  {
    hide Weights;
    if !s.undefined && InRound(s) { ClaimsBounded(c, s); }
  }

  lemma OneWeightDrops(c: Config, s: State, s': State, id: nat)
    requires Shaped(c, s) && Shaped(c, s') && id < c.threads
    requires InRound(s) && InRound(s') && !s'.undefined && s'.parent.request == s.parent.request
    requires !s.undefined && (!s'.parent.Reporting? || s'.parent.lines == []) && !s.parent.Reporting?
    requires forall j: nat :: j < c.threads && j != id ==>
               Weight(c, s'.workers[j], StageOf(s'.parent, j), j, Current(s))
               == Weight(c, s.workers[j], StageOf(s.parent, j), j, Current(s))
    requires Weight(c, s'.workers[id], StageOf(s'.parent, id), id, Current(s))
             < Weight(c, s.workers[id], StageOf(s.parent, id), id, Current(s))
    ensures Measure(c, s') < Measure(c, s)
  {
    hide Weight, AllResponses;
    assert Weights(c, s') == Weights(c, s)[id := Weights(c, s')[id]];
    SumUpdate(Weights(c, s), id, Weights(c, s')[id]);
  }

  lemma WorkerLowers(c: Config, s: State, a: Action, id: nat)
    requires Inv(c, s) && Enabled(c, s, a) && id < c.threads
    requires a in {ReadRequest(id), SkipCandidate(id), ClaimFirst(id), StoreFirst(id), ClaimOther(id), StoreOther(id),
                   Reply(id)}
    requires !Do(c, s, a).undefined
    ensures Shaped(c, Do(c, s, a)) && Measure(c, Do(c, s, a)) < Measure(c, s)
  {
    hide RangeSize, High, Low, Written, MyShare, AllResponses, RoundInv;
    Asking(c, s, id);
    NotReporting(c, s, id);
    OneWeightDrops(c, s, Do(c, s, a), id);
  }

  lemma NotReporting(c: Config, s: State, id: nat)
    requires StageOf(s.parent, id).Asked?
    ensures !s.parent.Reporting?
  {
  }

  lemma ParentLowers(c: Config, s: State, a: Action)
    requires Inv(c, s) && Enabled(c, s, a) && (a.Send? || a.Collect?)
    ensures Shaped(c, Do(c, s, a)) && Measure(c, Do(c, s, a)) < Measure(c, s)
  {
    hide RangeSize, High, Low, Written, MyShare, AllResponses;
    assert WorkerOk(s.claims, s.workers[s.parent.k], StageOf(s.parent, s.parent.k), s.parent.k, Current(s));
    OneWeightDrops(c, s, Do(c, s, a), s.parent.k);
  }

  lemma ReportLowers(c: Config, s: State, a: Action)
    requires Inv(c, s) && Enabled(c, s, a) && (a.ResetSize? || a.PrintLine? || a.EndReport?)
    requires !Do(c, s, a).undefined
    ensures Shaped(c, Do(c, s, a)) && Measure(c, Do(c, s, a)) < Measure(c, s)
  {
    hide RangeSize, High, Low, Written, MyShare, AllResponses, Weight;
    var s' := Do(c, s, a);
    if a.ResetSize? {
      assert Weights(c, s') == Weights(c, s.(parent := Sending(s.parent.request, 0)));
    } else if a.PrintLine? {
      assert Weights(c, s') == Weights(c, s);
    } else {
      MeasureNonnegative(c, s);
    }
  }

  lemma StepLowersMeasure(c: Config, s: State, a: Action)
    requires Inv(c, s) && Internal(c, s, a)
    ensures Inv(c, Do(c, s, a)) && Measure(c, Do(c, s, a)) < Measure(c, s)
  {
    StepKeepsInv(c, s, a);
    if Do(c, s, a).undefined {
      if s.parent.Idle? { NothingToDo(c, s); }
      MeasureNonnegative(c, s);
    } else if a.ResetSize? || a.PrintLine? || a.EndReport? {
      ReportLowers(c, s, a);
    } else if a.Send? || a.Collect? {
      ParentLowers(c, s, a);
    } else {
      WorkerLowers(c, s, a, a.id);
    }
  }

  ghost predicate InternalStep(c: Config, s: State, s': State) {
    exists a :: Shaped(c, s) && Internal(c, s, a) && s' == Do(c, s, a)
  }

  ghost predicate InternalRun(c: Config, run: seq<State>) {
    run != [] && forall i :: 0 < i < |run| ==> InternalStep(c, run[i - 1], run[i])
  }

  /** Request `x` is being worked on, after `before` was reported, or its report is out. */
  ghost predicate Serving(s: State, x: nat, before: seq<Report>) {
    if s.parent.Idle? then
      s.reports != [] && s.reports[..|s.reports| - 1] == before && s.reports[|s.reports| - 1].request == x
    else s.parent.request == x && s.reports == before
  }

  lemma InternalStepKeeps(c: Config, s: State, s': State, x: nat, before: seq<Report>)
    requires Inv(c, s) && InternalStep(c, s, s') && Serving(s, x, before)
    ensures Inv(c, s') && Measure(c, s') < Measure(c, s) && Serving(s', x, before)
  {
    var a :| Internal(c, s, a) && s' == Do(c, s, a);
    StepLowersMeasure(c, s, a);
    if s.parent.Idle? { NothingToDo(c, s); }
    hide Inv, Measure;
    ServingGoesOn(c, s, a, x, before);
  }

  lemma ServingGoesOn(c: Config, s: State, a: Action, x: nat, before: seq<Report>)
    requires Shaped(c, s) && Internal(c, s, a) && Serving(s, x, before) && !s.parent.Idle?
    ensures Serving(Do(c, s, a), x, before)
  {
    hide RangeSize, High, Low, WrappedSquare, LoopsOn, DividesHere;
    var s' := Do(c, s, a);
    if a.EndReport? {
      assert s'.reports[..|s'.reports| - 1] == s.reports;
    } else {
      assert s'.reports == s.reports && !s'.parent.Idle? && s'.parent.request == s.parent.request;
    }
  }

  lemma {:induction false} InternalRunKeeps(c: Config, run: seq<State>, x: nat, before: seq<Report>)
    requires InternalRun(c, run) && Inv(c, run[0]) && Serving(run[0], x, before)
    ensures var s := run[|run| - 1];
            Inv(c, s) && Serving(s, x, before) && |run| - 1 + Measure(c, s) <= Measure(c, run[0])
  {
    var n := |run| - 1;
    if n == 0 {
    } else {
      hide InternalStep, Inv, Measure, Serving;
      InternalRunKeeps(c, run[..n], x, before);
      InternalStepKeeps(c, run[n - 1], run[n], x, before);
    }
  }

  /** How every request ends, from any state that a run reaches between two requests and
      for any interleaving: after a bounded number of steps the program stops, and
      - if no eventfd carries the request, it waits for the first reply for ever;
      - if the responses fit the array, they have been reported;
      - otherwise a slot past the array was accessed. */
  lemma EveryRequestEnds(c: Config, past: seq<State>, x: nat, future: seq<State>)
    requires IsRun(c, past)
    requires var s0 := past[|past| - 1]; Shaped(c, s0) && Enabled(c, s0, Request(x))
    requires InternalRun(c, future) && future[0] == Do(c, past[|past| - 1], Request(x))
    ensures var s0, s := past[|past| - 1], future[|future| - 1];
            && Shaped(c, s) && Shaped(c, future[0])
            && |future| - 1 <= Measure(c, future[0])
            && (Quiet(c, s) ==>
                  if x == 0 || x == WORD - 1 then s.parent == Collecting(x, 0) && s.reports == s0.reports
                  else if |AllResponses(c, x)| > 64 then s.undefined && s.reports == s0.reports
                  else
                    && !s.undefined && s.parent.Idle? && s.reports != []
                    && s.reports[..|s.reports| - 1] == s0.reports
                    && var r := s.reports[|s.reports| - 1];
                       r.request == x && multiset(r.lines) == multiset(AllResponses(c, x)))
  {
    var s0, s := past[|past| - 1], future[|future| - 1];
    RunKeepsInv(c, past);
    StepKeepsInv(c, s0, Request(x));
    InternalRunKeeps(c, future, x, s0.reports);
    MeasureNonnegative(c, s);
    if Quiet(c, s) {
      QuietMeans(c, s, x, s0.reports);
    }
  }

  lemma QuietMeans(c: Config, s: State, x: nat, before: seq<Report>)
    requires Inv(c, s) && Quiet(c, s) && Serving(s, x, before)
    ensures if Delivered(x) == 0 then s.parent == Collecting(x, 0) && s.reports == before
            else if |AllResponses(c, x)| > MAX_RESPONSES then s.undefined && s.reports == before
            else !s.undefined && s.parent.Idle? && Complete(c, s.reports[|s.reports| - 1])
  {
    hide RangeSize, High, Low, Written, MyShare, AllResponses;
    if s.undefined {
      if Delivered(x) == 0 { AllResponsesIs(c, 0); }
    } else if s.parent.Idle? {
      var r := s.reports[|s.reports| - 1];
      assert Complete(c, r);
      SameSize(r.lines, AllResponses(c, r.request));
    } else if !AtRest(s) {
      var a := NextAction(c, s);
    }
  }

  // ----- The requests that stop the program -----

  lemma Extend(c: Config, run: seq<State>, a: Action) returns (longer: seq<State>)
    requires run != [] && IsRun(c, run)
    requires var s := run[|run| - 1]; Shaped(c, s) && Enabled(c, s, a)
    ensures longer == run + [Do(c, run[|run| - 1], a)] && IsRun(c, longer)
  {
    longer := run + [Do(c, run[|run| - 1], a)];
  }

  /** From any start, either of the two requests leads to a state with no next step. */
  lemma StuckRun(c: Config, s: State, x: nat) returns (run: seq<State>)
    requires Init(c, s) && Computable(c, x) && (x == 0 || x == WORD - 1)
    ensures IsRun(c, run) && run[0] == s
    ensures var last := run[|run| - 1];
            !last.undefined && last.parent == Collecting(x, 0) && Shaped(c, last) && Quiet(c, last)
  {
    hide IsRun, Computable;
    StartRun(c, s);
    run := Extend(c, [s], Request(x));
    run := Extend(c, run, ResetSize);
    while run[|run| - 1].parent.Sending?
      invariant run != [] && IsRun(c, run) && run[0] == s
      invariant var last := run[|run| - 1];
                Shaped(c, last) && !last.undefined
                && (last.parent == Collecting(x, 0)
                    || (last.parent.Sending? && last.parent.request == x && last.parent.k < c.threads))
      decreases var p := run[|run| - 1].parent; if p.Sending? then c.threads - p.k else 0
    {
      run := Extend(c, run, Send);
    }
    StuckIffNotCarried(c, run);
  }

  lemma StartRun(c: Config, s: State)
    requires Init(c, s)
    ensures IsRun(c, [s])
  {
  }

  // ----- The program with its 8 workers -----

  /** `root` is the integer root plus 1, or plus 2 where the rounding of an 80-bit `sqrtl`
      makes it so. */
  ghost predicate AsComputed(x: nat, root: nat) {
    exists q: nat :: q * q <= x < (q + 1) * (q + 1)
      && (root == q + 1 || (root == q + 2 && (root <= HALF || x == WORD - 2)))
  }

  /** Every 64-bit request can be made: its ranges are computed without wrapping. */
  lemma EveryRequestIsComputable(c: Config, x: nat)
    requires c.threads == 8 && x < WORD
    requires exists q: nat :: q * q <= x < (q + 1) * (q + 1) && c.root(x) in {q + 1, q + 2}
    ensures Computable(c, x)
  {
    var q: nat :| q * q <= x < (q + 1) * (q + 1) && c.root(x) in {q + 1, q + 2};
    if q >= HALF { Square(HALF, q); }
  }

  /** With 8 workers, every report lists the divisors of its request, each as often as it
      should be, and a request has one response for each, and one more if it is a square. */
  lemma EightWorkersAreRight(c: Config, run: seq<State>, r: Report)
    requires IsRun(c, run) && r in run[|run| - 1].reports
    requires c.threads == 8 && r.request < WORD && AsComputed(r.request, c.root(r.request))
    ensures forall d: nat :: multiset(r.lines)[d] ==
              if 1 < d < r.request && r.request % d == 0 then (if d * d == r.request then 2 else 1) else 0
    ensures |r.lines| == |set d: nat | 1 < d < r.request && r.request % d == 0|
                         + (if IsSquare(r.request) then 1 else 0) <= 64
  {
    var x := r.request;
    ReportsAreTheDivisors(c, run, r);
    var q: nat :| q * q <= x < (q + 1) * (q + 1)
      && (c.root(x) == q + 1 || (c.root(x) == q + 2 && (c.root(x) <= HALF || x == WORD - 2)));
    hide IsRun, Strays;
    RightForEveryRequest(x, q, c.root(x));
    RightIffNoneStrays(x, c.root(x), 8);
    ResponsesCount(r.lines, x);
    SameSize(r.lines, AllResponses(c, x));
  }

  /** The number of responses that decides whether a request is reported, told from the
      request alone. */
  lemma HowManyResponses(c: Config, x: nat)
    requires c.threads == 8 && 0 < x < WORD - 1 && AsComputed(x, c.root(x))
    ensures |AllResponses(c, x)| == |set d: nat | 1 < d < x && x % d == 0| + if IsSquare(x) then 1 else 0
  {
    var q: nat :| q * q <= x < (q + 1) * (q + 1)
      && (c.root(x) == q + 1 || (c.root(x) == q + 2 && (c.root(x) <= HALF || x == WORD - 2)));
    RightForEveryRequest(x, q, c.root(x));
    AllResponsesIs(c, x);
    ResponsesCount(AllResponses(c, x), x);
  }

  /** One that is not: the program stores 70 responses to 10080 in an array of 64. */
  lemma TenThousandEightyIsTooMuch()
    ensures var c := Config(8, _ => 101);
            Computable(c, 10080) && |AllResponses(c, 10080)| == 70 > 64 && TooMany(c, 10080)
  {
    var c := Config(8, _ => 101);
    AllResponsesIs(c, 10080);
    TooManyFor10080();
  }
}
