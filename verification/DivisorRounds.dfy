/** The parent and the workers of src/fork/divisors/main.c as a step system over one
    eventfd pair a worker, the shared cursor and the shared slots. A step is one shared
    access: an eventfd read or write, the reset, a fetch-and-add or a slot access. Requests
    are all 64-bit numbers; whether the responses fit the array is a result, not assumed. */
module DivisorRounds {
  import opened Basics
  import opened DivisorPairs
  import opened DivisorLoop

  /** `root` is what `sqrtl(value) + 1` is rounded to. */
  datatype Config = Config(threads: nat, root: nat -> nat)

  /** Candidates start at 2. */
  type Candidate = i: nat | 2 <= i witness 2

  /** Where a worker is. `Claimed` and `ClaimedSecond` hold a slot not yet written. */
  datatype Phase =
    | Waiting
    | Scanning(value: nat, i: Candidate)
    | Claimed(value: nat, i: Candidate, j: nat, slot: nat)
    | Middle(value: nat, i: Candidate, j: nat)
    | ClaimedSecond(value: nat, i: Candidate, j: nat, slot: nat)

  datatype Worker = Worker(input: nat, output: nat, phase: Phase)

  datatype Parent =
    | Idle
    | Resetting(request: nat)
    | Sending(request: nat, k: nat)
    | Collecting(request: nat, k: nat)
    | Reporting(request: nat, lines: seq<nat>)

  /** A fetch-and-add that returned some slot: who made it and what it will store there. */
  datatype Claim = Claim(id: nat, response: nat)

  datatype Report = Report(request: nat, lines: seq<nat>)

  /** `undefined`: a slot past the array was accessed. C gives the run no further meaning,
      and it has no further step here. */
  datatype State = State(
    responseSize: nat,
    responses: seq<nat>,
    workers: seq<Worker>,
    parent: Parent,
    undefined: bool,
    claims: seq<Claim>,      // history of the round: claims[slot]
    reports: seq<Report>)    // history of the run

  datatype Action =
    | Request(x: nat)
    | ResetSize
    | Send
    | Collect
    | PrintLine
    | EndReport
    | ReadRequest(id: nat)
    | SkipCandidate(id: nat)
    | ClaimFirst(id: nat)
    | StoreFirst(id: nat)
    | ClaimOther(id: nat)
    | StoreOther(id: nat)
    | Reply(id: nat)

  /** What a write of `x` adds to an eventfd: the largest 64-bit number is refused. */
  function Delivered(x: nat): nat {
    if x == WORD - 1 then 0 else x
  }

  function Size(c: Config, x: nat): nat
    requires c.threads > 0
  {
    RangeSize(c.root(x), c.threads)
  }

  /** A 64-bit request of which the range bounds are 64-bit numbers too. */
  ghost predicate Computable(c: Config, x: nat)
    requires c.threads > 0
  {
    x < WORD && High(Size(c, x), c.threads - 1) < WORD
  }

  ghost predicate LoopsOn(c: Config, s: State, id: nat)
    requires c.threads > 0 && id < |s.workers|
  {
    var p := s.workers[id].phase;
    p.Scanning? && p.i < High(Size(c, p.value), id) && WrappedSquare(p.i) <= p.value
  }

  ghost predicate DividesHere(s: State, id: nat)
    requires id < |s.workers| && s.workers[id].phase.Scanning?
  {
    s.workers[id].phase.value % s.workers[id].phase.i == 0
  }

  ghost predicate Enabled(c: Config, s: State, a: Action)
    requires c.threads > 0 && |s.workers| == c.threads
  {
    !s.undefined &&
    match a
    case Request(x) => s.parent.Idle? && Computable(c, x)
    case ResetSize => s.parent.Resetting?
    case Send => s.parent.Sending? && s.parent.k < c.threads
    case Collect => s.parent.Collecting? && s.parent.k < c.threads && s.workers[s.parent.k].output > 0
    case PrintLine => s.parent.Reporting? && |s.parent.lines| < s.responseSize
    case EndReport => s.parent.Reporting? && |s.parent.lines| >= s.responseSize
    case ReadRequest(id) => id < c.threads && s.workers[id].phase.Waiting? && s.workers[id].input > 0
    case SkipCandidate(id) => id < c.threads && LoopsOn(c, s, id) && !DividesHere(s, id)
    case ClaimFirst(id) => id < c.threads && LoopsOn(c, s, id) && DividesHere(s, id)
    case StoreFirst(id) => id < c.threads && s.workers[id].phase.Claimed?
    case ClaimOther(id) => id < c.threads && s.workers[id].phase.Middle?
    case StoreOther(id) => id < c.threads && s.workers[id].phase.ClaimedSecond?
    case Reply(id) => id < c.threads && s.workers[id].phase.Scanning? && !LoopsOn(c, s, id)
  }

  ghost function Do(c: Config, s: State, a: Action): State
    requires c.threads > 0 && |s.workers| == c.threads && Enabled(c, s, a)
  {
    match a
    case Request(x) => s.(parent := Resetting(x))
    case ResetSize => s.(responseSize := 0, claims := [], parent := Sending(s.parent.request, 0))
    case Send =>
      var x, k := s.parent.request, s.parent.k;
      s.(workers := s.workers[k := s.workers[k].(input := s.workers[k].input + Delivered(x))],
         parent := if k + 1 == c.threads then Collecting(x, 0) else Sending(x, k + 1))
    case Collect =>
      var x, k := s.parent.request, s.parent.k;
      s.(workers := s.workers[k := s.workers[k].(output := 0)],
         parent := if k + 1 == c.threads then Reporting(x, []) else Collecting(x, k + 1))
    case PrintLine =>
      var n := |s.parent.lines|;
      if n < |s.responses| then s.(parent := s.parent.(lines := s.parent.lines + [s.responses[n]]))
      else s.(undefined := true)
    case EndReport =>
      s.(parent := Idle, reports := s.reports + [Report(s.parent.request, s.parent.lines)])
    case ReadRequest(id) =>
      var w := s.workers[id];
      s.(workers := s.workers[id := Worker(0, w.output, Scanning(w.input, Low(Size(c, w.input), id)))])
    case SkipCandidate(id) =>
      var p := s.workers[id].phase;
      MoveTo(s, id, Scanning(p.value, p.i + 1))
    case ClaimFirst(id) =>
      var p := s.workers[id].phase;
      TakeSlot(MoveTo(s, id, Claimed(p.value, p.i, p.value / p.i, s.responseSize)), id, p.i)
    case StoreFirst(id) =>
      var p := s.workers[id].phase;
      Store(s, MoveTo(s, id, Middle(p.value, p.i, p.j)), p.slot, p.i)
    case ClaimOther(id) =>
      var p := s.workers[id].phase;
      TakeSlot(MoveTo(s, id, ClaimedSecond(p.value, p.i, p.j, s.responseSize)), id, p.j)
    case StoreOther(id) =>
      var p := s.workers[id].phase;
      Store(s, MoveTo(s, id, Scanning(p.value, p.i + 1)), p.slot, p.j)
    case Reply(id) =>
      var w := s.workers[id];
      s.(workers := s.workers[id := w.(output := w.output + w.phase.value, phase := Waiting)])
  }

  ghost function MoveTo(s: State, id: nat, phase: Phase): State
    requires id < |s.workers|
  {
    s.(workers := s.workers[id := s.workers[id].(phase := phase)])
  }

  /** The fetch-and-add itself. */
  ghost function TakeSlot(s: State, id: nat, response: nat): State {
    s.(responseSize := s.responseSize + 1, claims := s.claims + [Claim(id, response)])
  }

  /** The store itself, after which the worker is as in `moved`. */
  ghost function Store(s: State, moved: State, slot: nat, response: nat): State {
    if slot < |moved.responses| then moved.(responses := moved.responses[slot := response])
    else s.(undefined := true)
  }

  /** The shared slots start with whatever `mmap` gives. */
  ghost predicate Init(c: Config, s: State) {
    && c.threads > 0 && |s.responses| == MAX_RESPONSES && !s.undefined
    && s.workers == seq(c.threads, _ => Worker(0, 0, Waiting))
    && s.parent == Idle && s.claims == [] && s.reports == [] && s.responseSize == 0
  }

  ghost predicate Step(c: Config, s: State, s': State) {
    exists a :: c.threads > 0 && |s.workers| == c.threads && Enabled(c, s, a) && s' == Do(c, s, a)
  }

  ghost predicate IsRun(c: Config, run: seq<State>) {
    && run != [] && Init(c, run[0])
    && forall i :: 0 < i < |run| ==> Step(c, run[i - 1], run[i])
  }

  // ----- The responses to a request -----

  /** What worker `id` writes once it has read `x`; a read never returns 0. */
  ghost function MyShare(c: Config, x: nat, id: nat): seq<nat>
    requires c.threads > 0
  {
    if x == 0 then [] else WrittenShare(x, c.root(x), c.threads, id)
  }

  ghost function MyShares(c: Config, x: nat): (parts: seq<seq<nat>>)
    requires c.threads > 0
    ensures |parts| == c.threads
  {
    seq(c.threads, id requires 0 <= id < c.threads => MyShare(c, x, id))
  }

  ghost function AllResponses(c: Config, x: nat): seq<nat>
    requires c.threads > 0
  {
    Concat(MyShares(c, x))
  }

  lemma AllResponsesIs(c: Config, x: nat)
    requires c.threads > 0
    ensures AllResponses(c, x) == if x == 0 then [] else AllWritten(x, c.root(x), c.threads)
  {
    if x == 0 {
      ConcatEmpty(MyShares(c, x));
    } else {
      assert MyShares(c, x) == WrittenShares(x, c.root(x), c.threads, c.threads);
    }
  }

  // ----- The invariant -----

  /** Whether worker `id` has still to be asked, is being served, or has been collected. */
  datatype Stage = Unasked | Asked | Collected

  ghost function StageOf(parent: Parent, id: nat): Stage {
    match parent
    case Sending(_, k) => if id < k then Asked else Unasked
    case Collecting(_, k) => if id < k then Collected else Asked
    case _ => Collected
  }

  ghost predicate InRound(s: State) {
    s.parent.Sending? || s.parent.Collecting? || s.parent.Reporting?
  }

  /** What the workers get to read in this round. */
  ghost function Current(s: State): nat {
    if InRound(s) then Delivered(s.parent.request) else 0
  }

  ghost predicate PhaseOk(claims: seq<Claim>, phase: Phase, id: nat, x: nat) {
    match phase
    case Waiting => true
    case Scanning(v, _) => v == x > 0
    case Claimed(v, i, _, slot) => v == x > 0 && slot < |claims| && claims[slot] == Claim(id, i)
    case Middle(v, _, _) => v == x > 0
    case ClaimedSecond(v, _, j, slot) => v == x > 0 && slot < |claims| && claims[slot] == Claim(id, j)
  }

  ghost predicate WorkerOk(claims: seq<Claim>, w: Worker, stage: Stage, id: nat, x: nat) {
    if stage.Asked? then
      && PhaseOk(claims, w.phase, id, x)
      && if w.phase.Waiting? then w.input + w.output == x && (w.input == 0 || w.output == 0)
         else w.input == w.output == 0
    else w == Worker(0, 0, Waiting)
  }

  /** What a worker still has to claim slots for. */
  ghost function Unclaimed(c: Config, w: Worker, stage: Stage, id: nat, x: nat): seq<nat>
    requires c.threads > 0
  {
    var hi := High(Size(c, x), id);
    if stage.Unasked? then MyShare(c, x, id) else
    match w.phase
    case Waiting => if w.input > 0 then MyShare(c, x, id) else []
    case Scanning(_, i) => Written(x, i, hi)
    case Claimed(_, i, j, _) => [j] + Written(x, i + 1, hi)
    case Middle(_, i, j) => [j] + Written(x, i + 1, hi)
    case ClaimedSecond(_, i, _, _) => Written(x, i + 1, hi)
  }

  ghost function AllUnclaimed(c: Config, s: State): (parts: seq<seq<nat>>)
    requires c.threads > 0 && |s.workers| == c.threads
    ensures |parts| == c.threads
  {
    seq(c.threads, id requires 0 <= id < c.threads =>
      Unclaimed(c, s.workers[id], StageOf(s.parent, id), id, Current(s)))
  }

  ghost function ResponsesOf(claims: seq<Claim>): (s: seq<nat>)
    ensures |s| == |claims|
    ensures forall k :: 0 <= k < |claims| ==> s[k] == claims[k].response
  {
    seq(|claims|, k requires 0 <= k < |claims| => claims[k].response)
  }

  /** Worker `id` has been given this slot and has not yet written it. */
  ghost predicate Holds(workers: seq<Worker>, id: nat, slot: nat) {
    id < |workers| && var p := workers[id].phase; (p.Claimed? || p.ClaimedSecond?) && p.slot == slot
  }

  ghost predicate SlotOk(s: State, slot: nat)
    requires slot < |s.claims|
  {
    || Holds(s.workers, s.claims[slot].id, slot)
    || (slot < |s.responses| && s.responses[slot] == s.claims[slot].response)
  }

  ghost predicate RoundInv(c: Config, s: State)
    requires c.threads > 0 && |s.workers| == c.threads && InRound(s)
  {
    && (!s.parent.Reporting? ==> s.parent.k < c.threads)
    && (s.parent.Collecting? && s.parent.k > 0 ==> Current(s) > 0)
    && |s.claims| == s.responseSize
    && (forall slot: nat :: slot < |s.claims| ==> SlotOk(s, slot))
    && multiset(ResponsesOf(s.claims)) + multiset(Concat(AllUnclaimed(c, s)))
       == multiset(AllResponses(c, Current(s)))
    && (s.parent.Reporting? ==> Current(s) > 0 && s.parent.lines <= ResponsesOf(s.claims))
  }

  ghost predicate WorkersOk(c: Config, s: State)
    requires |s.workers| == c.threads
  {
    forall id: nat :: id < c.threads ==>
      WorkerOk(s.claims, s.workers[id], StageOf(s.parent, id), id, Current(s))
  }

  /** The report lists all responses to its own request and nothing else. */
  ghost predicate Complete(c: Config, r: Report)
    requires c.threads > 0
  {
    && Delivered(r.request) == r.request > 0
    && |r.lines| <= MAX_RESPONSES && multiset(r.lines) == multiset(AllResponses(c, r.request))
  }

  ghost predicate TooMany(c: Config, x: nat)
    requires c.threads > 0
  {
    |AllResponses(c, x)| > MAX_RESPONSES
  }

  ghost predicate Shaped(c: Config, s: State) {
    c.threads > 0 && |s.workers| == c.threads && |s.responses| == MAX_RESPONSES
  }

  ghost predicate Inv(c: Config, s: State) {
    && Shaped(c, s)
    && (forall r :: r in s.reports ==> Complete(c, r))
    && if s.undefined then InRound(s) && TooMany(c, Current(s))
       else WorkersOk(c, s) && (InRound(s) ==> RoundInv(c, s))
  }

  // ----- Accounting -----

  lemma AccountKept(parts: seq<seq<nat>>, part: seq<nat>, id: nat, claimed: seq<nat>, added: seq<nat>,
                    total: multiset<nat>)
    requires id < |parts| && parts[id] == added + part
    requires multiset(claimed) + multiset(Concat(parts)) == total
    ensures multiset(claimed + added) + multiset(Concat(parts[id := part])) == total
  {
    var sum := multiset(claimed + added) + multiset(Concat(parts[id := part]));
    forall d: nat ensures sum[d] == total[d] {
      ConcatUpdate(parts, id, part, d);
      assert multiset(added + part)[d] == multiset(added)[d] + multiset(part)[d];
      assert multiset(claimed + added)[d] == multiset(claimed)[d] + multiset(added)[d];
      assert (multiset(claimed) + multiset(Concat(parts)))[d] == total[d];
    }
  }

  lemma ClaimsBounded(c: Config, s: State)
    requires Inv(c, s) && InRound(s) && !s.undefined
    ensures |s.claims| <= |AllResponses(c, Current(s))|
  {
    var sum := multiset(ResponsesOf(s.claims)) + multiset(Concat(AllUnclaimed(c, s)));
    assert |sum| == |AllResponses(c, Current(s))|;
    assert |multiset(ResponsesOf(s.claims))| == |s.claims|;
  }

  lemma OthersKept(c: Config, s: State, s': State, id: nat)
    requires c.threads > 0 && |s.workers| == c.threads && WorkersOk(c, s) && id < c.threads
    requires s'.parent == s.parent && s.claims <= s'.claims
    requires |s'.workers| == c.threads && s'.workers == s.workers[id := s'.workers[id]]
    requires WorkerOk(s'.claims, s'.workers[id], StageOf(s.parent, id), id, Current(s))
    ensures WorkersOk(c, s')
    ensures var parts' := AllUnclaimed(c, s'); parts' == AllUnclaimed(c, s)[id := parts'[id]]
  {
    hide Unclaimed;
  }

  ghost predicate Going(c: Config, s: State) {
    Inv(c, s) && !s.undefined && InRound(s)
  }

  /** A step of worker `id` that claims slots for the responses `added`. */
  lemma WorkerMoves(c: Config, s: State, s': State, id: nat, added: seq<nat>)
    requires Going(c, s) && id < c.threads
    requires s'.parent == s.parent && s'.reports == s.reports && !s'.undefined && |s'.responses| == |s.responses|
    requires |s'.workers| == c.threads && s'.workers == s.workers[id := s'.workers[id]]
    requires s.claims <= s'.claims && |s'.claims| == s'.responseSize
    requires ResponsesOf(s'.claims) == ResponsesOf(s.claims) + added
    requires forall slot: nat :: slot < |s'.claims| ==> SlotOk(s', slot)
    requires var stage, x := StageOf(s.parent, id), Current(s);
             && WorkerOk(s'.claims, s'.workers[id], stage, id, x)
             && Unclaimed(c, s.workers[id], stage, id, x) == added + Unclaimed(c, s'.workers[id], stage, id, x)
    ensures Going(c, s')
  {
    hide Unclaimed;
    OthersKept(c, s, s', id);
    AccountKept(AllUnclaimed(c, s), AllUnclaimed(c, s')[id], id, ResponsesOf(s.claims), added,
                multiset(AllResponses(c, Current(s))));
  }

  lemma Asking(c: Config, s: State, id: nat)
    requires Inv(c, s) && !s.undefined && id < c.threads
    requires !s.workers[id].phase.Waiting? || s.workers[id].input > 0 || s.workers[id].output > 0
    ensures Going(c, s) && StageOf(s.parent, id).Asked?
    ensures WorkerOk(s.claims, s.workers[id], Asked, id, Current(s)) && Current(s) > 0
  {
    assert WorkerOk(s.claims, s.workers[id], StageOf(s.parent, id), id, Current(s));
  }

  // ----- Every step keeps the invariant -----

  lemma WorkerClaimsNothing(c: Config, s: State, s': State, id: nat)
    requires Going(c, s) && id < c.threads
    requires s' == s.(workers := s'.workers, responses := s'.responses) && |s'.responses| == |s.responses|
    requires |s'.workers| == c.threads && s'.workers == s.workers[id := s'.workers[id]]
    requires forall slot: nat :: slot < |s'.claims| ==> SlotOk(s', slot)
    requires var stage, x := StageOf(s.parent, id), Current(s);
             && WorkerOk(s'.claims, s'.workers[id], stage, id, x)
             && Unclaimed(c, s.workers[id], stage, id, x) == Unclaimed(c, s'.workers[id], stage, id, x)
    ensures Going(c, s')
  {
    var u := Unclaimed(c, s'.workers[id], StageOf(s.parent, id), id, Current(s));
    assert [] + u == u;
    assert ResponsesOf(s.claims) + [] == ResponsesOf(s.claims);
    WorkerMoves(c, s, s', id, []);
  }

  /** A step of worker `id` that touches no slot, cursor or claim. */
  lemma WorkerThinks(c: Config, s: State, id: nat, w': Worker)
    requires Going(c, s) && id < c.threads
    requires !s.workers[id].phase.Claimed? && !s.workers[id].phase.ClaimedSecond?
    requires var stage, x := StageOf(s.parent, id), Current(s);
             && WorkerOk(s.claims, w', stage, id, x)
             && Unclaimed(c, s.workers[id], stage, id, x) == Unclaimed(c, w', stage, id, x)
    ensures Going(c, s.(workers := s.workers[id := w']))
  {
    var s' := s.(workers := s.workers[id := w']);
    forall slot: nat | slot < |s'.claims| ensures SlotOk(s', slot) {
      assert SlotOk(s, slot);
    }
    WorkerClaimsNothing(c, s, s', id);
  }

  /** Reading a request, passing a candidate that does not divide and leaving the loop
      change nothing in what is still to be claimed. */
  lemma LoopLocally(c: Config, id: nat, x: nat, i: Candidate)
    requires c.threads > 0 && x > 0
    ensures var hi := High(Size(c, x), id);
            && Written(x, Low(Size(c, x), id), hi) == MyShare(c, x, id)
            && (i < hi && WrappedSquare(i) <= x ==> Written(x, i, hi) == One(x, i) + Written(x, i + 1, hi))
            && (i >= hi || WrappedSquare(i) > x ==> Written(x, i, hi) == [])
            && (x % i != 0 ==> One(x, i) + Written(x, i + 1, hi) == Written(x, i + 1, hi))
  {
  }

  lemma KeptByLoop(c: Config, s: State, id: nat, a: Action)
    requires a == ReadRequest(id) || a == SkipCandidate(id) || a == Reply(id)
    requires Inv(c, s) && Enabled(c, s, a)
    ensures Going(c, Do(c, s, a))
  {
    hide RangeSize, High, Low, WrappedSquare, Written, MyShare, One;
    Asking(c, s, id);
    var p := s.workers[id].phase;
    LoopLocally(c, id, Current(s), if p.Scanning? then p.i else 2);
    WorkerThinks(c, s, id, Do(c, s, a).workers[id]);
  }

  /** A fetch-and-add by worker `id` on behalf of `response`. */
  lemma WorkerClaims(c: Config, s: State, id: nat, phase: Phase, response: nat)
    requires Going(c, s) && id < c.threads
    requires !s.workers[id].phase.Claimed? && !s.workers[id].phase.ClaimedSecond?
    requires phase.Claimed? || phase.ClaimedSecond?
    requires phase.slot == s.responseSize
    requires var stage, x, w := StageOf(s.parent, id), Current(s), s.workers[id];
             && WorkerOk(s.claims + [Claim(id, response)], w.(phase := phase), stage, id, x)
             && Unclaimed(c, w, stage, id, x) == [response] + Unclaimed(c, w.(phase := phase), stage, id, x)
    ensures Going(c, TakeSlot(MoveTo(s, id, phase), id, response))
  {
    hide Unclaimed;
    var s' := TakeSlot(MoveTo(s, id, phase), id, response);
    forall slot: nat | slot < |s'.claims| ensures SlotOk(s', slot) {
      if slot < |s.claims| {
        assert SlotOk(s, slot);
      } else {
        assert Holds(s'.workers, id, slot);
      }
    }
    WorkerMoves(c, s, s', id, [response]);
  }

  lemma ClaimFirstLocally(c: Config, x: nat, i: Candidate, hi: nat)
    requires x > 0 && i < hi && WrappedSquare(i) <= x && x % i == 0
    ensures Written(x, i, hi) == [i] + ([x / i] + Written(x, i + 1, hi))
  {
    assert [i, x / i] + Written(x, i + 1, hi) == [i] + ([x / i] + Written(x, i + 1, hi));
  }

  lemma KeptByClaimFirst(c: Config, s: State, id: nat)
    requires Inv(c, s) && Enabled(c, s, ClaimFirst(id))
    ensures Going(c, Do(c, s, ClaimFirst(id)))
  {
    hide RangeSize, High, Low, WrappedSquare, Written, MyShare;
    Asking(c, s, id);
    var x, i := Current(s), s.workers[id].phase.i;
    ClaimFirstLocally(c, x, i, High(Size(c, x), id));
    WorkerClaims(c, s, id, Claimed(x, i, x / i, s.responseSize), i);
  }

  lemma KeptByClaimOther(c: Config, s: State, id: nat)
    requires Inv(c, s) && Enabled(c, s, ClaimOther(id))
    ensures Going(c, Do(c, s, ClaimOther(id)))
  {
    hide RangeSize, High, Low, WrappedSquare, Written, MyShare;
    Asking(c, s, id);
    var p := s.workers[id].phase;
    WorkerClaims(c, s, id, ClaimedSecond(p.value, p.i, p.j, s.responseSize), p.j);
  }

  /** A store inside the array fills the slot that was held; one past it means that there
      are too many responses. */
  lemma KeptByStore(c: Config, s: State, id: nat, a: Action)
    requires a == StoreFirst(id) || a == StoreOther(id)
    requires Inv(c, s) && Enabled(c, s, a)
    ensures Inv(c, Do(c, s, a)) && Do(c, s, a).parent == s.parent
  {
    hide RangeSize, High, Low, WrappedSquare, Written, MyShare;
    Asking(c, s, id);
    var s', slot := Do(c, s, a), s.workers[id].phase.slot;
    if slot < |s.responses| {
      StoreFillsSlot(c, s, id, a);
      WorkerClaimsNothing(c, s, s', id);
    } else {
      ClaimsBounded(c, s);
    }
  }

  lemma StoreFillsSlot(c: Config, s: State, id: nat, a: Action)
    requires a == StoreFirst(id) || a == StoreOther(id)
    requires Inv(c, s) && Enabled(c, s, a) && s.workers[id].phase.slot < |s.responses|
    ensures var s' := Do(c, s, a); s'.claims == s.claims && forall slot: nat :: slot < |s'.claims| ==> SlotOk(s', slot)
  {
    hide RangeSize, High, Low, WrappedSquare, Written, MyShare, Unclaimed;
    Asking(c, s, id);
    var s', filled := Do(c, s, a), s.workers[id].phase.slot;
    forall slot: nat | slot < |s'.claims| ensures SlotOk(s', slot) {
      assert SlotOk(s, slot);
      if slot != filled {
        assert !Holds(s.workers, id, slot);
      }
    }
  }

  /** A step of the parent that moves its own turn on and leaves all accounts as they are. */
  lemma AccountsUnmoved(c: Config, s: State, s': State)
    requires Going(c, s) && InRound(s') && s'.parent.request == s.parent.request
    requires |s'.workers| == c.threads && WorkersOk(c, s')
    requires forall id: nat, slot: nat :: Holds(s.workers, id, slot) ==> Holds(s'.workers, id, slot)
    requires s' == s.(workers := s'.workers, parent := s'.parent)
    requires !s'.parent.Reporting? ==> s'.parent.k < c.threads
    requires s'.parent.Collecting? && s'.parent.k > 0 ==> Current(s) > 0
    requires s'.parent.Reporting? ==> Current(s) > 0 && s'.parent.lines <= ResponsesOf(s.claims)
    requires AllUnclaimed(c, s') == AllUnclaimed(c, s)
    ensures Going(c, s')
  {
    hide Unclaimed;
    forall slot: nat | slot < |s'.claims| ensures SlotOk(s', slot) {
      assert SlotOk(s, slot);
    }
  }

  lemma KeptByResetSize(c: Config, s: State)
    requires Inv(c, s) && Enabled(c, s, ResetSize)
    ensures Going(c, Do(c, s, ResetSize))
  {
    hide MyShare;
    var s' := Do(c, s, ResetSize);
    assert AllUnclaimed(c, s') == MyShares(c, Current(s'));
  }

  lemma KeptBySend(c: Config, s: State)
    requires Inv(c, s) && Enabled(c, s, Send)
    ensures Going(c, Do(c, s, Send))
  {
    hide RangeSize, High, Low, WrappedSquare, Written, AllResponses;
    var s', k := Do(c, s, Send), s.parent.k;
    assert WorkerOk(s.claims, s.workers[k], Unasked, k, Current(s));
    assert WorkerOk(s.claims, s'.workers[k], Asked, k, Current(s));
    assert WorkersOk(c, s');
    assert AllUnclaimed(c, s') == AllUnclaimed(c, s);
    AccountsUnmoved(c, s, s');
  }

  lemma KeptByCollect(c: Config, s: State)
    requires Inv(c, s) && Enabled(c, s, Collect)
    ensures Going(c, Do(c, s, Collect))
  {
    hide RangeSize, High, Low, WrappedSquare, Written, MyShare, AllResponses;
    Asking(c, s, s.parent.k);
    AccountsUnmoved(c, s, Do(c, s, Collect));
  }

  /** When the parent reads the array, no worker is in its loop, nothing is left to claim
      and every claimed slot has been written, inside the array. */
  lemma RoundIsComplete(c: Config, s: State)
    requires Inv(c, s) && !s.undefined && s.parent.Reporting?
    ensures forall id: nat :: id < c.threads ==> s.workers[id] == Worker(0, 0, Waiting)
    ensures multiset(ResponsesOf(s.claims)) == multiset(AllResponses(c, Current(s)))
    ensures s.responseSize == |AllResponses(c, Current(s))| <= MAX_RESPONSES
    ensures s.responses[..s.responseSize] == ResponsesOf(s.claims)
  {
    hide RangeSize, High, Low, WrappedSquare, Written, MyShare, AllResponses;
    forall id: nat | id < c.threads ensures s.workers[id] == Worker(0, 0, Waiting) {
      assert WorkerOk(s.claims, s.workers[id], Collected, id, Current(s));
    }
    ConcatEmpty(AllUnclaimed(c, s));
    SameSize(ResponsesOf(s.claims), AllResponses(c, Current(s)));
    forall slot: nat | slot < s.responseSize
      ensures slot < |s.responses| && s.responses[slot] == ResponsesOf(s.claims)[slot]
    {
      assert SlotOk(s, slot);
    }
    if s.responseSize > 0 {
      assert SlotOk(s, s.responseSize - 1);
    }
  }

  lemma SameSize(a: seq<nat>, b: seq<nat>)
    requires multiset(a) == multiset(b)
    ensures |a| == |b|
  {
    assert |multiset(a)| == |a| && |multiset(b)| == |b|;
  }

  lemma KeptByEndReport(c: Config, s: State)
    requires Inv(c, s) && Enabled(c, s, EndReport)
    ensures Inv(c, Do(c, s, EndReport))
    ensures Do(c, s, EndReport).reports == s.reports + [Report(s.parent.request, s.parent.lines)]
  {
    hide RangeSize, High, Low, WrappedSquare, Written, MyShare, AllResponses;
    RoundIsComplete(c, s);
    assert s.parent.lines == ResponsesOf(s.claims);
    assert Complete(c, Report(s.parent.request, s.parent.lines));
  }

  lemma KeptByPrintLine(c: Config, s: State)
    requires Inv(c, s) && Enabled(c, s, PrintLine)
    ensures Going(c, Do(c, s, PrintLine))
  {
    hide RangeSize, High, Low, WrappedSquare, Written, MyShare, AllResponses;
    RoundIsComplete(c, s);
    var s' := Do(c, s, PrintLine);
    assert s.responses[..s.responseSize][|s.parent.lines|] == s.responses[|s.parent.lines|];
    assert WorkersOk(c, s') && AllUnclaimed(c, s') == AllUnclaimed(c, s);
    AccountsUnmoved(c, s, s');
  }

  lemma StepKeepsInv(c: Config, s: State, a: Action)
    requires Inv(c, s) && Enabled(c, s, a)
    ensures Inv(c, Do(c, s, a))
  {
    match a
    case Request(_) =>
    case ResetSize => KeptByResetSize(c, s);
    case Send => KeptBySend(c, s);
    case Collect => KeptByCollect(c, s);
    case PrintLine => KeptByPrintLine(c, s);
    case EndReport => KeptByEndReport(c, s);
    case ReadRequest(id) => KeptByLoop(c, s, id, a);
    case SkipCandidate(id) => KeptByLoop(c, s, id, a);
    case ClaimFirst(id) => KeptByClaimFirst(c, s, id);
    case StoreFirst(id) => KeptByStore(c, s, id, a);
    case ClaimOther(id) => KeptByClaimOther(c, s, id);
    case StoreOther(id) => KeptByStore(c, s, id, a);
    case Reply(id) => KeptByLoop(c, s, id, a);
  }
}
