/** The calls that the two threads of QueueSteps make: which event answers which call, what
    the caller gets, and how many steps of its own a call takes. */
module QueueCalls {
  import opened Basics
  import opened CyclicRegion
  import opened QueueSteps

  /** A run together with the actions that it takes. */
  ghost predicate IsTrace(run: seq<State>, acts: seq<Action>) {
    && |run| == |acts| + 1 && Init(run[0])
    && forall k :: 0 <= k < |acts| ==>
         Bounds(run[k]) && Enabled(run[k], acts[k]) && run[k + 1] == Do(run[k], acts[k])
  }

  lemma TraceIsRun(run: seq<State>, acts: seq<Action>)
    requires IsTrace(run, acts)
    ensures IsRun(run)
  {
    forall i | 0 < i < |run| ensures Step(run[i - 1], run[i]) {
      assert Enabled(run[i - 1], acts[i - 1]);
    }
  }

  predicate OfProducer(a: Action) {
    a.CallEnqueue? || a.LoadRead? || a.CopyIn? || a.StoreWrite?
  }

  // ----- The events of one side -----

  predicate IsEnqueue(e: Event) {
    e.Enqueued? || e.EnqueueRejected?
  }

  ghost function Enqueues(history: seq<Event>): seq<Event> {
    if history == [] then [] else
    var last := history[|history| - 1];
    Enqueues(history[..|history| - 1]) + if IsEnqueue(last) then [last] else []
  }

  ghost function Dequeues(history: seq<Event>): seq<Event> {
    if history == [] then [] else
    var last := history[|history| - 1];
    Dequeues(history[..|history| - 1]) + if IsEnqueue(last) then [] else [last]
  }

  lemma EventsGrow(history: seq<Event>, e: Event)
    ensures Enqueues(history + [e]) == Enqueues(history) + if IsEnqueue(e) then [e] else []
    ensures Dequeues(history + [e]) == Dequeues(history) + if IsEnqueue(e) then [] else [e]
  {
    assert (history + [e])[..|history|] == history;
  }

  /** The arguments of the calls, in order. */
  ghost function EnqueueCalls(acts: seq<Action>): seq<seq<byte>> {
    if acts == [] then [] else
    var last := acts[|acts| - 1];
    EnqueueCalls(acts[..|acts| - 1]) + if last.CallEnqueue? then [last.data] else []
  }

  ghost function DequeueCalls(acts: seq<Action>): seq<nat> {
    if acts == [] then [] else
    var last := acts[|acts| - 1];
    DequeueCalls(acts[..|acts| - 1]) + if last.CallDequeue? then [last.size] else []
  }

  // ----- One step -----

  ghost predicate EnqueueAnswer(e: Event, data: seq<byte>) {
    e == Enqueued(data) || e == EnqueueRejected(|data|)
  }

  ghost predicate DequeueAnswer(e: Event, size: nat) {
    e == DequeueRejected(size) || (e.Dequeued? && |e.data| == size)
  }

  /** The data of the enqueue under way. */
  function Pending(p: Producer): seq<byte>
    requires !p.PIdle?
  {
    p.data
  }

  function Wanted(c: Consumer): nat
    requires !c.CIdle?
  {
    if c.CCalled? then c.size else |c.buffer|
  }

  /** A step of the producer starts a call, goes on with it or answers it, with its own
      argument; only a step that ends a call adds an event, and just one. */
  lemma ProducerSteps(s: State, a: Action)
    requires Bounds(s) && Enabled(s, a) && OfProducer(a)
    ensures var s' := Do(s, a);
            && s'.consumer == s.consumer && Dequeues(s'.history) == Dequeues(s.history)
            && (s.producer.PIdle? <==> a.CallEnqueue?)
            && var data := if a.CallEnqueue? then a.data else Pending(s.producer);
               if s'.producer.PIdle?
               then exists e :: EnqueueAnswer(e, data) && Enqueues(s'.history) == Enqueues(s.history) + [e]
               else Pending(s'.producer) == data && s'.history == s.history
  {
    hide FreeSpace, AvailableData, At, Enqueues, Dequeues;
    var s' := Do(s, a);
    if s'.producer.PIdle? {
      var e := s'.history[|s.history|];
      EventsGrow(s.history, e);
      assert s'.history == s.history + [e];
      assert EnqueueAnswer(e, if a.CallEnqueue? then a.data else Pending(s.producer));
    }
  }

  lemma ConsumerSteps(s: State, a: Action)
    requires Bounds(s) && Enabled(s, a) && !OfProducer(a)
    ensures var s' := Do(s, a);
            && s'.producer == s.producer && Enqueues(s'.history) == Enqueues(s.history)
            && (s.consumer.CIdle? <==> a.CallDequeue?)
            && var size := if a.CallDequeue? then a.size else Wanted(s.consumer);
               if s'.consumer.CIdle?
               then exists e :: DequeueAnswer(e, size) && Dequeues(s'.history) == Dequeues(s.history) + [e]
               else Wanted(s'.consumer) == size && s'.history == s.history
  {
    hide FreeSpace, AvailableData, At, Enqueues, Dequeues;
    var s' := Do(s, a);
    if s'.consumer.CIdle? {
      var e := s'.history[|s.history|];
      EventsGrow(s.history, e);
      assert s'.history == s.history + [e];
      assert DequeueAnswer(e, if a.CallDequeue? then a.size else Wanted(s.consumer));
    }
  }

  // ----- Whole runs -----

  /** The events of the producer answer its calls, one each and in order, with the call's
      own argument; a call not answered yet is the last one, and under way. */
  ghost predicate EnqueuesAnswer(s: State, calls: seq<seq<byte>>) {
    var events := Enqueues(s.history);
    && |calls| == |events| + (if s.producer.PIdle? then 0 else 1)
    && (forall k :: 0 <= k < |events| ==>
          events[k] == Enqueued(calls[k]) || events[k] == EnqueueRejected(|calls[k]|))
    && (!s.producer.PIdle? ==> s.producer.data == calls[|events|])
  }

  ghost predicate DequeuesAnswer(s: State, calls: seq<nat>) {
    var events := Dequeues(s.history);
    && |calls| == |events| + (if s.consumer.CIdle? then 0 else 1)
    && (forall k :: 0 <= k < |events| ==>
          events[k] == DequeueRejected(calls[k]) || (events[k].Dequeued? && |events[k].data| == calls[k]))
    && (!s.consumer.CIdle? ==> Wanted(s.consumer) == calls[|events|])
  }

  lemma StepAnswers(s: State, a: Action, enqueues: seq<seq<byte>>, dequeues: seq<nat>)
    requires Bounds(s) && Enabled(s, a) && EnqueuesAnswer(s, enqueues) && DequeuesAnswer(s, dequeues)
    ensures EnqueuesAnswer(Do(s, a), enqueues + if a.CallEnqueue? then [a.data] else [])
    ensures DequeuesAnswer(Do(s, a), dequeues + if a.CallDequeue? then [a.size] else [])
  {
    hide Do, Enabled, Bounds, Enqueues, Dequeues;
    if OfProducer(a) {
      ProducerSteps(s, a);
    } else {
      ConsumerSteps(s, a);
    }
  }

  lemma NoCallsYet(s: State)
    requires Init(s)
    ensures EnqueuesAnswer(s, []) && DequeuesAnswer(s, [])
  {
  }

  lemma {:induction false} CallsAreAnswered(run: seq<State>, acts: seq<Action>)
    requires IsTrace(run, acts)
    ensures EnqueuesAnswer(run[|run| - 1], EnqueueCalls(acts)) && DequeuesAnswer(run[|run| - 1], DequeueCalls(acts))
  {
    hide EnqueuesAnswer, DequeuesAnswer, Do, Enabled, Bounds, Init;
    if acts == [] {
      NoCallsYet(run[0]);
    } else {
      var n := |acts| - 1;
      CallsAreAnswered(run[..n + 1], acts[..n]);
      StepAnswers(run[n], acts[n], EnqueueCalls(acts[..n]), DequeueCalls(acts[..n]));
    }
  }

  /** What a dequeue reports is what the caller's buffer holds. */
  lemma BufferIsReported(run: seq<State>, k: nat)
    requires IsRun(run) && k + 1 < |run|
    requires run[k].consumer.CCopying? && run[k + 1].consumer.CIdle?
    ensures run[k + 1].history == run[k].history + [Dequeued(run[k].consumer.buffer)]
  {
    assert Step(run[k], run[k + 1]);
  }

  /** A call under way stays as it is, or ends with exactly one event for its argument. */
  ghost predicate GoesOn(s: State, s': State) {
    && (!s.producer.PIdle? ==>
          if s'.producer.PIdle?
          then exists e :: EnqueueAnswer(e, s.producer.data) && Enqueues(s'.history) == Enqueues(s.history) + [e]
          else s'.producer.data == s.producer.data && Enqueues(s'.history) == Enqueues(s.history))
    && (!s.consumer.CIdle? ==>
          if s'.consumer.CIdle?
          then exists e :: DequeueAnswer(e, Wanted(s.consumer)) && Dequeues(s'.history) == Dequeues(s.history) + [e]
          else Wanted(s'.consumer) == Wanted(s.consumer) && Dequeues(s'.history) == Dequeues(s.history))
  }

  lemma StepGoesOn(run: seq<State>, j: nat)
    requires IsRun(run) && j + 1 < |run|
    ensures GoesOn(run[j], run[j + 1])
  {
    var s, s' := run[j], run[j + 1];
    assert Step(s, s');
    var a :| Bounds(s) && Enabled(s, a) && s' == Do(s, a);
    hide Do, Enabled, Bounds, Enqueues, Dequeues, IsRun;
    if OfProducer(a) {
      ProducerSteps(s, a);
    } else {
      ConsumerSteps(s, a);
    }
  }

  /** In every run: between a moment at which an enqueue of `data` is under way and the next
      one at which the producer is idle, exactly one event of the producer is added, for
      this data. */
  lemma EnqueueAnswered(run: seq<State>, i: nat, j: nat, data: seq<byte>) returns (e: Event)
    requires IsRun(run) && i < j < |run| && run[i].producer == PCalled(data) && run[j].producer.PIdle?
    requires forall k :: i < k < j ==> !run[k].producer.PIdle?
    ensures e == Enqueued(data) || e == EnqueueRejected(|data|)
    ensures Enqueues(run[j].history) == Enqueues(run[i].history) + [e]
  {
    hide IsRun, Enqueues;
    EnqueueGoesOn(run, i, j - 1, data);
    StepGoesOn(run, j - 1);
    e :| EnqueueAnswer(e, data) && Enqueues(run[j].history) == Enqueues(run[i].history) + [e];
  }

  lemma {:induction false} EnqueueGoesOn(run: seq<State>, i: nat, j: nat, data: seq<byte>)
    requires IsRun(run) && i <= j < |run| && run[i].producer == PCalled(data)
    requires forall k :: i < k <= j ==> !run[k].producer.PIdle?
    ensures !run[j].producer.PIdle? && run[j].producer.data == data
    ensures Enqueues(run[j].history) == Enqueues(run[i].history)
  {
    hide IsRun, Enqueues;
    if i == j {
    } else {
      EnqueueGoesOn(run, i, j - 1, data);
      StepGoesOn(run, j - 1);
    }
  }

  /** The same for a dequeue of `size` bytes. */
  lemma DequeueAnswered(run: seq<State>, i: nat, j: nat, size: nat) returns (e: Event)
    requires IsRun(run) && i < j < |run| && run[i].consumer == CCalled(size) && run[j].consumer.CIdle?
    requires forall k :: i < k < j ==> !run[k].consumer.CIdle?
    ensures e == DequeueRejected(size) || (e.Dequeued? && |e.data| == size)
    ensures Dequeues(run[j].history) == Dequeues(run[i].history) + [e]
  {
    hide IsRun, Dequeues;
    DequeueGoesOn(run, i, j - 1, size);
    StepGoesOn(run, j - 1);
    e :| DequeueAnswer(e, size) && Dequeues(run[j].history) == Dequeues(run[i].history) + [e];
  }

  lemma {:induction false} DequeueGoesOn(run: seq<State>, i: nat, j: nat, size: nat)
    requires IsRun(run) && i <= j < |run| && run[i].consumer == CCalled(size)
    requires forall k :: i < k <= j ==> !run[k].consumer.CIdle?
    ensures !run[j].consumer.CIdle? && Wanted(run[j].consumer) == size
    ensures Dequeues(run[j].history) == Dequeues(run[i].history)
  {
    hide IsRun, Dequeues;
    if i == j {
    } else {
      DequeueGoesOn(run, i, j - 1, size);
      StepGoesOn(run, j - 1);
    }
  }

  // ----- No call waits for the other side -----

  /** How many steps of its own a call still takes, at most. */
  ghost function ProducerLeft(p: Producer): int {
    match p
    case PIdle => 0
    case PCalled(data) => |data| + 2
    case PCopying(data, _, copied) => |data| - |copied| + 1
  }

  ghost function ConsumerLeft(c: Consumer): int {
    match c
    case CIdle => 0
    case CCalled(size) => size + 2
    case CCopying(buffer, _, copied) => |buffer| - |copied| + 1
  }

  lemma {:induction false} AtMost(numbers: set<nat>, n: nat)
    requires forall i :: i in numbers ==> i < n
    ensures |numbers| <= n
  {
    if n == 0 {
      assert numbers == {};
    } else {
      AtMost(numbers - {n - 1}, n - 1);
      assert |numbers| <= |numbers - {n - 1}| + 1;
    }
  }

  /** In every state of every run: a thread inside a call can take a step at once, whatever
      the other one is doing, every step of its own brings the call nearer to its end, and
      no step of the other one takes it away from it. */
  lemma CallsAreWaitFree(run: seq<State>, a: Action)
    requires IsRun(run)
    ensures var s := run[|run| - 1];
            && (!s.producer.PIdle? ==> exists b :: OfProducer(b) && Enabled(s, b))
            && (!s.consumer.CIdle? ==> exists b :: !OfProducer(b) && Enabled(s, b))
            && ProducerLeft(s.producer) >= 0 && ConsumerLeft(s.consumer) >= 0
            && (Bounds(s) && Enabled(s, a) && !a.CallEnqueue? && !a.CallDequeue? ==>
                  var s' := Do(s, a);
                  if OfProducer(a)
                  then ProducerLeft(s'.producer) < ProducerLeft(s.producer) && s'.consumer == s.consumer
                  else ConsumerLeft(s'.consumer) < ConsumerLeft(s.consumer) && s'.producer == s.producer)
  {
    var s := run[|run| - 1];
    Linearizable(run);
    hide FreeSpace, AvailableData, At, Used;
    if !s.producer.PIdle? { var b := ProducerAction(s); }
    if !s.consumer.CIdle? { var b := ConsumerAction(s); }
    if s.producer.PCopying? { AtMost(s.producer.copied, |s.producer.data|); }
    if s.consumer.CCopying? { AtMost(s.consumer.copied, |s.consumer.buffer|); }
  }

  lemma ProducerAction(s: State) returns (b: Action)
    requires !s.producer.PIdle?
    ensures OfProducer(b) && Enabled(s, b)
  {
    if s.producer.PCalled? {
      b := LoadRead;
    } else if i: nat :| i < |s.producer.data| && i !in s.producer.copied {
      b := CopyIn(i);
    } else {
      b := StoreWrite;
    }
  }

  lemma ConsumerAction(s: State) returns (b: Action)
    requires !s.consumer.CIdle?
    ensures !OfProducer(b) && Enabled(s, b)
  {
    if s.consumer.CCalled? {
      b := LoadWrite(seq(s.consumer.size, _ => 0));
    } else if i: nat :| i < |s.consumer.buffer| && i !in s.consumer.copied {
      b := CopyOut(i);
    } else {
      b := StoreRead;
    }
  }
}
