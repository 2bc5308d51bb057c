/** The `Semaphore` of src/cppthread/thread/main.cpp under any number of threads, each of
    which calls `acquire` and `release` as often as it likes. A step is one action on the
    mutex, the counter or the condition variable; any thread may take the free mutex, and
    any sleeper may wake for no reason. */
module Semaphore {
  import opened Basics

  /** Where a thread is. It holds the mutex in the phases of `HoldsLock`. */
  datatype Phase =
    | Outside
    | WantsAcquire   // before the lock of acquire
    | Checking       // at the loop guard, counter_ == 0
    | Sleeping       // in cond_.wait, mutex given up
    | Woken          // leaving cond_.wait, before it has the mutex back
    | Taken          // after counter_--
    | WantsRelease   // before the lock of release
    | Releasing      // before counter_++
    | Raised         // after counter_++, before notify_one
    | Notified       // after notify_one

  predicate HoldsLock(p: Phase) {
    p.Checking? || p.Taken? || p.Releasing? || p.Raised? || p.Notified?
  }

  datatype State = State(
    counter: nat,
    holder: Option<nat>,
    threads: seq<Phase>,
    initial: nat)

  datatype Action =
    | CallAcquire(t: nat)
    | CallRelease(t: nat)
    | SpuriousWake(t: nat)
    | Lock(t: nat)
    | Wait(t: nat)
    | Decrement(t: nat)
    | Increment(t: nat)
    | NotifyOne(t: nat, woken: Option<nat>)
    | Unlock(t: nat)

  ghost predicate Enabled(s: State, a: Action) {
    a.t < |s.threads| &&
    var p := s.threads[a.t];
    match a
    case CallAcquire(_) => p.Outside?
    case CallRelease(_) => p.Outside?
    case SpuriousWake(_) => p.Sleeping?
    case Lock(_) => (p.WantsAcquire? || p.Woken? || p.WantsRelease?) && s.holder.None?
    case Wait(_) => p.Checking? && s.counter == 0
    case Decrement(_) => p.Checking? && s.counter != 0
    case Increment(_) => p.Releasing?
    case NotifyOne(_, woken) =>
      p.Raised? &&
      (match woken
       case Some(w) => w < |s.threads| && s.threads[w].Sleeping?
       case None => Sleeping !in s.threads)
    case Unlock(_) => p.Taken? || p.Notified?
  }

  ghost function Do(s: State, a: Action): State
    requires Enabled(s, a)
  {
    var p := s.threads[a.t];
    match a
    case CallAcquire(t) => Move(s, t, WantsAcquire)
    case CallRelease(t) => Move(s, t, WantsRelease)
    case SpuriousWake(t) => Move(s, t, Woken)
    case Lock(t) => Move(s, t, if p.WantsRelease? then Releasing else Checking).(holder := Some(t))
    case Wait(t) => Move(s, t, Sleeping).(holder := None)
    case Decrement(t) => Move(s, t, Taken).(counter := s.counter - 1)
    case Increment(t) => Move(s, t, Raised).(counter := s.counter + 1)
    case NotifyOne(t, woken) =>
      var s' := Move(s, t, Notified);
      if woken.Some? then Move(s', woken.value, Woken) else s'
    case Unlock(t) => Move(s, t, Outside).(holder := None)
  }

  ghost function Move(s: State, t: nat, p: Phase): State
    requires t < |s.threads|
  {
    s.(threads := s.threads[t := p])
  }

  ghost predicate Init(s: State) {
    && s.counter == s.initial && s.holder == None
    && forall t :: 0 <= t < |s.threads| ==> s.threads[t] == Outside
  }

  ghost predicate Step(s: State, s': State) {
    exists a :: Enabled(s, a) && s' == Do(s, a)
  }

  ghost predicate IsRun(run: seq<State>) {
    && run != [] && Init(run[0])
    && forall i :: 0 < i < |run| ==> Step(run[i - 1], run[i])
  }

  // ----- The invariant -----

  ghost function Count(threads: seq<Phase>, p: Phase): nat {
    multiset(threads)[p]
  }

  /** One wake-up is about to be used or about to be sent inside the critical section. */
  ghost function Pending(s: State): nat {
    if s.holder.Some? && s.holder.value < |s.threads| &&
       (s.threads[s.holder.value].Checking? || s.threads[s.holder.value].Raised?)
    then 1 else 0
  }

  ghost predicate NoWakeupLost(s: State) {
    Count(s.threads, Sleeping) > 0 ==> Count(s.threads, Woken) + Pending(s) >= s.counter
  }

  ghost predicate LockInv(s: State) {
    && (s.holder.Some? ==> s.holder.value < |s.threads|)
    && forall t: nat :: t < |s.threads| ==> (HoldsLock(s.threads[t]) <==> s.holder == Some(t))
  }

  ghost predicate Inv(s: State) {
    LockInv(s) && NoWakeupLost(s)
  }

  lemma CountMove(threads: seq<Phase>, t: nat, p: Phase, q: Phase)
    requires t < |threads|
    ensures Count(threads[t := p], q) ==
            Count(threads, q) - (if threads[t] == q then 1 else 0) + (if p == q then 1 else 0)
  {
    assert multiset(threads[t := p]) == multiset(threads) - multiset{threads[t]} + multiset{p};
    assert threads[t] in multiset(threads);
  }

  lemma CountPositive(threads: seq<Phase>, q: Phase)
    ensures Count(threads, q) > 0 <==> q in threads
  {
  }

  lemma StepKeepsWakeups(s: State, a: Action)
    requires Inv(s) && Enabled(s, a)
    ensures NoWakeupLost(Do(s, a))
  {
    hide Count;
    if a.NotifyOne? {
      NotifyKeepsWakeups(s, a);
    } else {
      var p := Do(s, a).threads[a.t];
      CountMove(s.threads, a.t, p, Sleeping);
      CountMove(s.threads, a.t, p, Woken);
    }
  }

  lemma NotifyKeepsWakeups(s: State, a: Action)
    requires Inv(s) && a.NotifyOne? && Enabled(s, a)
    ensures NoWakeupLost(Do(s, a))
  {
    hide Count;
    CountPositive(s.threads, Sleeping);
    CountMove(s.threads, a.t, Notified, Sleeping);
    CountMove(s.threads, a.t, Notified, Woken);
    if a.woken.Some? {
      CountMove(s.threads[a.t := Notified], a.woken.value, Woken, Sleeping);
      CountMove(s.threads[a.t := Notified], a.woken.value, Woken, Woken);
    }
  }

  lemma StepKeepsLock(s: State, a: Action)
    requires LockInv(s) && Enabled(s, a)
    ensures LockInv(Do(s, a))
  {
  }

  lemma StepKeepsInv(s: State, a: Action)
    requires Inv(s) && Enabled(s, a)
    ensures Inv(Do(s, a))
  {
    StepKeepsWakeups(s, a);
    StepKeepsLock(s, a);
    hide NoWakeupLost, LockInv;
  }

  // ----- Whole runs -----

  lemma {:induction false} RunKeepsInv(run: seq<State>)
    requires IsRun(run)
    ensures Inv(run[|run| - 1])
  {
    var s' := run[|run| - 1];
    if |run| == 1 {
      assert Count(s'.threads, Sleeping) == 0;
    } else {
      var s := run[|run| - 2];
      assert Step(s, s');
      assert run[..|run| - 1][|run| - 2] == s;
      RunKeepsInv(run[..|run| - 1]);
      var a :| Enabled(s, a) && s' == Do(s, a);
      StepKeepsInv(s, a);
    }
  }

  // ----- Permits, told from the threads' phases alone -----

  /** Some thread goes from phase `p` to another one. */
  ghost predicate Leaves(s: State, s': State, p: Phase) {
    exists t: nat :: t < |s.threads| && t < |s'.threads| && s.threads[t] == p && s'.threads[t] != p
  }

  ghost predicate Enters(s: State, s': State, p: Phase) {
    exists t: nat :: t < |s.threads| && t < |s'.threads| && s.threads[t] != p && s'.threads[t] == p
  }

  /** In how many steps of the run a thread leaves, or enters, the phase. */
  ghost function TimesLeft(run: seq<State>, p: Phase): nat {
    if |run| < 2 then 0 else
    var n := |run| - 1;
    TimesLeft(run[..n], p) + if Leaves(run[n - 1], run[n], p) then 1 else 0
  }

  ghost function TimesEntered(run: seq<State>, p: Phase): nat {
    if |run| < 2 then 0 else
    var n := |run| - 1;
    TimesEntered(run[..n], p) + if Enters(run[n - 1], run[n], p) then 1 else 0
  }

  lemma MoveIsSeen(s: State, s': State, t: nat, q: Phase, p: Phase)
    requires t < |s.threads| && s'.threads == s.threads[t := q]
    ensures Leaves(s, s', p) <==> s.threads[t] == p && q != p
    ensures Enters(s, s', p) <==> s.threads[t] != p && q == p
  {
  }

  lemma NotifyIsNotSeen(s: State, s': State, t: nat, w: nat, p: Phase)
    requires t < |s.threads| && w < |s.threads| && s.threads[t].Raised? && s.threads[w].Sleeping?
    requires s'.threads == s.threads[t := Notified][w := Woken]
    requires p in {Releasing, Taken}
    ensures !Leaves(s, s', p) && !Enters(s, s', p)
  {
  }

  lemma OneMoves(s: State, a: Action, p: Phase)
    requires Enabled(s, a) && p in {Releasing, Taken}
    ensures var s' := Do(s, a);
            && (Leaves(s, s', p) <==> s.threads[a.t] == p && s'.threads[a.t] != p)
            && (Enters(s, s', p) <==> s.threads[a.t] != p && s'.threads[a.t] == p)
  {
    hide Leaves, Enters;
    if a.NotifyOne? && a.woken.Some? {
      NotifyIsNotSeen(s, Do(s, a), a.t, a.woken.value, p);
    } else {
      MoveIsSeen(s, Do(s, a), a.t, Do(s, a).threads[a.t], p);
    }
  }

  /** Threads inside a release that have not raised the counter, and inside an acquire that
      have not taken a permit. */
  ghost function ReleasesUnderWay(threads: seq<Phase>): nat {
    Count(threads, WantsRelease) + Count(threads, Releasing)
  }

  ghost function AcquiresUnderWay(threads: seq<Phase>): nat {
    Count(threads, WantsAcquire) + Count(threads, Checking) + Count(threads, Sleeping) + Count(threads, Woken)
  }

  ghost function Half(q: Phase): int {
    match q
    case WantsRelease => -1
    case Releasing => -1
    case WantsAcquire => 1
    case Checking => 1
    case Sleeping => 1
    case Woken => 1
    case _ => 0
  }

  lemma UnderWayMove(threads: seq<Phase>, t: nat, p: Phase)
    requires t < |threads|
    ensures AcquiresUnderWay(threads[t := p]) - ReleasesUnderWay(threads[t := p])
         == AcquiresUnderWay(threads) - ReleasesUnderWay(threads) - Half(threads[t]) + Half(p)
  {
    hide Count;
    CountMove(threads, t, p, WantsRelease);
    CountMove(threads, t, p, Releasing);
    CountMove(threads, t, p, WantsAcquire);
    CountMove(threads, t, p, Checking);
    CountMove(threads, t, p, Sleeping);
    CountMove(threads, t, p, Woken);
  }

  lemma NoneUnderWay(threads: seq<Phase>)
    requires forall t :: 0 <= t < |threads| ==> threads[t] == Outside
    ensures AcquiresUnderWay(threads) == 0 == ReleasesUnderWay(threads)
  {
  }

  /** The counter, with the calls under way taken as made. */
  ghost function Balance(s: State): int {
    s.counter - AcquiresUnderWay(s.threads) + ReleasesUnderWay(s.threads)
  }

  lemma StepMovesPermits(s: State, a: Action)
    requires Enabled(s, a)
    ensures var s' := Do(s, a);
            && s'.initial == s.initial
            && s'.counter - s.counter
               == (if Leaves(s, s', Releasing) then 1 else 0) - (if Enters(s, s', Taken) then 1 else 0)
            && Balance(s') - Balance(s) == (if a.CallRelease? then 1 else 0) - (if a.CallAcquire? then 1 else 0)
  {
    hide Leaves, Enters, AcquiresUnderWay, ReleasesUnderWay;
    OneMoves(s, a, Releasing);
    OneMoves(s, a, Taken);
    var p := if a.NotifyOne? then Notified else Do(s, a).threads[a.t];
    UnderWayMove(s.threads, a.t, p);
    if a.NotifyOne? && a.woken.Some? {
      UnderWayMove(s.threads[a.t := p], a.woken.value, Woken);
    }
  }

  /** In every run, from the phases of the threads alone: the counter is the initial value,
      plus the steps in which a thread leaves the middle of a release, minus those in which
      one gets its permit. */
  lemma {:induction false} CounterFollowsPhases(run: seq<State>)
    requires IsRun(run)
    ensures var s := run[|run| - 1];
            s.initial == run[0].initial && s.counter == s.initial + TimesLeft(run, Releasing) - TimesEntered(run, Taken)
  {
    hide Step, Init, Leaves, Enters;
    var n := |run| - 1;
    if n == 0 {
      StartsBalanced(run[0]);
    } else {
      CounterFollowsPhases(run[..n]);
      StepCounts(run[n - 1], run[n]);
      assert run[..n][n - 1] == run[n - 1];
    }
  }

  /** In every state of every run: while a thread sleeps, every permit in the counter has a
      wake-up on its way; the counter is what the increments and decrements made so far make
      it; one thread has the lock. */
  lemma NoLostWakeup(run: seq<State>, t: nat, t': nat)
    requires IsRun(run)
    ensures var s := run[|run| - 1];
            && (Sleeping in s.threads ==> Count(s.threads, Woken) + Pending(s) >= s.counter)
            && s.counter == s.initial + TimesLeft(run, Releasing) - TimesEntered(run, Taken)
            && (t < |s.threads| && t' < |s.threads| && HoldsLock(s.threads[t]) && HoldsLock(s.threads[t']) ==> t == t')
  {
    RunKeepsInv(run);
    CounterFollowsPhases(run);
  }

  /** A run together with the actions that it takes. */
  ghost predicate IsTrace(run: seq<State>, acts: seq<Action>) {
    && |run| == |acts| + 1 && Init(run[0])
    && forall k :: 0 <= k < |acts| ==> Enabled(run[k], acts[k]) && run[k + 1] == Do(run[k], acts[k])
  }

  function AcquireCalls(acts: seq<Action>): nat {
    if acts == [] then 0 else
    AcquireCalls(acts[..|acts| - 1]) + if acts[|acts| - 1].CallAcquire? then 1 else 0
  }

  function ReleaseCalls(acts: seq<Action>): nat {
    if acts == [] then 0 else
    ReleaseCalls(acts[..|acts| - 1]) + if acts[|acts| - 1].CallRelease? then 1 else 0
  }

  /** In every run: the counter is the initial value plus the calls of release minus those of
      acquire, except for the releases that have not raised it yet and the acquires that have
      not got their permit yet; when no thread is inside a call, it is exactly that. */
  lemma {:induction false} CounterFollowsCalls(run: seq<State>, acts: seq<Action>)
    requires IsTrace(run, acts)
    ensures var s := run[|run| - 1];
            && s.initial == run[0].initial
            && s.counter - AcquiresUnderWay(s.threads) + ReleasesUnderWay(s.threads)
               == s.initial + ReleaseCalls(acts) - AcquireCalls(acts)
            && ((forall t :: 0 <= t < |s.threads| ==> s.threads[t] == Outside) ==>
                  s.counter == s.initial + ReleaseCalls(acts) - AcquireCalls(acts))
  {
    hide Init, AcquiresUnderWay, ReleasesUnderWay, Do, Enabled;
    var n := |acts|;
    if n == 0 {
      StartsBalanced(run[0]);
    } else {
      CounterFollowsCalls(run[..n], acts[..n - 1]);
      StepMovesPermits(run[n - 1], acts[n - 1]);
      assert run[..n][n - 1] == run[n - 1];
    }
    if forall t :: 0 <= t < |run[n].threads| ==> run[n].threads[t] == Outside {
      NoneUnderWay(run[n].threads);
    }
  }

  lemma StartsBalanced(s: State)
    requires Init(s)
    ensures s.counter == s.initial == Balance(s)
  {
    NoneUnderWay(s.threads);
  }

  lemma StepCounts(s: State, s': State)
    requires Step(s, s')
    ensures s'.initial == s.initial
    ensures s'.counter - s.counter
         == (if Leaves(s, s', Releasing) then 1 else 0) - (if Enters(s, s', Taken) then 1 else 0)
  {
    var a :| Enabled(s, a) && s' == Do(s, a);
    StepMovesPermits(s, a);
  }

  // ----- Progress -----

  /** A step of the program, as opposed to a new call or a wake-up for no reason. */
  predicate Internal(a: Action) {
    !a.CallAcquire? && !a.CallRelease? && !a.SpuriousWake?
  }

  ghost predicate Quiet(s: State) {
    forall a :: Enabled(s, a) ==> !Internal(a)
  }

  /** How many internal steps a thread can still take, at most. */
  function Weight(p: Phase): nat {
    match p
    case Outside => 0
    case Sleeping => 1
    case Taken => 1
    case Notified => 1
    case Checking => 2
    case WantsAcquire => 3
    case Woken => 3
    case Raised => 4
    case Releasing => 5
    case WantsRelease => 6
  }

  lemma InternalStepsRunOut(s: State, a: Action)
    requires Enabled(s, a) && Internal(a)
    ensures Total(Do(s, a).threads, Weight) < Total(s.threads, Weight)
  {
    var p := if a.NotifyOne? then Notified else Do(s, a).threads[a.t];
    TotalUpdate(s.threads, a.t, p, Weight);
    if a.NotifyOne? && a.woken.Some? {
      TotalUpdate(s.threads[a.t := p], a.woken.value, Woken, Weight);
    }
  }

  lemma CanStep(s: State, t: nat) returns (a: Action)
    requires Inv(s) && t < |s.threads| && !s.threads[t].Outside? && !s.threads[t].Sleeping?
    ensures Enabled(s, a) && Internal(a)
  {
    if s.holder.None? {
      return Lock(t);
    }
    var h := s.holder.value;
    match s.threads[h]
    case Checking => a := if s.counter == 0 then Wait(h) else Decrement(h);
    case Releasing => a := Increment(h);
    case Raised =>
      if w: nat :| w < |s.threads| && s.threads[w].Sleeping? {
        a := NotifyOne(h, Some(w));
      } else {
        a := NotifyOne(h, None);
      }
    case Taken => a := Unlock(h);
    case Notified => a := Unlock(h);
  }

  /** Where the program can do nothing more by itself, every thread is outside or asleep,
      and a thread is asleep only if no permit is left. */
  lemma QuietMeansNoPermit(s: State)
    requires Inv(s) && Quiet(s)
    ensures forall t: nat :: t < |s.threads| ==>
              s.threads[t].Outside? || (s.threads[t].Sleeping? && s.counter == 0)
  {
    forall t: nat | t < |s.threads| ensures s.threads[t].Outside? || s.threads[t].Sleeping? {
      if !s.threads[t].Outside? && !s.threads[t].Sleeping? {
        var a := CanStep(s, t);
      }
    }
    CountPositive(s.threads, Woken);
    CountPositive(s.threads, Sleeping);
  }

  ghost predicate InternalStep(s: State, s': State) {
    exists a :: Enabled(s, a) && Internal(a) && s' == Do(s, a)
  }

  ghost predicate InternalRun(run: seq<State>) {
    run != [] && forall i :: 0 < i < |run| ==> InternalStep(run[i - 1], run[i])
  }

  lemma InternalStepKeepsInv(s: State, s': State)
    requires Inv(s) && InternalStep(s, s')
    ensures Inv(s') && Total(s'.threads, Weight) < Total(s.threads, Weight)
  {
    var a :| Enabled(s, a) && Internal(a) && s' == Do(s, a);
    StepKeepsInv(s, a);
    InternalStepsRunOut(s, a);
  }

  lemma {:induction false} InternalRunKeepsInv(run: seq<State>)
    requires InternalRun(run) && Inv(run[0])
    ensures Inv(run[|run| - 1])
    ensures |run| - 1 + Total(run[|run| - 1].threads, Weight) <= Total(run[0].threads, Weight)
  {
    var n := |run| - 1;
    if n == 0 {
    } else {
      hide InternalStep, Inv;
      InternalRunKeepsInv(run[..n]);
      InternalStepKeepsInv(run[n - 1], run[n]);
    }
  }

  /** From any reachable state on, once the calls stop, the program takes at most as many
      steps as its weight, and when it stops nobody sleeps beside an unused permit. */
  lemma SleepersGetTheirPermits(past: seq<State>, future: seq<State>)
    requires IsRun(past) && InternalRun(future) && future[0] == past[|past| - 1]
    ensures |future| - 1 <= Total(future[0].threads, Weight)
    ensures var s := future[|future| - 1];
            Quiet(s) ==> forall t: nat :: t < |s.threads| ==>
              s.threads[t].Outside? || (s.threads[t].Sleeping? && s.counter == 0)
  {
    RunKeepsInv(past);
    InternalRunKeepsInv(future);
    if Quiet(future[|future| - 1]) {
      QuietMeansNoPermit(future[|future| - 1]);
    }
  }

  // ----- Who sleeps in the end -----

  lemma TraceIsRun(run: seq<State>, acts: seq<Action>)
    requires IsTrace(run, acts)
    ensures IsRun(run)
  {
    forall i | 0 < i < |run| ensures Step(run[i - 1], run[i]) {
      assert Enabled(run[i - 1], acts[i - 1]);
    }
  }

  /** When the program has stopped by itself, the sleepers are exactly the acquires for which
      there is no permit, and the counter is exactly the permits that nobody asked for. */
  lemma QuietTellsAll(run: seq<State>, acts: seq<Action>)
    requires IsTrace(run, acts) && Quiet(run[|run| - 1])
    ensures var s := run[|run| - 1];
            var permits := s.initial + ReleaseCalls(acts) - AcquireCalls(acts);
            s.initial == run[0].initial &&
            if permits >= 0 then s.counter == permits && Sleeping !in s.threads
            else s.counter == 0 && Count(s.threads, Sleeping) == -permits
  {
    var s := run[|run| - 1];
    TraceIsRun(run, acts);
    RunKeepsInv(run);
    QuietMeansNoPermit(s);
    CounterFollowsCalls(run, acts);
    OnlySleepers(s.threads);
    CountPositive(s.threads, Sleeping);
  }

  lemma OnlySleepers(threads: seq<Phase>)
    requires forall t :: 0 <= t < |threads| ==> threads[t].Outside? || threads[t].Sleeping?
    ensures AcquiresUnderWay(threads) == Count(threads, Sleeping) && ReleasesUnderWay(threads) == 0
  {
  }
}
