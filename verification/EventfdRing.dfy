/** The token ring of src/fork/evfd-sync/main.c, for any number of processes and any
    limit: process `i` reads eventfd `i` and writes the next number to the next eventfd.
    An eventfd is a counter: a write adds to it, a read empties it and blocks on 0. */
module EventfdRing {
  import opened Basics

  /** Where a process is; `x` is the number it read. */
  datatype Pc =
    | Reading
    | Got(x: nat)
    | Printed(x: nat)
    | Written(x: nat)
    | Exited

  datatype State = State(
    limit: nat,
    fds: seq<nat>,
    procs: seq<Pc>,
    started: bool,         // the parent has written 1 to the first eventfd
    printed: seq<nat>,     // history
    taken: nat)            // history: how many reads have been made

  datatype Action =
    | Start
    | Read(i: nat)
    | Print(i: nat)
    | Write(i: nat)
    | Decide(i: nat)

  predicate Shaped(s: State) {
    |s.fds| == |s.procs| > 0
  }

  ghost predicate Enabled(s: State, a: Action)
    requires Shaped(s)
  {
    match a
    case Start => !s.started
    case Read(i) => i < |s.procs| && s.procs[i].Reading? && s.fds[i] > 0
    case Print(i) => i < |s.procs| && s.procs[i].Got?
    case Write(i) => i < |s.procs| && s.procs[i].Printed?
    case Decide(i) => i < |s.procs| && s.procs[i].Written?
  }

  ghost function Do(s: State, a: Action): State
    requires Shaped(s) && Enabled(s, a)
  {
    match a
    case Start => s.(fds := s.fds[0 := s.fds[0] + 1], started := true)
    case Read(i) => Goto(s, i, Got(s.fds[i])).(fds := s.fds[i := 0], taken := s.taken + 1)
    case Print(i) =>
      var x := s.procs[i].x;
      Goto(s, i, Printed(x)).(printed := s.printed + if x <= s.limit then [x] else [])
    case Write(i) =>
      var x, next := s.procs[i].x, (i + 1) % |s.procs|;
      Goto(s, i, Written(x)).(fds := s.fds[next := s.fds[next] + (x + 1)])
    case Decide(i) => Goto(s, i, if s.procs[i].x + 1 > s.limit then Exited else Reading)
  }

  ghost function Goto(s: State, i: nat, pc: Pc): State
    requires i < |s.procs|
  {
    s.(procs := s.procs[i := pc])
  }

  ghost predicate Init(s: State) {
    && Shaped(s) && !s.started && s.printed == [] && s.taken == 0
    && (forall i :: 0 <= i < |s.fds| ==> s.fds[i] == 0)
    && (forall i :: 0 <= i < |s.procs| ==> s.procs[i] == Reading)
  }

  ghost predicate Step(s: State, s': State) {
    exists a :: Shaped(s) && Enabled(s, a) && s' == Do(s, a)
  }

  ghost predicate IsRun(run: seq<State>) {
    && run != [] && Init(run[0])
    && forall i :: 0 < i < |run| ==> Step(run[i - 1], run[i])
  }

  // ----- Who reads what -----

  /** The process that reads number `x`. */
  function Reader(x: nat, t: nat): (i: nat)
    requires x > 0 && t > 0
    ensures i < t
  {
    (x - 1) % t
  }

  /** The last number up to `k` that process `p` reads, or 0. */
  function LastRead(p: nat, k: nat, t: nat): (x: nat)
    requires t > 0
    ensures x <= k && (x > 0 ==> Reader(x, t) == p)
  {
    if k == 0 then 0 else if Reader(k, t) == p then k else LastRead(p, k - 1, t)
  }

  lemma ReaderAdvances(x: nat, t: nat)
    requires x > 0 && t > 0
    ensures Reader(x + 1, t) == (Reader(x, t) + 1) % t
  {
    var q, r := (x - 1) / t, (x - 1) % t;
    NextRemainder(q, r, t);
    assert t * q + r + 1 == x;
  }

  lemma NextRemainder(q: nat, r: nat, t: nat)
    requires r < t
    ensures (t * q + r + 1) % t == (r + 1) % t
  {
    if r + 1 == t {
      DivMod(t, t, 1, 0);
      DivMod(t * q + t, t, q + 1, 0);
    } else {
      DivMod(r + 1, t, 0, r + 1);
      DivMod(t * q + r + 1, t, q, r + 1);
    }
  }

  /** Two numbers of the same process are a full turn apart. */
  lemma TurnsApart(x: nat, y: nat, t: nat)
    requires 0 < x < y && t > 0 && Reader(x, t) == Reader(y, t)
    ensures x + t <= y
  {
    var a, b, r := (x - 1) / t, (y - 1) / t, (x - 1) % t;
    assert x - 1 == a * t + r && y - 1 == b * t + r;
    Smaller(a, b, t);
    MulLess(a, b, t);
  }

  lemma {:induction false} LastReadAtLeast(p: nat, k: nat, t: nat, x: nat)
    requires t > 0 && 0 < x <= k && Reader(x, t) == p
    ensures LastRead(p, k, t) >= x
  {
    if x < k && Reader(k, t) != p {
      LastReadAtLeast(p, k - 1, t, x);
    }
  }

  /** In any full turn every process reads once. */
  lemma ReadWithinTurn(p: nat, k: nat, t: nat)
    requires p < t <= k
    ensures LastRead(p, k, t) + t > k
  {
    var q, r := (k - 1 - p) / t, (k - 1 - p) % t;
    assert k - 1 - p == q * t + r;
    DivMod(q * t + p, t, q, p);
    LastReadAtLeast(p, k, t, k - r);
  }

  // ----- The invariant -----

  /** The last number that is read. */
  function Last(s: State): nat {
    (if s.limit == 0 then 1 else s.limit) + |s.procs| - 1
  }

  ghost predicate Holding(s: State)
    requires Shaped(s)
  {
    s.taken > 0 && var pc := s.procs[Reader(s.taken, |s.procs|)]; pc == Got(s.taken) || pc == Printed(s.taken)
  }

  /** A process that has finished with number `m`, or has had none for m == 0. */
  predicate Idle(pc: Pc, m: nat, limit: nat) {
    if m == 0 then pc.Reading? else pc == Written(m) || pc == (if m + 1 > limit then Exited else Reading)
  }

  function NumbersTo(m: nat): seq<nat> {
    seq(m, j requires 0 <= j < m => j + 1)
  }

  /** Nobody has a token but the holder, or the eventfd of the next reader. */
  ghost predicate OneToken(s: State)
    requires Shaped(s)
  {
    var t, k := |s.procs|, s.taken;
    forall i :: 0 <= i < t ==>
      s.fds[i] == if s.started && !Holding(s) && i == Reader(k + 1, t) then k + 1 else 0
  }

  ghost predicate ProcsOk(s: State)
    requires Shaped(s)
  {
    var t, k := |s.procs|, s.taken;
    forall i :: 0 <= i < t ==>
      (k > 0 && i == Reader(k, t) && Holding(s)) || Idle(s.procs[i], LastRead(i, k, t), s.limit)
  }

  ghost function LastPrinted(s: State): nat
    requires Shaped(s)
  {
    if s.taken > 0 && s.procs[Reader(s.taken, |s.procs|)] == Got(s.taken) then s.taken - 1 else s.taken
  }

  ghost predicate Inv(s: State) {
    && Shaped(s) && s.taken <= Last(s)
    && (!s.started ==> s.taken == 0)
    && OneToken(s) && ProcsOk(s)
    && s.printed == NumbersTo(Least(s.limit, LastPrinted(s)))
  }

  lemma ReadKeepsInv(s: State, i: nat)
    requires Inv(s) && Enabled(s, Read(i))
    ensures Inv(Do(s, Read(i)))
  {
    hide Reader;
    var s', t, k := Do(s, Read(i)), |s.procs|, s.taken;
    assert i == Reader(k + 1, t) && s.fds[i] == k + 1;
    assert Idle(s.procs[i], LastRead(i, k, t), s.limit);
    if k == Last(s) { ReadWithinTurn(i, k, t); }
    assert Holding(s');
  }

  lemma PrintKeepsInv(s: State, i: nat)
    requires Inv(s) && Enabled(s, Print(i))
    ensures Inv(Do(s, Print(i)))
  {
    hide Reader;
    var k := s.taken;
    assert k > 0 && i == Reader(k, |s.procs|) && s.procs[i] == Got(k);
    assert NumbersTo(k) == NumbersTo(k - 1) + [k];
    assert Holding(s) && Holding(Do(s, Print(i)));
  }

  lemma WriteKeepsInv(s: State, i: nat)
    requires Inv(s) && Enabled(s, Write(i))
    ensures Inv(Do(s, Write(i)))
  {
    var s', k, t := Do(s, Write(i)), s.taken, |s.procs|;
    assert k > 0 && i == Reader(k, t) && s.procs[i] == Printed(k);
    ReaderAdvances(k, t);
    hide Reader;
    assert Holding(s) && !Holding(s');
  }

  lemma DecideKeepsInv(s: State, i: nat)
    requires Inv(s) && Enabled(s, Decide(i))
    ensures Inv(Do(s, Decide(i)))
  {
    hide Reader;
    var s', k := Do(s, Decide(i)), s.taken;
    assert Holding(s) == Holding(s');
  }

  lemma StartKeepsInv(s: State)
    requires Inv(s) && Enabled(s, Start)
    ensures Inv(Do(s, Start))
  {
    assert Reader(1, |s.procs|) == 0;
  }

  lemma StepKeepsInv(s: State, a: Action)
    requires Inv(s) && Enabled(s, a)
    ensures Inv(Do(s, a))
  {
    match a
    case Start => StartKeepsInv(s);
    case Read(i) => ReadKeepsInv(s, i);
    case Print(i) => PrintKeepsInv(s, i);
    case Write(i) => WriteKeepsInv(s, i);
    case Decide(i) => DecideKeepsInv(s, i);
  }

  // ----- Progress -----

  ghost predicate Ended(s: State) {
    forall i :: 0 <= i < |s.procs| ==> s.procs[i].Exited?
  }

  lemma EndedMeansAllRead(s: State)
    requires Inv(s) && Ended(s)
    ensures s.taken == Last(s) && s.printed == NumbersTo(s.limit)
  {
    var t, k := |s.procs|, s.taken;
    var i := Reader(k + 1, t);
    var m := LastRead(i, k, t);
    assert Idle(s.procs[i], m, s.limit);
    TurnsApart(m, k + 1, t);
    assert !Holding(s);
  }

  lemma NextAction(s: State) returns (a: Action)
    requires Inv(s) && !Ended(s)
    ensures Enabled(s, a)
  {
    var t, k := |s.procs|, s.taken;
    if !s.started {
      a := Start;
    } else if Holding(s) {
      var i := Reader(k, t);
      a := if s.procs[i].Got? then Print(i) else Write(i);
    } else if k < Last(s) {
      var i := Reader(k + 1, t);
      var m := LastRead(i, k, t);
      assert Idle(s.procs[i], m, s.limit);
      if m > 0 { TurnsApart(m, k + 1, t); }
      a := if s.procs[i].Reading? then Read(i) else Decide(i);
    } else {
      var i :| 0 <= i < t && !s.procs[i].Exited?;
      ReadWithinTurn(i, k, t);
      assert Idle(s.procs[i], LastRead(i, k, t), s.limit);
      a := Decide(i);
    }
  }

  function Weight(pc: Pc): nat {
    match pc
    case Reading => 1
    case Got(_) => 4
    case Printed(_) => 3
    case Written(_) => 2
    case Exited => 0
  }

  /** How many steps are left, at most. */
  function Measure(s: State): int {
    4 * (Last(s) - s.taken) + Total(s.procs, Weight) + if s.started then 0 else 1
  }

  lemma StepLowersMeasure(s: State, a: Action)
    requires Inv(s) && Enabled(s, a)
    ensures Measure(Do(s, a)) < Measure(s)
  {
    if !a.Start? {
      TotalUpdate(s.procs, a.i, Do(s, a).procs[a.i], Weight);
    }
  }

  // ----- Whole runs -----

  lemma StepKeepsAll(s: State, s': State)
    requires Inv(s) && Step(s, s')
    ensures Inv(s') && s'.limit == s.limit && |s'.procs| == |s.procs| && Measure(s') < Measure(s)
  {
    var a :| Shaped(s) && Enabled(s, a) && s' == Do(s, a);
    StepKeepsInv(s, a);
    StepLowersMeasure(s, a);
  }

  lemma InitInv(s: State)
    requires Init(s)
    ensures Inv(s) && Measure(s) == 4 * Last(s) + |s.procs| + 1
  {
    TotalOfOnes(s.procs, Weight);
  }

  lemma {:induction false} RunKeepsInv(run: seq<State>)
    requires IsRun(run)
    ensures var s := run[|run| - 1];
            && Inv(s) && s.limit == run[0].limit && |s.procs| == |run[0].procs|
            && |run| - 1 + Measure(s) <= 4 * Last(s) + |s.procs| + 1
  {
    hide Inv, Step, Init, Measure;
    if |run| == 1 {
      InitInv(run[0]);
    } else {
      RunKeepsInv(run[..|run| - 1]);
      StepKeepsAll(run[|run| - 2], run[|run| - 1]);
    }
  }

  /** In every state of every run the numbers printed are 1, 2, ... in order and within the
      limit, and whoever can read an eventfd reads the next number, being its reader. */
  lemma PrintsInOrder(run: seq<State>, i: nat)
    requires IsRun(run)
    ensures var s := run[|run| - 1];
            && Shaped(s) && s.printed <= NumbersTo(s.limit)
            && |s.printed| <= s.limit && (forall j :: 0 <= j < |s.printed| ==> s.printed[j] == j + 1)
            && (Enabled(s, Read(i)) ==> s.fds[i] == s.taken + 1 && i == (s.fds[i] - 1) % |s.procs|)
  {
    RunKeepsInv(run);
  }

  /** In every state of every run at most one token exists: two places that hold one, be it
      an eventfd or a process between its read and its write, are the same place. */
  lemma AtMostOneToken(run: seq<State>, i: nat, j: nat)
    requires IsRun(run)
    requires var s := run[|run| - 1]; i < |s.procs| && j < |s.procs|
    ensures var s := run[|run| - 1];
            && Shaped(s)
            && (s.fds[i] > 0 && s.fds[j] > 0 ==> i == j)
            && ((s.procs[i].Got? || s.procs[i].Printed?) && (s.procs[j].Got? || s.procs[j].Printed?) ==> i == j)
            && !(s.fds[i] > 0 && (s.procs[j].Got? || s.procs[j].Printed?))
  {
    RunKeepsInv(run);
  }

  /** Every run ends: it has a bounded number of steps, it stops only with every process
      exited, and then max(limit, 1) + T - 1 numbers were read and 1..limit printed. */
  lemma EveryRunEnds(run: seq<State>)
    requires IsRun(run)
    ensures var s := run[|run| - 1];
            && Shaped(s)
            && |run| <= 4 * Last(s) + |s.procs| + 2
            && ((exists a :: Enabled(s, a)) || Ended(s))
            && (Ended(s) ==>
                  && s.printed == NumbersTo(s.limit) && |s.printed| == s.limit
                  && s.taken == (if s.limit == 0 then 1 else s.limit) + |s.procs| - 1)
  {
    var s := run[|run| - 1];
    RunKeepsInv(run);
    if Ended(s) {
      EndedMeansAllRead(s);
    } else {
      var a := NextAction(s);
    }
  }
}
