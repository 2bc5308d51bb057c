/** In which order the report of src/fork/divisors/main.c lists the responses: those of each
    worker in the order of its loop, so that every divisor comes before its cofactor. */
module DivisorOrder {
  import opened Basics
  import opened DivisorPairs
  import opened DivisorLoop
  import opened DivisorRounds
  import opened DivisorRuns

  /** The responses claimed by one worker, in the order of its claims. */
  ghost function Of(claims: seq<Claim>, id: nat): seq<nat> {
    if claims == [] then [] else
    var last := claims[|claims| - 1];
    Of(claims[..|claims| - 1], id) + if last.id == id then [last.response] else []
  }

  /** What a worker has claimed and what it still has to claim is its share, in loop order. */
  ghost predicate WorkerInOrder(c: Config, claims: seq<Claim>, w: Worker, stage: Stage, id: nat, x: nat)
    requires c.threads > 0
  {
    Of(claims, id) + Unclaimed(c, w, stage, id, x) == MyShare(c, x, id)
  }

  ghost predicate InOrder(c: Config, s: State)
    requires Shaped(c, s)
  {
    forall id: nat :: id < c.threads ==>
      WorkerInOrder(c, s.claims, s.workers[id], StageOf(s.parent, id), id, Current(s))
  }

  /** The lines are the shares of the workers, each in its own order. */
  ghost predicate Interleaves(c: Config, claims: seq<Claim>, r: Report)
    requires c.threads > 0
  {
    ResponsesOf(claims) == r.lines && forall id: nat :: id < c.threads ==> Of(claims, id) == MyShare(c, r.request, id)
  }

  ghost predicate Interleaved(c: Config, r: Report)
    requires c.threads > 0
  {
    exists claims :: Interleaves(c, claims, r)
  }

  ghost predicate OrderInv(c: Config, s: State)
    requires Shaped(c, s)
  {
    && (!s.undefined && InRound(s) ==> InOrder(c, s))
    && forall r :: r in s.reports ==> Interleaved(c, r)
  }

  lemma OfGrows(claims: seq<Claim>, claim: Claim, id: nat)
    ensures Of(claims + [claim], id) == Of(claims, id) + if claim.id == id then [claim.response] else []
  {
    assert (claims + [claim])[..|claims|] == claims;
  }

  /** A step of one worker that claims nothing. */
  lemma OrderKeptByWorker(c: Config, s: State, s': State, id: nat)
    requires Shaped(c, s) && Shaped(c, s') && InOrder(c, s) && id < c.threads
    requires s'.claims == s.claims && s'.parent == s.parent && s'.workers == s.workers[id := s'.workers[id]]
    requires var stage, x := StageOf(s.parent, id), Current(s);
             Unclaimed(c, s'.workers[id], stage, id, x) == Unclaimed(c, s.workers[id], stage, id, x)
    ensures InOrder(c, s')
  {
    hide Unclaimed, MyShare, Of;
  }

  lemma OrderKeptByClaim(c: Config, s: State, s': State, id: nat, response: nat)
    requires Shaped(c, s) && Shaped(c, s') && InOrder(c, s) && id < c.threads
    requires s'.claims == s.claims + [Claim(id, response)]
    requires s'.parent == s.parent && s'.workers == s.workers[id := s'.workers[id]]
    requires var stage, x := StageOf(s.parent, id), Current(s);
             Unclaimed(c, s.workers[id], stage, id, x) == [response] + Unclaimed(c, s'.workers[id], stage, id, x)
    ensures InOrder(c, s')
  {
    hide Unclaimed, MyShare, Of;
    forall j: nat | j < c.threads
      ensures WorkerInOrder(c, s'.claims, s'.workers[j], StageOf(s'.parent, j), j, Current(s'))
    {
      OfGrows(s.claims, Claim(id, response), j);
      assert WorkerInOrder(c, s.claims, s.workers[j], StageOf(s.parent, j), j, Current(s));
      if j == id {
        var done, rest := Of(s.claims, id), Unclaimed(c, s'.workers[id], StageOf(s.parent, id), id, Current(s));
        assert done + ([response] + rest) == (done + [response]) + rest;
      }
    }
  }

  lemma OrderKeptByParent(c: Config, s: State, s': State)
    requires Shaped(c, s) && Shaped(c, s') && InOrder(c, s)
    requires s'.claims == s.claims && Current(s') == Current(s)
    requires forall id: nat :: id < c.threads ==>
               Unclaimed(c, s'.workers[id], StageOf(s'.parent, id), id, Current(s))
               == Unclaimed(c, s.workers[id], StageOf(s.parent, id), id, Current(s))
    ensures InOrder(c, s')
  {
    hide Unclaimed, MyShare, Of;
    forall id: nat | id < c.threads
      ensures WorkerInOrder(c, s'.claims, s'.workers[id], StageOf(s'.parent, id), id, Current(s'))
    {
      assert WorkerInOrder(c, s.claims, s.workers[id], StageOf(s.parent, id), id, Current(s));
    }
  }

  lemma LoopKeepsOrder(c: Config, s: State, id: nat, a: Action)
    requires a in {ReadRequest(id), SkipCandidate(id), Reply(id)}
    requires Inv(c, s) && Enabled(c, s, a) && InOrder(c, s)
    ensures Shaped(c, Do(c, s, a)) && InOrder(c, Do(c, s, a))
  {
    hide RangeSize, High, Low, WrappedSquare, Written, MyShare, One, InOrder;
    Asking(c, s, id);
    var p := s.workers[id].phase;
    LoopLocally(c, id, Current(s), if p.Scanning? then p.i else 2);
    OrderKeptByWorker(c, s, Do(c, s, a), id);
  }

  lemma StoreKeepsOrder(c: Config, s: State, id: nat, a: Action)
    requires a in {StoreFirst(id), StoreOther(id)}
    requires Inv(c, s) && Enabled(c, s, a) && InOrder(c, s) && !Do(c, s, a).undefined
    ensures Shaped(c, Do(c, s, a)) && InOrder(c, Do(c, s, a))
  {
    hide RangeSize, High, Low, WrappedSquare, Written, MyShare, One, InOrder;
    Asking(c, s, id);
    OrderKeptByWorker(c, s, Do(c, s, a), id);
  }

  lemma ClaimKeepsOrder(c: Config, s: State, id: nat, a: Action)
    requires a in {ClaimFirst(id), ClaimOther(id)}
    requires Inv(c, s) && Enabled(c, s, a) && InOrder(c, s)
    ensures Shaped(c, Do(c, s, a)) && InOrder(c, Do(c, s, a))
  {
    hide RangeSize, High, Low, WrappedSquare, Written, MyShare, One, InOrder;
    Asking(c, s, id);
    var p, x := s.workers[id].phase, Current(s);
    if a.ClaimFirst? {
      ClaimFirstLocally(c, x, p.i, High(Size(c, x), id));
      OrderKeptByClaim(c, s, Do(c, s, a), id, p.i);
    } else {
      OrderKeptByClaim(c, s, Do(c, s, a), id, p.j);
    }
  }

  lemma ParentKeepsOrder(c: Config, s: State, a: Action)
    requires a.Send? || a.Collect? || a.PrintLine?
    requires Inv(c, s) && Enabled(c, s, a) && InOrder(c, s) && !Do(c, s, a).undefined
    ensures Shaped(c, Do(c, s, a)) && InOrder(c, Do(c, s, a))
  {
    hide RangeSize, High, Low, Written, InOrder;
    if !a.PrintLine? {
      assert WorkerOk(s.claims, s.workers[s.parent.k], StageOf(s.parent, s.parent.k), s.parent.k, Current(s));
    }
    OrderKeptByParent(c, s, Do(c, s, a));
  }

  lemma ResetStartsOrder(c: Config, s: State)
    requires Inv(c, s) && Enabled(c, s, ResetSize)
    ensures Shaped(c, Do(c, s, ResetSize)) && InOrder(c, Do(c, s, ResetSize))
  {
    hide MyShare;
    var s' := Do(c, s, ResetSize);
    forall id: nat | id < c.threads
      ensures WorkerInOrder(c, [], s'.workers[id], Unasked, id, Current(s'))
    {
      assert [] + MyShare(c, Current(s'), id) == MyShare(c, Current(s'), id);
    }
  }

  lemma ReportIsInterleaved(c: Config, s: State)
    requires Inv(c, s) && Enabled(c, s, EndReport) && InOrder(c, s)
    ensures Interleaved(c, Report(s.parent.request, s.parent.lines))
  {
    hide MyShare, Written, Of, AllResponses;
    RoundIsComplete(c, s);
    var r := Report(s.parent.request, s.parent.lines);
    assert r.lines == ResponsesOf(s.claims);
    forall id: nat | id < c.threads ensures Of(s.claims, id) == MyShare(c, r.request, id) {
      assert WorkerInOrder(c, s.claims, s.workers[id], Collected, id, Current(s));
      assert Of(s.claims, id) + [] == Of(s.claims, id);
    }
    assert Interleaves(c, s.claims, r);
  }

  lemma StepKeepsOrder(c: Config, s: State, a: Action)
    requires Inv(c, s) && Enabled(c, s, a) && OrderInv(c, s)
    ensures Inv(c, Do(c, s, a)) && OrderInv(c, Do(c, s, a))
  {
    StepKeepsInv(c, s, a);
    var s' := Do(c, s, a);
    hide InOrder, Interleaved, Inv;
    if a.EndReport? {
      ReportIsInterleaved(c, s);
    } else {
      ReportsStay(c, s, a);
      if !s'.undefined && InRound(s') {
        InOrderNext(c, s, a);
      }
    }
  }

  lemma ReportsStay(c: Config, s: State, a: Action)
    requires Shaped(c, s) && Enabled(c, s, a) && !a.EndReport?
    ensures Do(c, s, a).reports == s.reports
  {
  }

  lemma InOrderNext(c: Config, s: State, a: Action)
    requires Inv(c, s) && Enabled(c, s, a) && OrderInv(c, s) && !a.EndReport?
    requires !Do(c, s, a).undefined && InRound(Do(c, s, a))
    ensures Shaped(c, Do(c, s, a)) && InOrder(c, Do(c, s, a))
  {
    hide InOrder, Interleaved;
    if a.ResetSize? {
      ResetStartsOrder(c, s);
    } else {
      StaysInRound(c, s, a);
      match a
      case Send => ParentKeepsOrder(c, s, a);
      case Collect => ParentKeepsOrder(c, s, a);
      case PrintLine => ParentKeepsOrder(c, s, a);
      case ClaimFirst(id) => ClaimKeepsOrder(c, s, id, a);
      case ClaimOther(id) => ClaimKeepsOrder(c, s, id, a);
      case ReadRequest(id) => LoopKeepsOrder(c, s, id, a);
      case SkipCandidate(id) => LoopKeepsOrder(c, s, id, a);
      case StoreFirst(id) => StoreKeepsOrder(c, s, id, a);
      case StoreOther(id) => StoreKeepsOrder(c, s, id, a);
      case Reply(id) => LoopKeepsOrder(c, s, id, a);
    }
  }

  lemma StaysInRound(c: Config, s: State, a: Action)
    requires Shaped(c, s) && Enabled(c, s, a) && InRound(Do(c, s, a)) && !a.ResetSize?
    ensures InRound(s) && !a.Request? && !a.EndReport?
  {
  }

  lemma {:induction false} RunKeepsOrder(c: Config, run: seq<State>)
    requires IsRun(c, run)
    ensures Inv(c, run[|run| - 1]) && OrderInv(c, run[|run| - 1])
  {
    hide Inv;
    if |run| == 1 {
      InitInv(c, run[0]);
    } else {
      var s, s' := run[|run| - 2], run[|run| - 1];
      assert Step(c, s, s');
      RunKeepsOrder(c, run[..|run| - 1]);
      var a :| Enabled(c, s, a) && s' == Do(c, s, a);
      hide OrderInv;
      StepKeepsOrder(c, s, a);
    }
  }

  // ----- A divisor and its cofactor -----

  /** Where the `k`-th response of a worker stands. */
  lemma {:induction false} OfAt(claims: seq<Claim>, id: nat, k: nat) returns (p: nat)
    requires k < |Of(claims, id)|
    ensures p < |claims| && claims[p] == Claim(id, Of(claims, id)[k]) && |Of(claims[..p], id)| == k
  {
    var n := |claims| - 1;
    if k < |Of(claims[..n], id)| {
      p := OfAt(claims[..n], id, k);
      assert claims[..n][..p] == claims[..p];
    } else {
      p := n;
    }
  }

  lemma {:induction false} OfGrowsLonger(claims: seq<Claim>, id: nat, p: nat, q: nat)
    requires p <= q <= |claims|
    ensures |Of(claims[..p], id)| <= |Of(claims[..q], id)|
  {
    if p == q {
    } else {
      OfGrowsLonger(claims, id, p, q - 1);
      assert claims[..q][..q - 1] == claims[..q - 1];
    }
  }

  /** The loop writes a divisor up to the root, and its cofactor right after it. */
  lemma {:induction false} WrittenHasPair(x: nat, lo: nat, hi: nat, i: nat) returns (k: nat)
    requires 0 < lo <= i < hi && i * i <= x < WORD && x % i == 0
    ensures k + 1 < |Written(x, lo, hi)| && Written(x, lo, hi)[k] == i && Written(x, lo, hi)[k + 1] == x / i
    decreases i - lo
  {
    Square(lo, i);
    SquareFits(lo, x);
    if lo == i {
      k := 0;
    } else {
      k := WrittenHasPair(x, lo + 1, hi, i);
      k := k + |One(x, lo)|;
    }
  }

  /** Every report of every run lists each divisor up to the root before its cofactor. */
  lemma DivisorBeforeCofactor(c: Config, run: seq<State>, r: Report, i: nat) returns (p: nat, q: nat)
    requires IsRun(c, run) && r in run[|run| - 1].reports && r.request < WORD
    requires 1 < i && i * i <= r.request && r.request % i == 0
    requires c.root(r.request) * c.root(r.request) > r.request
    ensures p < q < |r.lines| && r.lines[p] == i && r.lines[q] == r.request / i
  {
    var x := r.request;
    RunKeepsOrder(c, run);
    assert Interleaved(c, r);
    var claims :| Interleaves(c, claims, r);
    var id := WhoExamines(c, x, i);
    hide Inv, OrderInv, IsRun, RangeSize, Low, High, Written, Of;
    assert Of(claims, id) == MyShare(c, x, id);
    var k := WrittenHasPair(x, Low(Size(c, x), id), High(Size(c, x), id), i);
    p := OfAt(claims, id, k);
    q := OfAt(claims, id, k + 1);
    if q <= p {
      OfGrowsLonger(claims, id, q, p);
    }
  }

  /** The ranges reach the root, so that some worker examines the candidate. */
  lemma WhoExamines(c: Config, x: nat, i: nat) returns (id: nat)
    requires c.threads > 0 && 1 < i && i * i <= x < c.root(x) * c.root(x)
    ensures id < c.threads && Low(Size(c, x), id) <= i < High(Size(c, x), id)
  {
    var size := Size(c, x);
    RangesReachRoot(c.root(x), c.threads);
    if c.root(x) <= i { Square(c.root(x), i); }
    PositiveFactor(size, c.threads);
    id := i / size;
    assert i == size * id + i % size;
    assert size * (id + 1) == size * id + size;
    assert id * size < c.threads * size;
    Smaller(id, c.threads, size);
  }
}
