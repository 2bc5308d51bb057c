/** The loop of a worker in src/fork/divisors/main.c as it runs on 64-bit words, for every
    request: where its guard wraps, what it writes then, and when that is right. */
module DivisorLoop {
  import opened Basics
  import opened DivisorPairs

  const MAX_RESPONSES := 64

  /** The least number whose square does not fit a `uint64_t`. */
  const HALF := 0x1_0000_0000

  /** `i * i` as the loop guard computes it. */
  function WrappedSquare(i: nat): nat {
    (i * i) % WORD
  }

  /** What the loop writes for the candidates from `lo` up to `hi`. */
  ghost function Written(value: nat, lo: nat, hi: nat): seq<nat>
    requires 0 < lo
    decreases hi - lo
  {
    if lo >= hi || WrappedSquare(lo) > value then [] else One(value, lo) + Written(value, lo + 1, hi)
  }

  /** The part of it that is written for candidates past the root. */
  ghost function Past(value: nat, lo: nat, hi: nat): seq<nat>
    requires 0 < lo
    decreases hi - lo
  {
    if lo >= hi || WrappedSquare(lo) > value then [] else
    (if lo * lo > value then One(value, lo) else []) + Past(value, lo + 1, hi)
  }

  lemma SquareFits(i: nat, value: nat)
    requires i * i <= value < WORD
    ensures WrappedSquare(i) == i * i
  {
  }

  lemma {:induction false} WrittenSplits(value: nat, lo: nat, hi: nat)
    requires value < WORD && 0 < lo
    ensures Written(value, lo, hi) == Pairs(value, lo, hi) + Past(value, lo, hi)
    ensures lo * lo > value ==> Pairs(value, lo, hi) == []
    decreases hi - lo
  {
    if lo >= hi || WrappedSquare(lo) > value {
      if lo * lo <= value { SquareFits(lo, value); }
    } else {
      hide One, WrappedSquare;
      WrittenSplits(value, lo + 1, hi);
      if lo * lo > value {
        Square(lo, lo + 1);
      }
    }
  }

  // ----- Where the guard wraps -----

  /** The loop from `lo` gets as far as examining candidate `i`. */
  ghost predicate Examines(value: nat, lo: nat, hi: nat, i: nat) {
    lo <= i < hi && forall k: nat :: lo <= k <= i ==> WrappedSquare(k) <= value
  }

  /** The wrapping square sends the loop past the root exactly when the range contains
      2^32 and the root is the last 32-bit number. */
  lemma LoopOverrunsIff(value: nat, lo: nat, hi: nat)
    requires value < WORD && lo < HALF
    ensures (exists i: nat :: Examines(value, lo, hi, i) && i * i > value)
            <==> hi > HALF && value >= (HALF - 1) * (HALF - 1)
  {
    SmallSquaresFit();
    assert WrappedSquare(HALF) == 0;
    if hi > HALF && value >= (HALF - 1) * (HALF - 1) {
      assert Examines(value, lo, hi, HALF);
    }
    if i: nat :| Examines(value, lo, hi, i) && i * i > value {
      assert WrappedSquare(HALF - 1) <= value;
    }
  }

  lemma SmallSquaresFit()
    ensures forall k: nat :: k < HALF ==> WrappedSquare(k) == k * k <= (HALF - 1) * (HALF - 1)
  {
    forall k: nat | k < HALF ensures WrappedSquare(k) == k * k <= (HALF - 1) * (HALF - 1) {
      Square(k, HALF - 1);
    }
  }

  /** A candidate past the root that the loop examines and that divides the value. */
  ghost predicate PastDivisor(value: nat, lo: nat, hi: nat, i: nat) {
    Examines(value, lo, hi, i) && i > 0 && i * i > value && value % i == 0
  }

  lemma {:induction false} PastIsEmptyIff(value: nat, lo: nat, hi: nat)
    requires 0 < lo
    ensures Past(value, lo, hi) == [] <==> forall i: nat :: !PastDivisor(value, lo, hi, i)
    decreases hi - lo
  {
    hide WrappedSquare, PastDivisor, One;
    if lo >= hi || WrappedSquare(lo) > value {
      NoneExamined(value, lo, hi);
    } else {
      PastIsEmptyIff(value, lo + 1, hi);
      OneIsEmptyIff(value, lo);
      PastHead(value, lo, hi);
      var here, rest := if lo * lo > value then One(value, lo) else [], Past(value, lo + 1, hi);
      assert here + rest == [] <==> here == [] && rest == [];
      PastDivisorStep(value, lo, hi, lo);
      var next := lo + 1;
      if i: nat :| PastDivisor(value, lo, hi, i) {
        PastDivisorStep(value, lo, hi, i);
      } else if i: nat :| PastDivisor(value, next, hi, i) {
        PastDivisorStep(value, lo, hi, i);
      }
    }
  }

  lemma PastHead(value: nat, lo: nat, hi: nat)
    requires 0 < lo < hi && WrappedSquare(lo) <= value
    ensures Past(value, lo, hi) == (if lo * lo > value then One(value, lo) else []) + Past(value, lo + 1, hi)
  {
  }

  lemma NoneExamined(value: nat, lo: nat, hi: nat)
    requires lo >= hi || WrappedSquare(lo) > value
    ensures forall i: nat :: !PastDivisor(value, lo, hi, i)
  {
  }

  lemma OneIsEmptyIff(value: nat, i: nat)
    requires 0 < i
    ensures One(value, i) == [] <==> value % i != 0
  {
  }

  lemma PastDivisorStep(value: nat, lo: nat, hi: nat, i: nat)
    requires 0 < lo < hi && WrappedSquare(lo) <= value
    ensures PastDivisor(value, lo, hi, i) <==>
            PastDivisor(value, lo + 1, hi, i) || (i == lo && lo * lo > value && value % lo == 0)
  {
    hide WrappedSquare;
  }

  // ----- All workers together -----

  ghost function WrittenShare(value: nat, sqrtPart: nat, threads: nat, id: nat): seq<nat>
    requires threads > 0
  {
    var size := RangeSize(sqrtPart, threads);
    Written(value, Low(size, id), High(size, id))
  }

  ghost function PastShare(value: nat, sqrtPart: nat, threads: nat, id: nat): seq<nat>
    requires threads > 0
  {
    var size := RangeSize(sqrtPart, threads);
    Past(value, Low(size, id), High(size, id))
  }

  ghost function WrittenShares(value: nat, sqrtPart: nat, threads: nat, count: nat): (parts: seq<seq<nat>>)
    requires threads > 0
    ensures |parts| == count
  {
    seq(count, id requires 0 <= id < count => WrittenShare(value, sqrtPart, threads, id))
  }

  ghost function PastShares(value: nat, sqrtPart: nat, threads: nat, count: nat): (parts: seq<seq<nat>>)
    requires threads > 0
    ensures |parts| == count
  {
    seq(count, id requires 0 <= id < count => PastShare(value, sqrtPart, threads, id))
  }

  /** Everything that the workers write for one request. */
  ghost function AllWritten(value: nat, sqrtPart: nat, threads: nat): seq<nat>
    requires threads > 0
  {
    Concat(WrittenShares(value, sqrtPart, threads, threads))
  }

  lemma {:induction false} ConcatAdds(w: seq<seq<nat>>, p: seq<seq<nat>>, q: seq<seq<nat>>, d: nat)
    requires |w| == |p| == |q| && forall i :: 0 <= i < |w| ==> w[i] == p[i] + q[i]
    ensures multiset(Concat(w))[d] == multiset(Concat(p))[d] + multiset(Concat(q))[d]
  {
    if w == [] {
    } else {
      var n := |w| - 1;
      ConcatAdds(w[..n], p[..n], q[..n], d);
      ConcatLast(w, d);
      ConcatLast(p, d);
      ConcatLast(q, d);
      AddCounts(p[n], q[n], d);
    }
  }

  lemma ShareSplits(value: nat, sqrtPart: nat, threads: nat, id: nat)
    requires threads > 0 && value < WORD
    ensures WrittenShare(value, sqrtPart, threads, id)
         == Share(value, sqrtPart, threads, id) + PastShare(value, sqrtPart, threads, id)
  {
    var size := RangeSize(sqrtPart, threads);
    WrittenSplits(value, Low(size, id), High(size, id));
  }

  /** The numbers are the divisors of `value`, each as often as it should be. */
  ghost predicate ListsDivisors(numbers: seq<nat>, value: nat) {
    forall d: nat :: multiset(numbers)[d] == Multiplicity(value, d)
  }

  /** Some worker examines a divisor past the root. */
  ghost predicate Strays(value: nat, sqrtPart: nat, threads: nat)
    requires threads > 0
  {
    var size := RangeSize(sqrtPart, threads);
    exists id: nat, i: nat :: id < threads && PastDivisor(value, Low(size, id), High(size, id), i)
  }

  lemma {:induction false} ConcatHas(parts: seq<seq<nat>>, i: nat)
    requires i < |parts| && parts[i] != []
    ensures Concat(parts) != []
  {
    if i == |parts| - 1 {
    } else {
      ConcatHas(parts[..|parts| - 1], i);
    }
  }

  lemma StraysIff(value: nat, sqrtPart: nat, threads: nat)
    requires threads > 0
    ensures Concat(PastShares(value, sqrtPart, threads, threads)) == [] <==> !Strays(value, sqrtPart, threads)
  {
    hide Past, PastDivisor, RangeSize, Low, High;
    var size, parts := RangeSize(sqrtPart, threads), PastShares(value, sqrtPart, threads, threads);
    forall id: nat | id < threads
      ensures parts[id] == [] <==> forall i: nat :: !PastDivisor(value, Low(size, id), High(size, id), i)
    {
      PastIsEmptyIff(value, Low(size, id), High(size, id));
    }
    if Strays(value, sqrtPart, threads) {
      var id: nat, i: nat :| id < threads && PastDivisor(value, Low(size, id), High(size, id), i);
      ConcatHas(parts, id);
    } else {
      ConcatEmpty(parts);
    }
  }

  /** For every request and any number of workers whose ranges reach the root: the workers
      write exactly the divisors if and only if none examines a divisor past the root. */
  lemma RightIffNoneStrays(value: nat, sqrtPart: nat, threads: nat)
    requires 0 < value < WORD && threads > 0 && sqrtPart * sqrtPart > value
    ensures ListsDivisors(AllWritten(value, sqrtPart, threads), value) <==> !Strays(value, sqrtPart, threads)
  {
    hide Strays, Multiplicity, WrittenShare, PastShare, Share;
    forall id: nat | id < threads
      ensures WrittenShare(value, sqrtPart, threads, id)
           == Share(value, sqrtPart, threads, id) + PastShare(value, sqrtPart, threads, id)
    {
      ShareSplits(value, sqrtPart, threads, id);
    }
    var all: seq<nat> := AllWritten(value, sqrtPart, threads);
    var past: seq<nat> := Concat(PastShares(value, sqrtPart, threads, threads));
    forall d: nat ensures multiset(all)[d] == Multiplicity(value, d) + multiset(past)[d] {
      ConcatAdds(WrittenShares(value, sqrtPart, threads, threads), Shares(value, sqrtPart, threads, threads),
                 PastShares(value, sqrtPart, threads, threads), d);
      SharesAreTheDivisors(value, sqrtPart, threads, d);
    }
    StraysIff(value, sqrtPart, threads);
    if past != [] {
      assert past[0] in multiset(past);
      assert multiset(all)[past[0]] > Multiplicity(value, past[0]);
    }
  }

  // ----- The root as the processor computes it -----

  /** With 8 workers and a root that is at most one too large, some worker passes the root
      exactly if the computed root exceeds 2^32. */
  lemma OverrunsIffRootTooLarge(x: nat, q: nat, root: nat, id: nat)
    requires x < WORD && q * q <= x < (q + 1) * (q + 1) && root in {q + 1, q + 2} && id < 8
    ensures var size := RangeSize(root, 8);
            Low(size, id) < HALF &&
            ((exists i: nat :: Examines(x, Low(size, id), High(size, id), i) && i * i > x)
             <==> id == 7 && root > HALF && x >= (HALF - 1) * (HALF - 1))
  {
    if q >= HALF { Square(HALF, q); }
    var size := RangeSize(root, 8);
    assert size <= HALF / 8 + 1;
    assert root <= HALF <==> 8 * size <= HALF;
    assert id < 7 ==> High(size, id) <= 7 * size;
    LoopOverrunsIff(x, Low(size, id), High(size, id));
  }

  /** It does happen: for 2^64 - 2 the rounding of an 80-bit `sqrtl` and of the added 1
      gives 2^32 + 1, and the last worker goes on to 2^32. */
  lemma LargestRequestOverruns()
    ensures var size := RangeSize(HALF + 1, 8);
            Examines(WORD - 2, Low(size, 7), High(size, 7), HALF) && HALF * HALF > WORD - 2
  {
    SmallSquaresFit();
    assert WrappedSquare(HALF) == 0;
  }

  lemma LargestRequestStraysNowhere()
    ensures !Strays(WORD - 2, HALF + 1, 8)
  {
    var size := RangeSize(HALF + 1, 8);
    assert size == HALF / 8 + 1;
    if Strays(WORD - 2, HALF + 1, 8) {
      var id: nat, i: nat :| id < 8 && PastDivisor(WORD - 2, Low(size, id), High(size, id), i);
      if i < HALF {
        Square(i, HALF - 1);
      } else {
        assert High(size, id) <= 8 * size;
        NearHalfDoesNotDivide(i - HALF);
      }
    }
  }

  lemma NearHalfDoesNotDivide(k: nat)
    requires k < 8
    ensures (WORD - 2) % (HALF + k) != 0
  {
  }

  /** For every request that an eventfd can carry, a root with either rounding gives exactly
      the divisors. */
  lemma RightForEveryRequest(x: nat, q: nat, root: nat)
    requires 0 < x < WORD - 1 && q * q <= x < (q + 1) * (q + 1)
    requires root == q + 1 || (root == q + 2 && (root <= HALF || x == WORD - 2))
    ensures root * root > x && ListsDivisors(AllWritten(x, root, 8), x)
  {
    hide ListsDivisors, AllWritten, Strays;
    Square(q + 1, root);
    if root > HALF {
      if q >= HALF { Square(HALF, q); }
      LargestRequestStraysNowhere();
    } else {
      StraysNowhereBelowHalf(x, q, root);
    }
    RightIffNoneStrays(x, root, 8);
  }

  lemma StraysNowhereBelowHalf(x: nat, q: nat, root: nat)
    requires x < WORD && q * q <= x < (q + 1) * (q + 1) && root in {q + 1, q + 2} && root <= HALF
    ensures !Strays(x, root, 8)
  {
    var size := RangeSize(root, 8);
    forall id: nat, i: nat | id < 8
      ensures !PastDivisor(x, Low(size, id), High(size, id), i)
    {
      OverrunsIffRootTooLarge(x, q, root, id);
    }
  }

  // ----- How many responses a request has -----

  function Divisors(x: nat): set<nat> {
    set d: nat | 1 < d < x && x % d == 0
  }

  ghost predicate IsSquare(x: nat) {
    exists r: nat :: 1 < r < x && r * r == x
  }

  /** Where the responses are right, there is one for every divisor between 1 and the value,
      and one more for a perfect square. */
  lemma ResponsesCount(numbers: seq<nat>, x: nat)
    requires ListsDivisors(numbers, x)
    ensures |numbers| == |Divisors(x)| + if IsSquare(x) then 1 else 0
  {
    var m := multiset(Divisors(x));
    if IsSquare(x) {
      var r: nat :| 1 < r < x && r * r == x;
      MulDiv(r, r);
      forall d: nat ensures multiset(numbers)[d] == (m + multiset{r})[d] {
        if d < r { MulLess(d, r, r); Square(d, r); }
        if r < d { MulLess(r, d, r); Square(r, d); }
      }
      assert multiset(numbers) == m + multiset{r};
    } else {
      forall d: nat ensures multiset(numbers)[d] == m[d] {
      }
      assert multiset(numbers) == m;
    }
    assert |multiset(numbers)| == |numbers|;
  }

  function PairCount(value: nat, lo: nat, hi: nat): nat
    requires 0 < lo
    decreases hi - lo
  {
    if lo >= hi then 0 else (if value % lo == 0 then 2 else 0) + PairCount(value, lo + 1, hi)
  }

  lemma {:induction false} PairsLength(value: nat, lo: nat, hi: nat)
    requires 0 < lo && (hi == 0 || (hi - 1) * (hi - 1) <= value)
    ensures |Pairs(value, lo, hi)| == PairCount(value, lo, hi)
    decreases hi - lo
  {
    if lo >= hi {
    } else {
      Square(lo, hi - 1);
      PairsLength(value, lo + 1, hi);
    }
  }

  lemma {:induction false} PairCountSplits(value: nat, lo: nat, mid: nat, hi: nat)
    requires 0 < lo <= mid <= hi
    ensures PairCount(value, lo, mid) + PairCount(value, mid, hi) == PairCount(value, lo, hi)
    decreases mid - lo
  {
    if lo == mid {
    } else {
      PairCountSplits(value, lo + 1, mid, hi);
    }
  }

  lemma SameLength(value: nat, numbers: seq<nat>, hi: nat)
    requires value > 0 && hi * hi > value && ListsDivisors(numbers, value)
    ensures |numbers| == |Pairs(value, 2, hi)|
  {
    var pairs: seq<nat> := Pairs(value, 2, hi);
    forall d: nat ensures multiset(numbers)[d] == multiset(pairs)[d] {
      PairsCount(value, 2, hi, d);
      CountIsMultiplicity(value, hi, d);
    }
    assert multiset(numbers) == multiset(pairs);
    assert |multiset(numbers)| == |numbers| && |multiset(pairs)| == |pairs|;
  }

  lemma PairCountTo35(value: nat)
    requires value == 10080
    ensures PairCount(value, 2, 35) == 40
  {
    assert PairCount(10080, 2, 13) == 20;
    assert PairCount(10080, 13, 24) == 12;
    PairCountSplits(value, 2, 13, 24);
    assert PairCount(10080, 24, 35) == 8;
    PairCountSplits(value, 2, 24, 35);
  }

  lemma PairCountTo68(value: nat)
    requires value == 10080
    ensures PairCount(value, 35, 68) == 18
  {
    assert PairCount(10080, 35, 46) == 10;
    assert PairCount(10080, 46, 57) == 4;
    PairCountSplits(value, 35, 46, 57);
    assert PairCount(10080, 57, 68) == 4;
    PairCountSplits(value, 35, 57, 68);
  }

  lemma PairCountTo101(value: nat)
    requires value == 10080
    ensures PairCount(value, 68, 101) == 12
  {
    assert PairCount(10080, 68, 79) == 4;
    assert PairCount(10080, 79, 90) == 4;
    PairCountSplits(value, 68, 79, 90);
    assert PairCount(10080, 90, 101) == 4;
    PairCountSplits(value, 68, 90, 101);
  }

  lemma PairCountFor10080(value: nat)
    requires value == 10080
    ensures PairCount(value, 2, 101) == 70
  {
    hide PairCount;
    PairCountTo35(value);
    PairCountTo68(value);
    PairCountTo101(value);
    PairCountSplits(value, 2, 35, 68);
    PairCountSplits(value, 2, 68, 101);
  }

  /** A request whose responses do not fit the array: 10080 has 70 of them. */
  lemma TooManyFor10080()
    ensures |AllWritten(10080, 101, 8)| == 70 > MAX_RESPONSES
  {
    hide AllWritten, Pairs, PairCount, ListsDivisors;
    PairCountFor10080(10080);
    PairsLength(10080, 2, 101);
    RightForEveryRequest(10080, 100, 101);
    SameLength(10080, AllWritten(10080, 101, 8), 101);
  }

  // ----- One worker alone -----

  class Context {
    var responseSize: nat
    const responses: array<nat>

    constructor ()
      ensures responseSize == 0 && responses.Length == MAX_RESPONSES && fresh(responses)
    {
      responseSize := 0;
      responses := new nat[MAX_RESPONSES];
    }

    /** `responses[fetch_and_add(&response_size, 1)] = x`. The result tells whether the store
        is inside the array; after one that is not, C gives the program no meaning. */
    method Respond(x: nat) returns (inside: bool)
      modifies this`responseSize, responses
      ensures responseSize == old(responseSize) + 1
      ensures inside <==> old(responseSize) < responses.Length
      ensures responses[..] == if inside then old(responses[..])[old(responseSize) := x] else old(responses[..])
    {
      var slot := responseSize;
      responseSize := responseSize + 1;
      inside := slot < responses.Length;
      if inside {
        responses[slot] := x;
      }
    }

    /** The responses `all` are stored up to the cursor, `todo` is still to come, and the
        slots behind the cursor are as they were in `tail`. */
    ghost predicate Stored(all: seq<nat>, todo: seq<nat>, tail: seq<nat>)
      reads this, responses
    {
      && responseSize <= responses.Length == |tail|
      && responses[..responseSize] + todo == all
      && responses[responseSize..] == tail[responseSize..]
    }

    /** The two stores for one candidate. */
    method RespondBoth(i: nat, j: nat, ghost all: seq<nat>, ghost todo: seq<nat>, ghost tail: seq<nat>)
      returns (inside: bool)
      requires Stored(all, [i, j] + todo, tail)
      modifies this`responseSize, responses
      ensures inside ==> Stored(all, todo, tail)
      ensures !inside ==> |all| > responses.Length && responses[..] == all[..responses.Length]
    {
      inside := Respond(i);
      if inside {
        inside := Respond(j);
      }
    }

    /** What worker `id` does with one value read, while no other worker runs: nothing for 0,
        otherwise it appends its responses and replies, or stores past the array. */
    method Serve(value: nat, sqrtPart: nat, threads: nat, id: nat) returns (replied: bool, inside: bool)
      requires 0 < threads && value < WORD && High(RangeSize(sqrtPart, threads), id) < WORD
      requires responseSize <= responses.Length
      modifies this`responseSize, responses
      ensures value == 0 ==>
                !replied && inside && responseSize == old(responseSize) && responses[..] == old(responses[..])
      ensures value > 0 ==>
                (replied <==> inside) &&
                (inside <==> old(responseSize) + |WrittenShare(value, sqrtPart, threads, id)| <= responses.Length)
      ensures value > 0 && inside ==>
                var all := old(responses[..responseSize]) + WrittenShare(value, sqrtPart, threads, id);
                Stored(all, [], old(responses[..]))
      ensures !inside ==>
                var all := old(responses[..responseSize]) + WrittenShare(value, sqrtPart, threads, id);
                |all| > responses.Length && responses[..] == all[..responses.Length]
    {
      hide RangeSize, One, Written, WrittenShare, WrappedSquare;
      if value == 0 {
        return false, true;
      }
      var size := RangeSize(sqrtPart, threads);
      var l, r := Low(size, id), High(size, id);
      ghost var todo, tail := WrittenShare(value, sqrtPart, threads, id), responses[..];
      ghost var all := responses[..responseSize] + todo;
      WrittenShareIs(value, sqrtPart, threads, id);
      var i := l;
      while i < r && WrappedSquare(i) <= value
        invariant l <= i && todo == Written(value, i, r) && Stored(all, todo, tail)
        decreases if i < r then r - i else 0
      {
        WrittenStep(value, i, r);
        if value % i == 0 {
          var j := value / i;
          todo := Written(value, i + 1, r);
          inside := RespondBoth(i, j, all, todo, tail);
          if !inside {
            return false, false;
          }
        } else {
          todo := Written(value, i + 1, r);
        }
        i := i + 1;
      }
      WrittenEnd(value, i, r);
      return true, true;
    }
  }

  lemma WrittenShareIs(value: nat, sqrtPart: nat, threads: nat, id: nat)
    requires threads > 0
    ensures var size := RangeSize(sqrtPart, threads);
            WrittenShare(value, sqrtPart, threads, id) == Written(value, Low(size, id), High(size, id))
  {
  }

  lemma WrittenStep(value: nat, i: nat, hi: nat)
    requires 0 < i < hi && WrappedSquare(i) <= value
    ensures Written(value, i, hi)
         == (if value % i == 0 then [i, value / i] else []) + Written(value, i + 1, hi)
  {
  }

  lemma WrittenEnd(value: nat, i: nat, hi: nat)
    requires 0 < i && (i >= hi || WrappedSquare(i) > value)
    ensures Written(value, i, hi) == []
  {
  }
}
