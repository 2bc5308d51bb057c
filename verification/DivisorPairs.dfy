/** The arithmetic of one request in src/fork/divisors/main.c: how the candidates are cut
    into ranges, and what the workers write together when no square wraps. */
module DivisorPairs {
  import opened Basics

  /** What a loop over the candidates from `lo` up to `hi` writes, stopping at the root. */
  ghost function Pairs(value: nat, lo: nat, hi: nat): seq<nat>
    requires 0 < lo
    decreases hi - lo
  {
    if lo >= hi || lo * lo > value then [] else One(value, lo) + Pairs(value, lo + 1, hi)
  }

  ghost function One(value: nat, i: nat): seq<nat>
    requires 0 < i
  {
    if value % i == 0 then [i, value / i] else []
  }

  // ----- The ranges -----

  /** `step = (sqrt_part + THREADS - 1) / THREADS`. */
  function RangeSize(sqrtPart: nat, threads: nat): nat
    requires threads > 0
  {
    (sqrtPart + threads - 1) / threads
  }

  /** `l = step * id`, raised to 2. */
  function Low(size: nat, id: nat): (l: nat)
    ensures l >= 2
  {
    if size * id < 2 then 2 else size * id
  }

  function High(size: nat, id: nat): nat {
    size * (id + 1)
  }

  /** The responses that fall to worker `id`. */
  ghost function Share(value: nat, sqrtPart: nat, threads: nat, id: nat): seq<nat>
    requires threads > 0
  {
    var size := RangeSize(sqrtPart, threads);
    Pairs(value, Low(size, id), High(size, id))
  }

  ghost function Concat(parts: seq<seq<nat>>): seq<nat> {
    if parts == [] then [] else Concat(parts[..|parts| - 1]) + parts[|parts| - 1]
  }

  ghost function Shares(value: nat, sqrtPart: nat, threads: nat, count: nat): (parts: seq<seq<nat>>)
    requires threads > 0
    ensures |parts| == count
  {
    seq(count, id requires 0 <= id < count => Share(value, sqrtPart, threads, id))
  }

  lemma ConcatLast(parts: seq<seq<nat>>, d: nat)
    requires parts != []
    ensures var n := |parts| - 1;
            multiset(Concat(parts))[d] == multiset(Concat(parts[..n]))[d] + multiset(parts[n])[d]
  {
    var n := |parts| - 1;
    assert multiset(Concat(parts)) == multiset(Concat(parts[..n])) + multiset(parts[n]);
  }

  lemma {:induction false} ConcatUpdate(parts: seq<seq<nat>>, i: nat, part: seq<nat>, d: nat)
    requires i < |parts|
    ensures multiset(Concat(parts[i := part]))[d] + multiset(parts[i])[d]
            == multiset(Concat(parts))[d] + multiset(part)[d]
  {
    var n, parts' := |parts| - 1, parts[i := part];
    ConcatLast(parts, d);
    ConcatLast(parts', d);
    if i == n {
      assert parts'[..n] == parts[..n];
    } else {
      assert parts'[..n] == parts[..n][i := part];
      ConcatUpdate(parts[..n], i, part, d);
    }
  }

  lemma {:induction false} ConcatEmpty(parts: seq<seq<nat>>)
    requires forall i :: 0 <= i < |parts| ==> parts[i] == []
    ensures Concat(parts) == []
  {
    if parts == [] {
    } else {
      ConcatEmpty(parts[..|parts| - 1]);
    }
  }

  lemma {:induction false} PairsPastRoot(value: nat, lo: nat, hi: nat)
    requires 0 < lo && lo * lo > value
    ensures Pairs(value, lo, hi) == []
  {
  }

  /** Two adjacent ranges do what their union does, although each stops at the root. */
  lemma {:induction false} PairsSplit(value: nat, lo: nat, mid: nat, hi: nat)
    requires 0 < lo <= mid <= hi
    ensures Pairs(value, lo, mid) + Pairs(value, mid, hi) == Pairs(value, lo, hi)
    decreases mid - lo
  {
    if lo == mid {
    } else if lo * lo > value {
      assert mid * mid >= lo * lo by { Square(lo, mid); }
      PairsPastRoot(value, mid, hi);
    } else {
      PairsSplit(value, lo + 1, mid, hi);
    }
  }

  lemma Square(a: nat, b: nat)
    requires a <= b
    ensures a * a <= a * b <= b * b
  {
  }

  lemma {:induction false} SharesJoin(value: nat, sqrtPart: nat, threads: nat, count: nat)
    requires threads > 0
    ensures var size := RangeSize(sqrtPart, threads);
            Concat(Shares(value, sqrtPart, threads, count)) == Pairs(value, 2, size * count)
  {
    var size := RangeSize(sqrtPart, threads);
    if count == 0 {
    } else {
      var parts := Shares(value, sqrtPart, threads, count);
      assert parts[..count - 1] == Shares(value, sqrtPart, threads, count - 1);
      SharesJoin(value, sqrtPart, threads, count - 1);
      var mid, hi := size * (count - 1), size * count;
      assert High(size, count - 1) == hi && mid <= hi;
      if mid >= 2 {
        PairsSplit(value, 2, mid, hi);
      }
    }
  }

  lemma RangesReachRoot(sqrtPart: nat, threads: nat)
    requires threads > 0
    ensures RangeSize(sqrtPart, threads) * threads - threads < sqrtPart <= RangeSize(sqrtPart, threads) * threads
  {
    var n := sqrtPart + threads - 1;
    assert n == (n / threads) * threads + n % threads;
  }

  // ----- What the responses are -----

  /** How often `d` must be among the responses: every divisor of `value` other than 1 and
      `value` once, except that the root of a perfect square comes as `i` and as `j`. */
  function Multiplicity(value: nat, d: nat): nat {
    if 1 < d < value && value % d == 0 then (if d * d == value then 2 else 1) else 0
  }

  /** `d` is written as `i`. */
  predicate AsSmall(value: nat, lo: nat, hi: nat, d: nat) {
    lo <= d < hi && d * d <= value && d > 0 && value % d == 0
  }

  /** `d` is written as `j`, which is the case when its cofactor is written as `i`. */
  predicate AsLarge(value: nat, lo: nat, hi: nat, d: nat) {
    d > 0 && value % d == 0 && AsSmall(value, lo, hi, value / d)
  }

  lemma Cofactor(value: nat, i: nat, d: nat)
    requires value > 0 && i > 0 && value % i == 0
    ensures value / i == d <==> d > 0 && value % d == 0 && value / d == i
  {
    if d > 0 && value % d == 0 && value / d == i {
      CofactorOnce(value, d);
    }
    if value / i == d {
      CofactorOnce(value, i);
    }
  }

  lemma CofactorOnce(value: nat, i: nat)
    requires value > 0 && i > 0 && value % i == 0
    ensures var d := value / i; d > 0 && value % d == 0 && value / d == i
  {
    var d := value / i;
    assert value == i * d;
    MulDiv(i, d);
  }

  lemma MulDiv(a: nat, b: nat)
    requires b > 0
    ensures (a * b) / b == a && (a * b) % b == 0
  {
    DivMod(a * b, b, a, 0);
  }

  function Count(value: nat, lo: nat, hi: nat, d: nat): nat {
    (if AsSmall(value, lo, hi, d) then 1 else 0) + (if AsLarge(value, lo, hi, d) then 1 else 0)
  }

  /** What one candidate adds to the count of `d`. */
  lemma OneCount(value: nat, i: nat, d: nat)
    requires 0 < i
    ensures multiset(One(value, i))[d] ==
            if value % i == 0 then (if i == d then 1 else 0) + (if value / i == d then 1 else 0) else 0
  {
    assert value % i == 0 ==> multiset(One(value, i)) == multiset{i, value / i};
  }

  lemma AddCounts(a: seq<nat>, b: seq<nat>, d: nat)
    ensures multiset(a + b)[d] == multiset(a)[d] + multiset(b)[d]
  {
    assert multiset(a + b) == multiset(a) + multiset(b);
  }

  lemma CountPastRoot(value: nat, lo: nat, hi: nat, d: nat)
    requires 0 < lo && (lo >= hi || lo * lo > value)
    ensures Count(value, lo, hi, d) == 0
  {
    if lo <= d { Square(lo, d); }
    if d > 0 && lo <= value / d { Square(lo, value / d); }
  }

  lemma {:induction false} PairsCount(value: nat, lo: nat, hi: nat, d: nat)
    requires value > 0 && 0 < lo
    ensures multiset(Pairs(value, lo, hi))[d] == Count(value, lo, hi, d)
    decreases hi - lo
  {
    hide Count, One;
    if lo >= hi || lo * lo > value {
      CountPastRoot(value, lo, hi, d);
    } else {
      PairsCount(value, lo + 1, hi, d);
      AddCounts(One(value, lo), Pairs(value, lo + 1, hi), d);
      CountStep(value, lo, hi, d);
    }
  }

  lemma CountStep(value: nat, lo: nat, hi: nat, d: nat)
    requires value > 0 && 0 < lo < hi && lo * lo <= value
    ensures Count(value, lo, hi, d) == Count(value, lo + 1, hi, d) + multiset(One(value, lo))[d]
  {
    OneCount(value, lo, d);
    RangeStep(value, lo, hi, d);
    assert !AsSmall(value, lo + 1, hi, lo);
    if value % lo == 0 {
      Cofactor(value, lo, d);
    }
  }

  lemma RangeStep(value: nat, lo: nat, hi: nat, d: nat)
    requires value > 0 && 0 < lo < hi && lo * lo <= value
    ensures AsSmall(value, lo, hi, d) <==> AsSmall(value, lo + 1, hi, d) || (value % lo == 0 && lo == d)
    ensures AsLarge(value, lo, hi, d) <==> AsLarge(value, lo + 1, hi, d) || (value % lo == 0 && value / lo == d)
  {
    if value % lo == 0 {
      Cofactor(value, lo, d);
    }
  }

  /** For a range that starts at 2 and passes the root, the count is the multiplicity. */
  lemma CountIsMultiplicity(value: nat, hi: nat, d: nat)
    requires value > 0 && hi * hi > value
    ensures Count(value, 2, hi, d) == Multiplicity(value, d)
  {
    if d > 0 && value % d == 0 {
      var e := value / d;
      assert value == d * e;
      assert e > 0;
      CofactorOrder(d, e);
      if d >= hi { Square(hi, d); }
      if e >= hi { Square(hi, e); }
      assert value % e == 0 by { MulDiv(d, e); }
    }
  }

  lemma CofactorOrder(d: nat, e: nat)
    requires d > 0 && e > 0
    ensures d * d <= d * e <==> d <= e
    ensures e * e <= d * e <==> e <= d
    ensures d * d == d * e <==> d == e
    ensures e < 2 <==> d * e == d
    ensures e == 1 || d < d * e
  {
    if d < e { MulLess(d, e, d); MulLess(d, e, e); }
    if e < d { MulLess(e, d, d); MulLess(e, d, e); }
    if e > 1 { MulLess(1, e, d); }
  }

  /** The shares of all workers hold every candidate once: together they are exactly the
      divisors, each as often as it should be, for any number of workers. */
  lemma SharesAreTheDivisors(value: nat, sqrtPart: nat, threads: nat, d: nat)
    requires value > 0 && threads > 0 && sqrtPart * sqrtPart > value
    ensures multiset(Concat(Shares(value, sqrtPart, threads, threads)))[d] == Multiplicity(value, d)
  {
    var hi := RangeSize(sqrtPart, threads) * threads;
    SharesJoin(value, sqrtPart, threads, threads);
    RangesReachRoot(sqrtPart, threads);
    Square(sqrtPart, hi);
    PairsCount(value, 2, hi, d);
    CountIsMultiplicity(value, hi, d);
  }
}
