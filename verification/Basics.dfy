/** Definitions and arithmetic shared by several programs. */
module Basics {

  datatype Option<T> = None | Some(value: T)

  type byte = b: int | 0 <= b < 256

  /** Bytes of a `size_t` or `uint64_t`, and the number of its values. */
  const WORD_BYTES := 8
  const WORD := 0x1_0000_0000_0000_0000

  function Power(base: nat, n: nat): nat {
    if n == 0 then 1 else base * Power(base, n - 1)
  }

  lemma WordIs()
    ensures Power(256, WORD_BYTES) == WORD
  {
  }

  function Least(a: nat, b: nat): nat {
    if a < b then a else b
  }

  function Sum(s: seq<nat>): nat {
    if s == [] then 0 else Sum(s[..|s| - 1]) + s[|s| - 1]
  }

  lemma {:induction false} SumUpdate(s: seq<nat>, i: nat, x: nat)
    requires i < |s|
    ensures Sum(s[i := x]) + s[i] == Sum(s) + x
  {
    var n := |s| - 1;
    if i == n {
      assert s[i := x][..n] == s[..n];
    } else {
      assert s[i := x][..n] == s[..n][i := x];
      SumUpdate(s[..n], i, x);
    }
  }

  lemma {:induction false} SumAtMost(a: seq<nat>, b: seq<nat>)
    requires |a| == |b| && forall i :: 0 <= i < |a| ==> a[i] <= b[i]
    ensures Sum(a) <= Sum(b)
  {
    if a == [] {
    } else {
      SumAtMost(a[..|a| - 1], b[..|b| - 1]);
    }
  }

  lemma SumDrops(a: seq<nat>, b: seq<nat>, i: nat)
    requires |a| == |b| && i < |a| && a[i] < b[i] && forall j :: 0 <= j < |a| ==> a[j] <= b[j]
    ensures Sum(a) < Sum(b)
  {
    SumAtMost(a[i := b[i]], b);
    SumUpdate(a, i, b[i]);
  }

  lemma {:induction false} SumOfSame(s: seq<nat>, x: nat)
    requires forall i :: 0 <= i < |s| ==> s[i] == x
    ensures Sum(s) == |s| * x
  {
    if s == [] {
    } else {
      SumOfSame(s[..|s| - 1], x);
      assert |s| * x == (|s| - 1) * x + x;
    }
  }

  /** The weights of all items together. */
  function Total<T>(items: seq<T>, weight: T -> nat): nat {
    Sum(seq(|items|, i requires 0 <= i < |items| => weight(items[i])))
  }

  lemma TotalUpdate<T>(items: seq<T>, i: nat, x: T, weight: T -> nat)
    requires i < |items|
    ensures Total(items[i := x], weight) + weight(items[i]) == Total(items, weight) + weight(x)
  {
    var weights := seq(|items|, k requires 0 <= k < |items| => weight(items[k]));
    assert seq(|items|, k requires 0 <= k < |items| => weight(items[i := x][k])) == weights[i := weight(x)];
    SumUpdate(weights, i, weight(x));
  }

  lemma TotalOfOnes<T>(items: seq<T>, weight: T -> nat)
    requires forall i :: 0 <= i < |items| ==> weight(items[i]) == 1
    ensures Total(items, weight) == |items|
  {
    SumOfSame(seq(|items|, i requires 0 <= i < |items| => weight(items[i])), 1);
  }

  lemma TotalOfZeros<T>(items: seq<T>, weight: T -> nat)
    requires forall i :: 0 <= i < |items| ==> weight(items[i]) == 0
    ensures Total(items, weight) == 0
  {
    SumOfSame(seq(|items|, i requires 0 <= i < |items| => weight(items[i])), 0);
  }

  /** Where no weight is more than 1, an item of weight 0 makes the total less than the number. */
  lemma TotalWithZero<T>(items: seq<T>, weight: T -> nat, i: nat)
    requires i < |items| && weight(items[i]) == 0 && forall j :: 0 <= j < |items| ==> weight(items[j]) <= 1
    ensures Total(items, weight) < |items|
  {
    var ones := seq(|items|, _ => 1);
    SumDrops(seq(|items|, j requires 0 <= j < |items| => weight(items[j])), ones, i);
    SumOfSame(ones, 1);
  }

  ghost predicate Distinct<T>(s: seq<T>) {
    forall i, j :: 0 <= i < j < |s| ==> s[i] != s[j]
  }

  /** `memcpy(&dst[at], &src[from], n)` between arrays that do not overlap. */
  method Memcpy<T>(dst: array<T>, at: nat, src: array<T>, from: nat, n: nat)
    requires dst != src
    requires at + n <= dst.Length && from + n <= src.Length
    modifies dst
    ensures forall p :: 0 <= p < dst.Length ==>
              dst[p] == if at <= p < at + n then src[from + p - at] else old(dst[p])
  {
    for i := 0 to n
      invariant forall p :: 0 <= p < dst.Length ==>
                  dst[p] == if at <= p < at + i then src[from + p - at] else old(dst[p])
    {
      dst[at + i] := src[from + i];
    }
  }

  lemma MulLess(a: nat, b: nat, c: nat)
    requires a < b && 0 < c
    ensures a * c + c <= b * c
  {
    var k := b - a - 1;
    assert b * c == (a + 1 + k) * c == a * c + c + k * c;
  }

  lemma Smaller(a: nat, b: nat, t: nat)
    requires a * t < b * t
    ensures a < b
  {
    assert a >= b ==> (a - b) * t >= 0;
  }

  lemma PositiveFactor(a: nat, b: nat)
    requires a * b > 0
    ensures a > 0
  {
  }

  /** Quotient and remainder are unique. */
  lemma DivMod(a: int, d: nat, q: int, r: nat)
    requires d > 0 && r < d && a == d * q + r
    ensures a / d == q && a % d == r
  {
    var k := q - a / d;
    assert d * k == a % d - r;
    assert k >= 1 ==> d * k >= d;
    assert k <= -1 ==> d * k + d <= 0;
  }
}
