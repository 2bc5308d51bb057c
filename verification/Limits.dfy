/** The derivative graph of src/nn in the sense of analysis: where an expression is
    defined, its difference quotients converge to the value of its derivative. */
module Limits {
  import opened Expression

  function Abs(x: real): real {
    if x < 0.0 then -x else x
  }

  function Least(x: real, y: real): real {
    if x < y then x else y
  }

  /** Within distance `d` of zero, `f` moves at most `k` times as far as its argument. */
  ghost predicate Near(f: real -> real, k: real, d: real) {
    k >= 0.0 && d > 0.0 && forall h: real {:trigger f(h)} :: Abs(h) < d ==> Abs(f(h) - f(0.0)) <= Times(k, Abs(h))
  }

  // ----- Arithmetic of bounds, one point at a time -----

  lemma ProductBound(x: real, y: real, a: real, b: real)
    requires Abs(x) <= a && Abs(y) <= b
    ensures Abs(Times(x, y)) <= Times(a, b)
  {
    AbsTimes(x, y);
    Grow(Abs(x), a, Abs(y));
    Grow(Abs(y), b, a);
  }

  lemma Grow(k: real, k': real, t: real)
    requires k <= k' && 0.0 <= t
    ensures Times(k, t) <= Times(k', t)
  {
    assert (k' - k) * t >= 0.0;
  }

  lemma Factor(a: real, b: real, t: real)
    ensures Times(a + b, t) == Times(a, t) + Times(b, t)
    ensures Times(Times(a, t), b) == Times(Times(a, b), t)
    ensures Times(a, Times(b, t)) == Times(Times(a, b), t)
    ensures Times(a, b) == Times(b, a)
    ensures Times(a, Times(b, t)) == Times(Times(b, a), t)
    ensures Times(a, b * t) == Times(b * a, t)
  {
  }

  lemma ProductMoves(f: real, f0: real, g: real, g0: real, kf: real, kg: real, m: real, t: real)
    requires Abs(f - f0) <= Times(kf, t) && Abs(g - g0) <= Times(kg, t) && Abs(g) <= m
    ensures Abs(Times(f, g) - Times(f0, g0)) <= Times(Times(kf, m) + Times(Abs(f0), kg), t)
  {
    var x, y := Times(f - f0, g), Times(f0, g - g0);
    assert Times(f, g) - Times(f0, g0) == x + y by { Expand(f, f0, g, g0); }
    ProductBound(f - f0, g, Times(kf, t), m);
    ProductBound(f0, g - g0, Abs(f0), Times(kg, t));
    Factor(kf, m, t);
    Factor(Abs(f0), kg, t);
    Factor(Times(kf, m), Times(Abs(f0), kg), t);
  }

  lemma Expand(f: real, f0: real, g: real, g0: real)
    ensures Times(f, g) - Times(f0, g0) == Times(f - f0, g) + Times(f0, g - g0)
  {
  }

  lemma InverseDifference(g: real, g0: real)
    requires g != 0.0 && g0 != 0.0
    ensures Quotient(1.0, g) - Quotient(1.0, g0) == Times(g0 - g, Times(Quotient(1.0, g), Quotient(1.0, g0)))
  {
    var r, r0 := 1.0 / g, 1.0 / g0;
    assert r * g == 1.0 && r0 * g0 == 1.0;
    calc {
      (g0 - g) * (r * r0);
      (r0 * g0) * r - (r * g) * r0;
      r - r0;
    }
  }

  lemma InverseTimes(g: real)
    requires g != 0.0
    ensures Times(Quotient(1.0, g), g) == 1.0
  {
  }

  lemma InverseBound(g: real, g0: real)
    requires g0 != 0.0 && Abs(g0) <= 2.0 * Abs(g)
    ensures Abs(Quotient(1.0, g)) <= 2.0 * Abs(Quotient(1.0, g0))
  {
    var r, r0 := Quotient(1.0, g), Quotient(1.0, g0);
    InverseTimes(g);
    InverseTimes(g0);
    AbsTimes(r, g);
    AbsTimes(r0, g0);
    hide Times, Quotient;
    GrowRight(Abs(r0), Abs(g0), 2.0 * Abs(g));
    Factor(Abs(r0), 2.0, Abs(g));
    CancelPositive(Abs(r), 2.0 * Abs(r0), Abs(g));
  }

  lemma AbsTimes(x: real, y: real)
    ensures Abs(Times(x, y)) == Times(Abs(x), Abs(y))
  {
  }

  lemma CancelPositive(x: real, y: real, s: real)
    requires s > 0.0 && Times(x, s) <= Times(y, s)
    ensures x <= y
  {
    assert (x - y) * s <= 0.0;
  }

  /** A value within half of `g0` of `g0` is at least half as large. */
  lemma InverseMoves(g: real, g0: real, k: real, t: real)
    requires g0 != 0.0 && Abs(g - g0) <= Times(k, t) && Abs(g - g0) <= Abs(g0) / 2.0
    ensures g != 0.0
    ensures var m := Abs(Quotient(1.0, g0));
            Abs(Quotient(1.0, g) - Quotient(1.0, g0)) <= Times(Times(k, Times(2.0 * m, m)), t)
  {
    hide Quotient;
    var r, r0 := Quotient(1.0, g), Quotient(1.0, g0);
    var m := Abs(r0);
    InverseDifference(g, g0);
    InverseBound(g, g0);
    ProductBound(r, r0, 2.0 * m, m);
    ProductBound(g0 - g, Times(r, r0), Times(k, t), Times(2.0 * m, m));
    Factor(k, Times(2.0 * m, m), t);
  }

  // ----- Functions that move no faster than their argument -----

  lemma NearConstant(p: real -> real)
    requires forall h: real {:trigger p(h)} :: p(h) == p(0.0)
    ensures Near(p, 0.0, 1.0)
  {
  }

  lemma NearSum(f: real -> real, g: real -> real, p: real -> real, kf: real, df: real, kg: real, dg: real)
    requires Near(f, kf, df) && Near(g, kg, dg)
    requires || (forall h: real {:trigger p(h)} :: p(h) == f(h) + g(h))
             || (forall h: real {:trigger p(h)} :: p(h) == f(h) - g(h))
    ensures Near(p, kf + kg, Least(df, dg))
  {
    hide Times, Quotient;
    forall h: real | Abs(h) < Least(df, dg) ensures Abs(p(h) - p(0.0)) <= Times(kf + kg, Abs(h)) {
      Factor(kf, kg, Abs(h));
      assert Abs(f(h) - f(0.0)) <= Times(kf, Abs(h)) && Abs(g(h) - g(0.0)) <= Times(kg, Abs(h));
    }
  }

  lemma NearProduct(f: real -> real, g: real -> real, p: real -> real, kf: real, df: real, kg: real, dg: real)
    returns (k: real, d: real)
    requires Near(f, kf, df) && Near(g, kg, dg)
    requires forall h: real {:trigger p(h)} :: p(h) == Times(f(h), g(h))
    ensures Near(p, k, d) && d <= df && d <= dg
  {
    hide Times, Quotient;
    d := Least(df, dg);
    var m := Abs(g(0.0)) + Times(kg, d);
    k := Times(kf, m) + Times(Abs(f(0.0)), kg);
    Nonnegative(kg, d);
    Nonnegative(kf, m);
    Nonnegative(Abs(f(0.0)), kg);
    forall h: real | Abs(h) < d ensures Abs(p(h) - p(0.0)) <= Times(k, Abs(h)) {
      assert Abs(f(h) - f(0.0)) <= Times(kf, Abs(h)) && Abs(g(h) - g(0.0)) <= Times(kg, Abs(h));
      GrowRight(kg, Abs(h), d);
      ProductMoves(f(h), f(0.0), g(h), g(0.0), kf, kg, m, Abs(h));
    }
  }

  lemma NearScaled(f: real -> real, c: real, p: real -> real, kf: real, df: real) returns (k: real, d: real)
    requires Near(f, kf, df)
    requires forall h: real {:trigger p(h)} :: p(h) == Times(f(h), c)
    ensures Near(p, k, d)
  {
    var g := (h: real) => c;
    NearConstant(g);
    k, d := NearProduct(f, g, p, kf, df, 0.0, 1.0);
  }

  lemma Nonnegative(x: real, y: real)
    requires x >= 0.0 && y >= 0.0
    ensures Times(x, y) >= 0.0
  {
  }

  lemma GrowRight(k: real, t: real, t': real)
    requires k >= 0.0 && t <= t'
    ensures Times(k, t) <= Times(k, t')
  {
    Grow(t, t', k);
  }

  lemma NearInverse(g: real -> real, p: real -> real, kg: real, dg: real)
    returns (k: real, d: real)
    requires Near(g, kg, dg) && g(0.0) != 0.0
    requires forall h: real {:trigger p(h)} :: p(h) == Quotient(1.0, g(h))
    ensures Near(p, k, d) && d <= dg && forall h: real {:trigger g(h)} :: Abs(h) < d ==> g(h) != 0.0
  {
    hide Times, Quotient;
    var g0 := g(0.0);
    var m, room := Abs(Quotient(1.0, g0)), Quotient(Abs(g0) / 2.0, kg + 1.0);
    RoomIsEnough(Abs(g0) / 2.0, kg);
    d := Least(dg, room);
    k := Times(kg, Times(2.0 * m, m));
    Nonnegative(2.0 * m, m);
    Nonnegative(kg, Times(2.0 * m, m));
    forall h: real | Abs(h) < d ensures Abs(p(h) - p(0.0)) <= Times(k, Abs(h)) && g(h) != 0.0 {
      assert Abs(g(h) - g0) <= Times(kg, Abs(h));
      GrowRight(kg, Abs(h), room);
      InverseMoves(g(h), g0, kg, Abs(h));
    }
  }

  lemma RoomIsEnough(eps: real, k: real)
    requires eps > 0.0 && k >= 0.0
    ensures var room := Quotient(eps, k + 1.0); room > 0.0 && Times(k, room) < eps
  {
    var room := eps / (k + 1.0);
    assert room * (k + 1.0) == eps;
    assert room <= 0.0 ==> room * (k + 1.0) <= 0.0;
    assert k * room == eps - room;
  }

  lemma QuotientIsProduct(a: real, b: real)
    requires b != 0.0
    ensures Quotient(a, b) == Times(a, Quotient(1.0, b))
  {
    var r := 1.0 / b;
    assert r * b == 1.0;
    assert (a * r) * b == a * (r * b);
    FractionEquals(a, b, a * r);
  }

  lemma NearQuotient(f: real -> real, g: real -> real, p: real -> real, kf: real, df: real, kg: real, dg: real)
    returns (k: real, d: real)
    requires Near(f, kf, df) && Near(g, kg, dg) && g(0.0) != 0.0
    requires forall h: real {:trigger p(h)} :: p(h) == Quotient(f(h), g(h))
    ensures Near(p, k, d) && d <= df && d <= dg && forall h: real {:trigger g(h)} :: Abs(h) < d ==> g(h) != 0.0
  {
    hide Times, Quotient, Near, Abs;
    var inv := InverseOf(g);
    var ki, di := NearInverse(g, inv, kg, dg);
    var q := ProductOf(f, inv);
    k, d := NearProduct(f, inv, q, kf, df, ki, di);
    SameQuotient(f, g, p, d);
    NearSame(q, p, k, d);
  }

  ghost function InverseOf(g: real -> real): real -> real {
    (h: real) => Quotient(1.0, g(h))
  }

  ghost function ProductOf(f: real -> real, g: real -> real): real -> real {
    (h: real) => Times(f(h), g(h))
  }

  lemma SameQuotient(f: real -> real, g: real -> real, p: real -> real, d: real)
    requires forall h: real {:trigger g(h)} :: Abs(h) < d ==> g(h) != 0.0
    requires forall h: real {:trigger p(h)} :: p(h) == Quotient(f(h), g(h))
    ensures forall h: real {:trigger p(h)} :: Abs(h) < d ==> p(h) == ProductOf(f, InverseOf(g))(h)
  {
    hide Times, Quotient, Abs;
    forall h: real | Abs(h) < d ensures p(h) == ProductOf(f, InverseOf(g))(h) {
      QuotientIsProduct(f(h), g(h));
    }
  }

  lemma NearSame(q: real -> real, p: real -> real, k: real, d: real)
    requires Near(q, k, d) && forall h: real {:trigger p(h)} :: Abs(h) < d ==> p(h) == q(h)
    ensures Near(p, k, d)
  {
  }

  // ----- Expressions -----

  ghost function EvalAt(e: Expr, v: Address, mem: Memory): real -> real
    requires v in mem
  {
    (h: real) => Eval(e, Shift(mem, v, h))
  }

  ghost function SlopeAt(e: Expr, v: Address, mem: Memory): real -> real
    requires v in mem
  {
    (h: real) => Slope(e, v, mem, h)
  }

  ghost predicate DefinedNear(e: Expr, v: Address, mem: Memory, d: real)
    requires v in mem
  {
    forall h: real {:trigger Shift(mem, v, h)} :: Abs(h) < d ==> Defined(e, Shift(mem, v, h))
  }

  lemma {:induction false} EvalNear(e: Expr, v: Address, mem: Memory) returns (k: real, d: real)
    requires v in mem && Defined(e, mem)
    ensures Near(EvalAt(e, v, mem), k, d) && DefinedNear(e, v, mem, d)
  {
    hide Times, Quotient, Near, Abs;
    ShiftByZero(mem, v);
    var p := EvalAt(e, v, mem);
    match e
    case Placeholder(r) =>
      k, d := 1.0, 1.0;
      NearShift(p, if r == v then 1.0 else 0.0);
    case Constant(_) =>
      NearConstant(p);
      k, d := 0.0, 1.0;
    case Mul(a, b) =>
      var ka, da := EvalNear(a, v, mem);
      var kb, db := EvalNear(b, v, mem);
      k, d := NearProduct(EvalAt(a, v, mem), EvalAt(b, v, mem), p, ka, da, kb, db);
    case Div(a, b) =>
      var ka, da := EvalNear(a, v, mem);
      var kb, db := EvalNear(b, v, mem);
      k, d := NearQuotient(EvalAt(a, v, mem), EvalAt(b, v, mem), p, ka, da, kb, db);
      forall h: real | Abs(h) < d ensures Defined(e, Shift(mem, v, h)) {
        assert EvalAt(b, v, mem)(h) != 0.0;
      }
    case _ =>
      var ka, da := EvalNear(e.a, v, mem);
      var kb, db := EvalNear(e.b, v, mem);
      NearSum(EvalAt(e.a, v, mem), EvalAt(e.b, v, mem), p, ka, da, kb, db);
      k, d := ka + kb, Least(da, db);
  }

  lemma NearShift(p: real -> real, c: real)
    requires c == 0.0 || c == 1.0
    requires forall h: real {:trigger p(h)} :: p(h) == p(0.0) + c * h
    ensures Near(p, 1.0, 1.0)
  {
  }

  lemma {:induction false} SlopeNear(e: Expr, v: Address, mem: Memory) returns (k: real, d: real)
    requires v in mem && Defined(e, mem)
    ensures Near(SlopeAt(e, v, mem), k, d)
    decreases e, 2
  {
    hide Times, Quotient, Near, Abs;
    ShiftByZero(mem, v);
    var p := SlopeAt(e, v, mem);
    match e
    case Placeholder(_) =>
      NearConstant(p);
      k, d := 0.0, 1.0;
    case Constant(_) =>
      NearConstant(p);
      k, d := 0.0, 1.0;
    case Mul(a, b) =>
      k, d := ProductSlopeNear(a, b, v, mem);
    case Div(a, b) =>
      k, d := QuotientSlopeNear(a, b, v, mem);
    case _ =>
      var ka, da := SlopeNear(e.a, v, mem);
      var kb, db := SlopeNear(e.b, v, mem);
      NearSum(SlopeAt(e.a, v, mem), SlopeAt(e.b, v, mem), p, ka, da, kb, db);
      k, d := ka + kb, Least(da, db);
  }

  lemma {:induction false} ProductSlopeNear(a: Expr, b: Expr, v: Address, mem: Memory) returns (k: real, d: real)
    requires v in mem && Defined(a, mem) && Defined(b, mem)
    ensures Near(SlopeAt(Mul(a, b), v, mem), k, d)
    decreases Mul(a, b), 0
  {
    hide Times, Quotient, Near, Abs, Least;
    var ka, da := SlopeNear(a, v, mem);
    var kb, db := SlopeNear(b, v, mem);
    var ke, de := EvalNear(b, v, mem);
    var l := (h: real) => Times(Slope(a, v, mem, h), Eval(b, Shift(mem, v, h)));
    var r := (h: real) => Times(Slope(b, v, mem, h), Eval(a, mem));
    var kl, dl := NearProduct(SlopeAt(a, v, mem), EvalAt(b, v, mem), l, ka, da, ke, de);
    var kr, dr := NearScaled(SlopeAt(b, v, mem), Eval(a, mem), r, kb, db);
    NearSum(l, r, SlopeAt(Mul(a, b), v, mem), kl, dl, kr, dr);
    k, d := kl + kr, Least(dl, dr);
  }

  /** The numerator of the slope of a quotient. */
  lemma {:induction false} NumeratorNear(a: Expr, b: Expr, v: Address, mem: Memory, n: real -> real)
    returns (k: real, d: real)
    requires v in mem && Defined(a, mem) && Defined(b, mem)
    requires forall h: real {:trigger n(h)} ::
               n(h) == Times(Slope(a, v, mem, h), Eval(b, mem)) - Times(Slope(b, v, mem, h), Eval(a, mem))
    ensures Near(n, k, d)
    decreases Div(a, b), 0
  {
    hide Times, Quotient, Near, Abs, Least;
    var ka, da := SlopeNear(a, v, mem);
    var kb, db := SlopeNear(b, v, mem);
    var l := (h: real) => Times(Slope(a, v, mem, h), Eval(b, mem));
    var r := (h: real) => Times(Slope(b, v, mem, h), Eval(a, mem));
    var kl, dl := NearScaled(SlopeAt(a, v, mem), Eval(b, mem), l, ka, da);
    var kr, dr := NearScaled(SlopeAt(b, v, mem), Eval(a, mem), r, kb, db);
    NearSum(l, r, n, kl, dl, kr, dr);
    k, d := kl + kr, Least(dl, dr);
  }

  lemma {:induction false} QuotientSlopeNear(a: Expr, b: Expr, v: Address, mem: Memory) returns (k: real, d: real)
    requires v in mem && Defined(Div(a, b), mem)
    ensures Near(SlopeAt(Div(a, b), v, mem), k, d)
    decreases Div(a, b), 1
  {
    hide Times, Quotient, Near, Abs, Least;
    ShiftByZero(mem, v);
    var n := (h: real) =>
      Times(Slope(a, v, mem, h), Eval(b, mem)) - Times(Slope(b, v, mem, h), Eval(a, mem));
    var s := (h: real) => Times(Eval(b, Shift(mem, v, h)), Eval(b, mem));
    var kn, dn := NumeratorNear(a, b, v, mem, n);
    var kb, db := EvalNear(b, v, mem);
    var ks, ds := NearScaled(EvalAt(b, v, mem), Eval(b, mem), s, kb, db);
    SquareNotZero(Eval(b, mem));
    k, d := NearQuotient(n, s, SlopeAt(Div(a, b), v, mem), kn, dn, ks, ds);
  }

  // ----- The limit -----

  /** The difference quotient for a step `h`. */
  ghost function DifferenceQuotient(e: Expr, v: Address, mem: Memory, h: real): real
    requires v in mem
  {
    Quotient(Eval(e, Shift(mem, v, h)) - Eval(e, mem), h)
  }

  /** For all steps `h` shorter than `delta`, `e` stays defined and its difference quotient
      is within `eps` of `limit`. */
  ghost predicate ConvergesWithin(e: Expr, v: Address, mem: Memory, limit: real, eps: real, delta: real)
    requires v in mem
  {
    forall h: real {:trigger Shift(mem, v, h)} :: -delta < h < delta && h != 0.0 ==>
      && Defined(e, Shift(mem, v, h))
      && limit - eps < (Eval(e, Shift(mem, v, h)) - Eval(e, mem)) / h < limit + eps
  }

  /** Wherever an expression is defined, its difference quotients converge to the value of
      the derivative expression. */
  lemma DerivativeIsLimit(e: Expr, v: Address, mem: Memory, eps: real) returns (delta: real)
    requires v in mem && Defined(e, mem) && eps > 0.0
    ensures delta > 0.0 && Defined(D(e, v), mem)
    ensures ConvergesWithin(e, v, mem, Eval(D(e, v), mem), eps, delta)
  {
    hide Times, Quotient, Near, Defined, Eval, Slope, D, DifferenceQuotient;
    var k0, d1 := EvalNear(e, v, mem);
    var k, d2 := SlopeNear(e, v, mem);
    NearRange(EvalAt(e, v, mem), k0, d1);
    NearRange(SlopeAt(e, v, mem), k, d2);
    DerivativeIsSlope(e, v, mem);
    RoomIsEnough(eps, k);
    delta := Least(Least(d1, d2), Quotient(eps, k + 1.0));
    forall h: real | -delta < h < delta && h != 0.0
      ensures Defined(e, Shift(mem, v, h))
      ensures var limit := Eval(D(e, v), mem);
              limit - eps < (Eval(e, Shift(mem, v, h)) - Eval(e, mem)) / h < limit + eps
    {
      assert Abs(h) < delta;
      QuotientIsClose(e, v, mem, h, k, d2, Quotient(eps, k + 1.0));
      DifferenceQuotientIs(e, v, mem, h);
    }
  }

  lemma DifferenceQuotientIs(e: Expr, v: Address, mem: Memory, h: real)
    requires v in mem && h != 0.0
    ensures DifferenceQuotient(e, v, mem, h) == (Eval(e, Shift(mem, v, h)) - Eval(e, mem)) / h
  {
  }

  lemma NearRange(f: real -> real, k: real, d: real)
    requires Near(f, k, d)
    ensures k >= 0.0 && d > 0.0
  {
  }

  lemma QuotientIsClose(e: Expr, v: Address, mem: Memory, h: real, k: real, d: real, room: real)
    requires v in mem && Defined(e, mem) && Defined(e, Shift(mem, v, h))
    requires Near(SlopeAt(e, v, mem), k, d) && 0.0 < Abs(h) < d && Abs(h) <= room
    ensures Abs(DifferenceQuotient(e, v, mem, h) - Slope(e, v, mem, 0.0)) <= Times(k, room)
  {
    hide Times, Quotient, Slope, Eval, Defined;
    var slope := SlopeAt(e, v, mem);
    assert Abs(slope(h) - slope(0.0)) <= Times(k, Abs(h));
    GrowRight(k, Abs(h), room);
    DifferenceIsSlope(e, v, mem, h);
    QuotientOfProduct(h, Slope(e, v, mem, h));
  }

  lemma QuotientOfProduct(h: real, s: real)
    requires h != 0.0
    ensures Quotient(Times(h, s), h) == s
  {
    FractionEquals(h * s, h, s);
  }

  ghost predicate HasDelta(e: Expr, v: Address, mem: Memory, limit: real, eps: real)
    requires v in mem
  {
    exists delta: real :: delta > 0.0 && ConvergesWithin(e, v, mem, limit, eps, delta)
  }

  /** `limit` is the derivative of `e` with respect to `v` at `mem`. */
  ghost predicate IsDerivative(e: Expr, v: Address, mem: Memory, limit: real)
    requires v in mem
  {
    forall eps: real :: eps > 0.0 ==> HasDelta(e, v, mem, limit, eps)
  }

  lemma DerivativeConverges(e: Expr, v: Address, mem: Memory)
    requires v in mem && Defined(e, mem)
    ensures Defined(D(e, v), mem) && IsDerivative(e, v, mem, Eval(D(e, v), mem))
  {
    DerivativeIsSlope(e, v, mem);
    forall eps: real | eps > 0.0 ensures HasDelta(e, v, mem, Eval(D(e, v), mem), eps) {
      var delta := DerivativeIsLimit(e, v, mem, eps);
    }
  }
}
