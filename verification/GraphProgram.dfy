/** The program of src/nn/main.c: the graph of `x * x / (x * x + 1)` and its derivative, over
    any value of the variable. */
module GraphProgram {
  import opened Expression
  import opened OperationGraph

  function Example(): Expr {
    var xx := Mul(Placeholder(0), Placeholder(0));
    Div(xx, Add(xx, Constant(1.0)))
  }

  lemma SquareNonnegative(x: real)
    ensures x * x >= 0.0
  {
  }

  lemma ExampleValue(x: real)
    ensures var mem := map[0 := x];
            && Defined(Example(), mem) && Eval(Example(), mem) * (x * x + 1.0) == x * x
  {
    var mem, p := map[0 := x], Placeholder(0);
    var xx := Mul(p, p);
    var q := Add(xx, Constant(1.0));
    TimesIs(x, x);
    assert Eval(xx, mem) == x * x && Defined(xx, mem);
    assert Eval(q, mem) == x * x + 1.0 && Defined(q, mem);
    SquareNonnegative(x);
    hide Times, Quotient;
    TimesIs(x * x, x * x + 1.0);
  }

  /** The parts of the derivative graph. */
  lemma ExampleParts(x: real)
    ensures var mem, xx := map[0 := x], Mul(Placeholder(0), Placeholder(0));
            var q := Add(xx, Constant(1.0));
            && Eval(D(xx, 0), mem) == 2.0 * x == Eval(D(q, 0), mem)
            && Eval(xx, mem) == x * x && Eval(q, mem) == x * x + 1.0
  {
    var mem, p := map[0 := x], Placeholder(0);
    var xx := Mul(p, p);
    hide Times, Quotient;
    TimesIs(x, x);
    TimesIs(1.0, x);
    assert D(p, 0) == Constant(1.0);
    assert Eval(Mul(Constant(1.0), p), mem) == x;
    assert Eval(D(xx, 0), mem) == x + x;
    assert Eval(xx, mem) == x * x;
  }

  lemma ExampleSlope(x: real)
    ensures var mem := map[0 := x];
            && Defined(D(Example(), 0), mem)
            && Eval(D(Example(), 0), mem) * (x * x + 1.0) * (x * x + 1.0) == 2.0 * x
  {
    var mem, xx := map[0 := x], Mul(Placeholder(0), Placeholder(0));
    var q := Add(xx, Constant(1.0));
    ExampleValue(x);
    DerivativeIsSlope(Example(), 0, mem);
    ExampleParts(x);
    SquareNonnegative(x);
    var l, r, y := Mul(D(xx, 0), q), Mul(D(q, 0), xx), x * x + 1.0;
    assert D(Example(), 0) == Div(Sub(l, r), Mul(q, q));
    QuotientRule(l, r, q, mem);
    var n := Times(2.0 * x, y) - Times(2.0 * x, x * x);
    hide Times, Quotient, D, Example, Eval, Defined;
    Slope(x, n, y, Eval(D(Example(), 0), mem));
  }

  lemma QuotientRule(l: Expr, r: Expr, q: Expr, mem: Memory)
    requires l.Mul? && r.Mul?
    ensures Eval(Div(Sub(l, r), Mul(q, q)), mem)
         == Quotient(Times(Eval(l.a, mem), Eval(l.b, mem)) - Times(Eval(r.a, mem), Eval(r.b, mem)),
                     Times(Eval(q, mem), Eval(q, mem)))
  {
    hide Times, Quotient, Eval;
    NodeRules(l, mem);
    NodeRules(r, mem);
    NodeRules(Sub(l, r), mem);
    NodeRules(Mul(q, q), mem);
    NodeRules(Div(Sub(l, r), Mul(q, q)), mem);
  }

  lemma NodeRules(e: Expr, mem: Memory)
    ensures e.Sub? ==> Eval(e, mem) == Eval(e.a, mem) - Eval(e.b, mem)
    ensures e.Mul? ==> Eval(e, mem) == Times(Eval(e.a, mem), Eval(e.b, mem))
    ensures e.Div? ==> Eval(e, mem) == Quotient(Eval(e.a, mem), Eval(e.b, mem))
  {
    hide Times, Quotient;
  }

  lemma Slope(x: real, n: real, y: real, slope: real)
    requires y == x * x + 1.0 && y > 0.0
    requires n == Times(2.0 * x, y) - Times(2.0 * x, x * x) && slope == Quotient(n, Times(y, y))
    ensures slope * y * y == 2.0 * x
  {
    assert n == 2.0 * x * (y - x * x);
    assert y * y > 0.0;
    TimesIs(n, y * y);
    assert slope * (y * y) == n;
    assert slope * y * y == slope * (y * y);
  }

  /** The graph as the program builds it. */
  method BuildExample() returns (f: Operation)
    ensures fresh(f.reach) && WellFormed(f) && Tree(f) == Example()
  {
    hide WellFormed, Tree, ReachAll;
    var x := MakePlaceholder(0);
    var xx := MakePairwise(IsMul, x, x);
    var one := MakeConst(1.0);
    var xx1 := MakePairwise(IsAdd, xx, one);
    f := MakePairwise(IsDiv, xx, xx1);
  }

  /** The two values that the program prints, for any value of the variable. */
  method Program(x: real) returns (r: real, dr: real)
    ensures r * (x * x + 1.0) == x * x
    ensures dr * (x * x + 1.0) * (x * x + 1.0) == 2.0 * x
  {
    hide WellFormed, Tree, ReachAll, D, Eval, Defined, UncomputedClosed, HoldsItsValue, Example;
    var f := BuildExample();
    var df := Derivative(f, 0);
    ExampleValue(x);
    ExampleSlope(x);
    ghost var order;
    r, order := Evaluate(f, true, map[0 := x]);
    dr, order := Evaluate(df, true, map[0 := x]);
  }
}
