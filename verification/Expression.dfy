/** What the graphs of src/nn mean: expressions over the program's float variables, with
    `real` for `float`. The derivative is the one that src/nn/pairwise.c and
    src/nn/inputs.c build, node for node. */
module Expression {

  /** Where a placeholder's `reference` points, and what the variables there hold. */
  type Address = nat
  type Memory = map<Address, real>

  datatype Expr =
    | Placeholder(reference: Address)
    | Constant(value: real)
    | Add(a: Expr, b: Expr)
    | Sub(a: Expr, b: Expr)
    | Mul(a: Expr, b: Expr)
    | Div(a: Expr, b: Expr)

  /** `a / b`. Nothing is claimed for a zero denominator: see `Defined`. */
  function Quotient(a: real, b: real): real {
    if b == 0.0 then 0.0 else a / b
  }

  /** Named so that proofs about the shape of an expression can set its arithmetic aside. */
  function Times(a: real, b: real): real {
    a * b
  }

  function Eval(e: Expr, mem: Memory): real {
    match e
    case Placeholder(r) => if r in mem then mem[r] else 0.0
    case Constant(c) => c
    case Add(a, b) => Eval(a, mem) + Eval(b, mem)
    case Sub(a, b) => Eval(a, mem) - Eval(b, mem)
    case Mul(a, b) => Times(Eval(a, mem), Eval(b, mem))
    case Div(a, b) => Quotient(Eval(a, mem), Eval(b, mem))
  }

  /** Every placeholder points at a variable and no denominator is zero. */
  predicate Defined(e: Expr, mem: Memory) {
    match e
    case Placeholder(r) => r in mem
    case Constant(_) => true
    case Div(a, b) => Defined(a, mem) && Defined(b, mem) && Eval(b, mem) != 0.0
    case _ => Defined(e.a, mem) && Defined(e.b, mem)
  }

  function D(e: Expr, v: Address): Expr {
    match e
    case Placeholder(r) => if v == r then Constant(1.0) else Constant(0.0)
    case Constant(_) => Constant(0.0)
    case Add(a, b) => Add(D(a, v), D(b, v))
    case Sub(a, b) => Sub(D(a, v), D(b, v))
    case Mul(a, b) => Add(Mul(D(a, v), b), Mul(D(b, v), a))
    case Div(a, b) => Div(Sub(Mul(D(a, v), b), Mul(D(b, v), a)), Mul(b, b))
  }

  // ----- The derivative as a slope -----

  function Shift(mem: Memory, v: Address, h: real): Memory
    requires v in mem
  {
    mem[v := mem[v] + h]
  }

  /** The exact slope of `e` between `mem` and `mem` with variable `v` moved by `h`. */
  function Slope(e: Expr, v: Address, mem: Memory, h: real): real
    requires v in mem
  {
    match e
    case Placeholder(r) => if r == v then 1.0 else 0.0
    case Constant(_) => 0.0
    case Add(a, b) => Slope(a, v, mem, h) + Slope(b, v, mem, h)
    case Sub(a, b) => Slope(a, v, mem, h) - Slope(b, v, mem, h)
    case Mul(a, b) =>
      Times(Slope(a, v, mem, h), Eval(b, Shift(mem, v, h))) + Times(Slope(b, v, mem, h), Eval(a, mem))
    case Div(a, b) =>
      Quotient(Times(Slope(a, v, mem, h), Eval(b, mem)) - Times(Slope(b, v, mem, h), Eval(a, mem)),
               Times(Eval(b, Shift(mem, v, h)), Eval(b, mem)))
  }

  lemma SumDifference(h: real, x: real, y: real)
    ensures Times(h, x + y) == Times(h, x) + Times(h, y) && Times(h, x - y) == Times(h, x) - Times(h, y)
  {
  }

  lemma ProductDifference(h: real, sa: real, sb: real, a: real, b: real, a': real, b': real)
    requires a' - a == Times(h, sa) && b' - b == Times(h, sb)
    ensures Times(a', b') - Times(a, b) == Times(h, Times(sa, b') + Times(sb, a))
  {
    calc {
      a' * b' - a * b;
      (a' - a) * b' + a * (b' - b);
      (h * sa) * b' + a * (h * sb);
      h * (sa * b') + h * (sb * a);
      h * (sa * b' + sb * a);
    }
  }

  lemma FractionEquals(n: real, d: real, q: real)
    requires d != 0.0 && q * d == n
    ensures n / d == q
  {
  }

  lemma QuotientDifference(h: real, sa: real, sb: real, a: real, b: real, a': real, b': real)
    requires a' - a == Times(h, sa) && b' - b == Times(h, sb) && b != 0.0 && b' != 0.0
    ensures Times(b', b) != 0.0
    ensures Quotient(a', b') - Quotient(a, b)
         == Times(h, Quotient(Times(sa, b) - Times(sb, a), Times(b', b)))
  {
    var x, y, d := a' / b', a / b, b' * b;
    assert x * b' == a' && y * b == a;
    calc {
      (x - y) * d;
      (x * b') * b - (y * b) * b';
      a' * b - a * b';
      (a' - a) * b - a * (b' - b);
      (h * sa) * b - a * (h * sb);
      h * (sa * b) - h * (sb * a);
      h * (sa * b - sb * a);
    }
    var n := sa * b - sb * a;
    var s := n / d;
    assert s * d == n;
    assert (h * s) * d == h * n;
    FractionEquals(h * n, d, x - y);
    FractionEquals(h * n, d, h * s);
  }

  /** For every expression and every step with no zero denominator at either end, the
      difference of the values is the step times the slope. */
  lemma {:induction false} DifferenceIsSlope(e: Expr, v: Address, mem: Memory, h: real)
    requires v in mem && Defined(e, mem) && Defined(e, Shift(mem, v, h))
    ensures Eval(e, Shift(mem, v, h)) - Eval(e, mem) == Times(h, Slope(e, v, mem, h))
  {
    if !e.Placeholder? && !e.Constant? {
      hide Times, Quotient;
      var mem' := Shift(mem, v, h);
      DifferenceIsSlope(e.a, v, mem, h);
      DifferenceIsSlope(e.b, v, mem, h);
      var sa, sb := Slope(e.a, v, mem, h), Slope(e.b, v, mem, h);
      var a, b, a', b' := Eval(e.a, mem), Eval(e.b, mem), Eval(e.a, mem'), Eval(e.b, mem');
      if e.Mul? {
        ProductDifference(h, sa, sb, a, b, a', b');
      } else if e.Div? {
        QuotientDifference(h, sa, sb, a, b, a', b');
      } else {
        SumDifference(h, sa, sb);
      }
    }
  }

  lemma ShiftByZero(mem: Memory, v: Address)
    requires v in mem
    ensures Shift(mem, v, 0.0) == mem
  {
    assert mem[v] + 0.0 == mem[v];
  }

  /** The derivative expression is defined wherever the expression is, and its value is the
      slope for a step of zero. */
  lemma {:induction false} DerivativeIsSlope(e: Expr, v: Address, mem: Memory)
    requires v in mem && Defined(e, mem)
    ensures Defined(D(e, v), mem) && Eval(D(e, v), mem) == Slope(e, v, mem, 0.0)
  {
    hide Quotient, Times;
    ShiftByZero(mem, v);
    match e
    case Placeholder(_) =>
    case Constant(_) =>
    case Div(a, b) =>
      DerivativeIsSlope(a, v, mem);
      DerivativeIsSlope(b, v, mem);
      SquareNotZero(Eval(b, mem));
      var l, r := Mul(D(a, v), b), Mul(D(b, v), a);
      assert Defined(l, mem) && Defined(r, mem);
      assert Defined(Sub(l, r), mem) && Defined(Mul(b, b), mem);
      assert Eval(l, mem) == Times(Slope(a, v, mem, 0.0), Eval(b, mem));
      assert Eval(r, mem) == Times(Slope(b, v, mem, 0.0), Eval(a, mem));
    case _ =>
      DerivativeIsSlope(e.a, v, mem);
      DerivativeIsSlope(e.b, v, mem);
      var l, r := Mul(D(e.a, v), e.b), Mul(D(e.b, v), e.a);
      assert Defined(l, mem) && Defined(r, mem);
  }

  lemma SquareNotZero(x: real)
    requires x != 0.0
    ensures Times(x, x) != 0.0
  {
    if Times(x, x) == 0.0 {
      FractionEquals(0.0, x, x);
    }
  }
}
