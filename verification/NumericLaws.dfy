/**
 * The main results about base/numerics, with every range and every result
 * written out.
 */
module NumericLaws {
  import opened IntegerTypes
  import opened SafeConversions
  import opened CheckedMath
  import opened CheckedNumerics
  import opened ClampedMath

  /** A type of n bits has 2^n values, half of them negative if it is signed. */
  lemma {:induction false} Limits(n: nat)
    requires n >= 1
    ensures IntType(false, n).Min() == 0 && IntType(false, n).Max() == Pow2(n) - 1
    ensures 2 * IntType(true, n).Min() == -Pow2(n) && 2 * (IntType(true, n).Max() + 1) == Pow2(n)
    ensures Pow2(0) == 1 && Pow2(n) == 2 * Pow2(n - 1)
  {
  }

  /** Clamping keeps what is in range and moves the rest to the nearest limit. */
  lemma {:induction false} ClampNearest(t: IntType, v: int)
    requires t.Valid()
    ensures v < t.Min() ==> Clamp(t, v) == t.Min()
    ensures t.Min() <= v <= t.Max() ==> Clamp(t, v) == v
    ensures v > t.Max() ==> Clamp(t, v) == t.Max()
  {
  }

  /** The six comparisons between values of any two types. */
  lemma {:induction false} Comparisons(m: Machine, l: IntType, r: IntType, x: int, y: int)
    requires m.Valid() && m.Supports(l) && m.Supports(r) && l.Has(x) && r.Has(y)
    ensures SafeCompare(m, Less, l, r, x, y) <==> x < y
    ensures SafeCompare(m, LessOrEqual, l, r, x, y) <==> x <= y
    ensures SafeCompare(m, Greater, l, r, x, y) <==> x > y
    ensures SafeCompare(m, GreaterOrEqual, l, r, x, y) <==> x >= y
    ensures SafeCompare(m, Equal, l, r, x, y) <==> x == y
    ensures SafeCompare(m, NotEqual, l, r, x, y) <==> x != y
  {
    forall rel: Relation ensures SafeCompare(m, rel, l, r, x, y) <==> Holds(rel, x, y) {
      SafeCompareExact(m, rel, l, r, x, y);
    }
  }

  lemma {:induction false} ComparisonsByRange(m: Machine, l: IntType, r: IntType, x: int, y: int)
    requires m.Valid() && l.Valid() && r.Valid() && l.Has(x) && r.Has(y)
    ensures Test(m, Less, l, r, x, y) <==> x < y
    ensures Test(m, LessOrEqual, l, r, x, y) <==> x <= y
    ensures Test(m, Greater, l, r, x, y) <==> x > y
    ensures Test(m, GreaterOrEqual, l, r, x, y) <==> x >= y
    ensures Test(m, Equal, l, r, x, y) <==> x == y
    ensures Test(m, NotEqual, l, r, x, y) <==> x != y
  {
    forall rel: Relation ensures Test(m, rel, l, r, x, y) <==> Holds(rel, x, y) {
      TestExact(m, rel, l, r, x, y);
    }
  }

  /** Bounds that end above zero always work. */
  lemma {:induction false} UsualBounds(m: Machine, dst: IntType, src: IntType, low: int, high: int, value: int)
    requires m.Valid() && dst.Valid() && src.Valid() && src.Has(value)
    requires dst.Has(low) && dst.Has(high) && low < high && 0 <= high
    ensures CheckBounds(m, dst, src, low, high, value).IsValid() <==> low <= value <= high
  {
    CheckBoundsExact(m, dst, src, low, high, value);
  }

  // A signed type and the widest unsigned one: no type has the values of both.
  predicate NoCommonType(m: Machine, t: IntType, u: IntType) {
    t.signed != u.signed && (if t.signed then u.bits else t.bits) == m.maxBits
  }

  lemma {:induction false} ContainedIff(m: Machine, t: IntType, u: IntType)
    requires m.Valid() && m.Supports(t) && m.Supports(u)
    ensures IsContained(m, t, u) <==> !NoCommonType(m, t, u)
  {
    BigEnoughExact(m, t, u);
  }

  /** Sums, differences, products and quotients of operands that have a common type. */
  lemma {:induction false} Arithmetic(m: Machine, t: IntType, u: IntType, v: IntType, x: int, y: int)
    requires m.Valid() && m.Supports(t) && m.Supports(u) && t.Has(x) && u.Has(y) && (v == t || v == u)
    requires !NoCommonType(m, t, u)
    ensures var r := Do(m, Add, t, u, v, x, y);
            (r.ok <==> v.Min() <= x + y <= v.Max()) && (r.ok ==> r.value == x + y)
    ensures var r := Do(m, Sub, t, u, v, x, y);
            (r.ok <==> v.Min() <= x - y <= v.Max()) && (r.ok ==> r.value == x - y)
    ensures var r := Do(m, Mul, t, u, v, x, y);
            (r.ok <==> v.Min() <= x * y <= v.Max()) && (r.ok ==> r.value == x * y)
    ensures var r := Do(m, Div, t, u, v, x, y);
            (r.ok <==> y != 0 && v.Min() <= Quotient(x, y) <= v.Max()) && (r.ok ==> r.value == Quotient(x, y))
  {
    ContainedIff(m, t, u);
    DoExact(m, Add, t, u, v, x, y);
    DoExact(m, Sub, t, u, v, x, y);
    DoExact(m, Mul, t, u, v, x, y);
    DoExact(m, Div, t, u, v, x, y);
  }

  /** Of operands that have none, by the portable code: only where nothing is negative, or zero decides. */
  lemma {:induction false} SumsApart(m: Machine, t: IntType, u: IntType, v: IntType, x: int, y: int)
    requires m.Valid() && m.Supports(t) && m.Supports(u) && t.Has(x) && u.Has(y) && (v == t || v == u)
    requires NoCommonType(m, t, u) && m.compiler == Portable
    ensures Do(m, Add, t, u, v, x, y).ok <==> x >= 0 && y >= 0 && x + y <= v.Max()
    ensures Do(m, Sub, t, u, v, x, y).ok <==> x >= 0 && y >= 0 && 0 <= x - y <= v.Max()
  {
    ContainedIff(m, t, u);
    DoExact(m, Add, t, u, v, x, y);
    DoExact(m, Sub, t, u, v, x, y);
    assert v.Min() <= 0 <= v.Max();
  }

  lemma {:induction false} ProductsApart(m: Machine, t: IntType, u: IntType, v: IntType, x: int, y: int)
    requires m.Valid() && m.Supports(t) && m.Supports(u) && t.Has(x) && u.Has(y) && (v == t || v == u)
    requires NoCommonType(m, t, u) && m.compiler == Portable
    ensures Do(m, Mul, t, u, v, x, y).ok <==> x == 0 || y == 0 || (x > 0 && y > 0 && x * y <= v.Max())
  {
    ContainedIff(m, t, u);
    var product := Exact(Mul, x, y);
    PositiveProduct(x, y, product);
    DoExact(m, Mul, t, u, v, x, y);
    assert v.Min() == 0 || v.Min() < 0;
    assert v.Has(product) <==> v.Min() <= product <= v.Max();
  }

  lemma {:induction false} PositiveProduct(x: int, y: int, product: int)
    requires product == x * y
    ensures x == 0 || y == 0 ==> product == 0
    ensures x > 0 && y > 0 ==> product > 0
  {
  }

  lemma {:induction false} QuotientsApart(m: Machine, t: IntType, u: IntType, v: IntType, x: int, y: int)
    requires m.Valid() && m.Supports(t) && m.Supports(u) && t.Has(x) && u.Has(y) && (v == t || v == u)
    requires NoCommonType(m, t, u) && m.compiler == Portable
    ensures Do(m, Div, t, u, v, x, y).ok <==> y != 0 && (x == 0 || (x > 0 && y > 0 && Quotient(x, y) <= v.Max()))
  {
    ContainedIff(m, t, u);
    DoExact(m, Div, t, u, v, x, y);
    assert v.Min() <= 0 <= v.Max();
    if y != 0 {
      ZeroQuotient(y);
      QuotientSize(x, y);
    }
  }

  /** With a check of the compiler, sums and differences have no such limits. */
  lemma {:induction false} ArithmeticBuiltin(m: Machine, t: IntType, u: IntType, v: IntType, x: int, y: int)
    requires m.Valid() && m.Supports(t) && m.Supports(u) && t.Has(x) && u.Has(y) && (v == t || v == u)
    requires m.compiler != Portable
    ensures Do(m, Add, t, u, v, x, y).ok <==> v.Min() <= x + y <= v.Max()
    ensures Do(m, Sub, t, u, v, x, y).ok <==> v.Min() <= x - y <= v.Max()
  {
    DoExact(m, Add, t, u, v, x, y);
    DoExact(m, Sub, t, u, v, x, y);
  }

  lemma {:induction false} Nearest(t: IntType, op: Op, x: int, y: int, r: int)
    requires t.Valid() && Defined(op, x, y) && r == ClampedExact(t, op, x, y)
    ensures var e := Exact(op, x, y);
            r == if e < t.Min() then t.Min() else if e > t.Max() then t.Max() else e
  {
  }

  /** The clamped operations on one type. */
  lemma {:induction false} ClampedArithmetic(m: Machine, t: IntType, x: int, y: int)
    requires m.Valid() && m.Supports(t) && t.Has(x) && t.Has(y)
    ensures ClampedDo(m, Add, t, t, x, y) ==
            if x + y < t.Min() then t.Min() else if x + y > t.Max() then t.Max() else x + y
    ensures ClampedDo(m, Sub, t, t, x, y) ==
            if x - y < t.Min() then t.Min() else if x - y > t.Max() then t.Max() else x - y
    ensures ClampedDo(m, Mul, t, t, x, y) ==
            if x * y < t.Min() then t.Min() else if x * y > t.Max() then t.Max() else x * y
    ensures y == 0 ==> ClampedDo(m, Div, t, t, x, y) == if x > 0 then t.Max() else if x < 0 then t.Min() else 0
  {
    ClampedExactly(m, Add, t, x, y);
    ClampedExactly(m, Sub, t, x, y);
    ClampedExactly(m, Mul, t, x, y);
    ClampedExactly(m, Div, t, x, y);
    Nearest(t, Add, x, y, ClampedDo(m, Add, t, t, x, y));
    Nearest(t, Sub, x, y, ClampedDo(m, Sub, t, t, x, y));
    Nearest(t, Mul, x, y, ClampedDo(m, Mul, t, t, x, y));
  }

  /** Expressions, built up: a value, a minus, and each of the four operations. */
  lemma {:induction false} ShortExpressions(m: Machine, t: IntType, src: IntType, v: int, a: Expr, known: bool)
    requires m.Valid() && m.Supports(t) && t.signed && src.Valid() && src.Has(v)
    requires Wellformed(t, a) && Eval(m, t, a).isValid
    ensures Eval(m, t, Leaf(src, v)).isValid <==> t.Min() <= v <= t.Max()
    ensures Eval(m, t, Leaf(src, v)).isValid ==> Eval(m, t, Leaf(src, v)).value == v
    ensures Eval(m, t, Minus(a, known)).isValid <==> -Eval(m, t, a).value <= t.Max()
    ensures Eval(m, t, Minus(a, known)).isValid ==> Eval(m, t, Minus(a, known)).value == -Eval(m, t, a).value
  {
    EvalExact(m, t, a);
    EvalExact(m, t, Leaf(src, v));
    EvalExact(m, t, Minus(a, known));
    assert Value(Minus(a, known)) == -Value(a);
  }

  lemma {:induction false} BinaryExpression(m: Machine, t: IntType, op: Op, a: Expr, b: Expr)
    requires m.Valid() && m.Supports(t) && Wellformed(t, a) && Wellformed(t, b)
    ensures var x, y, r := Eval(m, t, a).value, Eval(m, t, b).value, Eval(m, t, Binary(op, a, b));
            Eval(m, t, a).isValid && Eval(m, t, b).isValid ==>
            match op
            case Add => (r.isValid <==> t.Min() <= x + y <= t.Max()) && (r.isValid ==> r.value == x + y)
            case Sub => (r.isValid <==> t.Min() <= x - y <= t.Max()) && (r.isValid ==> r.value == x - y)
            case Mul => (r.isValid <==> t.Min() <= x * y <= t.Max()) && (r.isValid ==> r.value == x * y)
            case Div => (r.isValid <==> y != 0 && t.Min() <= Quotient(x, y) <= t.Max())
                        && (r.isValid ==> r.value == Quotient(x, y))
  {
    EvalExact(m, t, a);
    EvalExact(m, t, b);
    EvalExact(m, t, Binary(op, a, b));
    assert Value(Binary(op, a, b)) == Exact(op, Value(a), Value(b));
  }

  /** One invalid part makes the whole invalid. */
  lemma {:induction false} InvalidStays(m: Machine, t: IntType, op: Op, a: Expr, b: Expr, known: bool)
    requires m.Valid() && m.Supports(t) && t.signed && Wellformed(t, a) && Wellformed(t, b)
    ensures !Eval(m, t, a).isValid || !Eval(m, t, b).isValid ==> !Eval(m, t, Binary(op, a, b)).isValid
    ensures !Eval(m, t, a).isValid ==> !Eval(m, t, Minus(a, known)).isValid
  {
    EvalExact(m, t, a);
    EvalExact(m, t, b);
    EvalExact(m, t, Binary(op, a, b));
    EvalExact(m, t, Minus(a, known));
  }
}
