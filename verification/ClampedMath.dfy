/**
 * base/numerics/clamped_math_impl.h for integers: operations that saturate
 * instead of overflowing.
 */
module ClampedMath {
  import opened IntegerTypes
  import opened SafeConversions
  import opened CheckedArithmetic
  import opened CheckedMath
  import opened CheckedNumerics

  // ClampedAddOp, ClampedSubOp, ClampedMulOp and ClampedDivOp, for the result
  // type that they choose themselves.
  function ClampedDo(m: Machine, op: Op, t: IntType, u: IntType, x: int, y: int): int
    requires m.Valid() && m.Supports(t) && m.Supports(u) && t.Has(x) && u.Has(y)
  {
    var v := MaxExponentPromotion(t, u);
    var r := Do(m, op, t, u, v, x, y);
    var xNegative, yNegative := t.signed && x < 0, u.signed && y < 0;
    if r.ok then r.value
    else
      match op
      case Add => CommonMaxOrMin(m, v, v, yNegative)
      case Sub => CommonMaxOrMin(m, v, v, !yNegative)
      case Mul => CommonMaxOrMin(m, v, v, xNegative != yNegative)
      case Div => if x != 0 then CommonMaxOrMin(m, v, v, xNegative != yNegative) else 0
  }

  lemma {:induction false} OwnLimits(m: Machine, v: IntType, isMin: bool)
    requires m.Valid() && v.Valid()
    ensures CommonMaxOrMin(m, v, v, isMin) == if isMin then v.Min() else v.Max()
  {
  }

  // Dividing by zero gives the limit on the side of x, or zero.
  function ClampedExact(v: IntType, op: Op, x: int, y: int): int
    requires v.Valid()
  {
    if Defined(op, x, y) then Clamp(v, Exact(op, x, y))
    else if x > 0 then v.Max()
    else if x < 0 then v.Min()
    else 0
  }

  lemma {:induction false} SignOfProduct(x: int, y: int)
    ensures x * y > 0 ==> (x < 0) == (y < 0)
    ensures x * y < 0 ==> (x < 0) != (y < 0)
  {
  }

  lemma {:induction false} SignOfQuotient(x: int, y: int)
    requires y != 0
    ensures Quotient(x, y) > 0 ==> (x < 0) == (y < 0)
    ensures Quotient(x, y) < 0 ==> (x < 0) != (y < 0)
  {
    var a, b := if x < 0 then -x else x, if y < 0 then -y else y;
    QuotientMagnitude(a, b);
    QuotientNegative(a, b);
  }

  // What the code looks at to choose a limit.
  predicate TakesMinimum(op: Op, x: int, y: int) {
    match op
    case Add => y < 0
    case Sub => y >= 0
    case Mul => (x < 0) != (y < 0)
    case Div => (x < 0) != (y < 0)
  }

  // The limit it chooses.
  function ChosenLimit(v: IntType, op: Op, x: int, y: int): int
    requires v.Valid()
  {
    if op == Div && x == 0 then 0 else if TakesMinimum(op, x, y) then v.Min() else v.Max()
  }

  // A result that fits and is not delivered, for want of a common type.
  predicate Refused(m: Machine, op: Op, t: IntType, u: IntType, v: IntType, x: int, y: int)
    requires v.Valid()
  {
    Defined(op, x, y) && v.Has(Exact(op, x, y)) && !Representable(m, op, t, u, x, y)
  }

  lemma {:induction false} ClampedDoCases(m: Machine, op: Op, t: IntType, u: IntType, x: int, y: int)
    requires m.Valid() && m.Supports(t) && m.Supports(u) && t.Has(x) && u.Has(y)
    ensures var v := MaxExponentPromotion(t, u);
            ClampedDo(m, op, t, u, x, y) ==
              if Refused(m, op, t, u, v, x, y) then ChosenLimit(v, op, x, y) else Limited(v, op, x, y)
  {
    var v := MaxExponentPromotion(t, u);
    DoExact(m, op, t, u, v, x, y);
    OwnLimits(m, v, true);
    OwnLimits(m, v, false);
  }

  // The family of operands for which addition and subtraction of two types take
  // the wrong limit: the result is too low on account of x alone.
  predicate WrongLimit(v: IntType, op: Op, x: int, y: int)
    requires v.Valid()
  {
    && (op == Add || op == Sub)
    && Exact(op, x, y) < v.Min()
    && !TakesMinimum(op, x, y)
  }

  // The value on the side the code looks at.
  function Limited(v: IntType, op: Op, x: int, y: int): int
    requires v.Valid()
  {
    if Defined(op, x, y) && v.Has(Exact(op, x, y)) then Exact(op, x, y) else ChosenLimit(v, op, x, y)
  }

  lemma {:induction false} SumLimits(v: IntType, op: Op, x: int, y: int)
    requires (op == Add || op == Sub) && v.Valid() && x <= v.Max() && v.Min() < v.Max()
    ensures Limited(v, op, x, y) == ClampedExact(v, op, x, y) <==> !WrongLimit(v, op, x, y)
  {
  }

  lemma {:induction false} ProductLimits(v: IntType, op: Op, x: int, y: int)
    requires (op == Mul || op == Div) && v.Valid() && v.Min() <= 0 <= v.Max()
    ensures Limited(v, op, x, y) == ClampedExact(v, op, x, y)
  {
    if op == Mul {
      SignOfProduct(x, y);
    } else if y != 0 {
      SignOfQuotient(x, y);
    }
  }

  lemma {:induction false} ResultType(m: Machine, t: IntType, u: IntType)
    requires m.Valid() && m.Supports(t) && m.Supports(u)
    ensures var v := MaxExponentPromotion(t, u);
            v.Valid() && v.Min() <= 0 <= v.Max() && v.Min() < v.Max() && t.Max() <= v.Max() && u.Max() <= v.Max()
  {
    var v := MaxExponentPromotion(t, u);
    Ranges(t, v);
    Ranges(u, v);
    HalfWidth(v, v.bits, 0);
    assert Pow2(v.bits) == 2 * Pow2(v.bits - 1);
  }

  /**
   * Any two types: the result is clamped correctly exactly when it is not of that
   * family, and not refused, unless the limit happens to be the result.
   */
  lemma {:induction false} ClampedMixedExact(m: Machine, op: Op, t: IntType, u: IntType, x: int, y: int)
    requires m.Valid() && m.Supports(t) && m.Supports(u) && t.Has(x) && u.Has(y)
    ensures var v := MaxExponentPromotion(t, u);
            ClampedDo(m, op, t, u, x, y) == ClampedExact(v, op, x, y)
            <==> !WrongLimit(v, op, x, y)
                 && (Refused(m, op, t, u, v, x, y) ==> Exact(op, x, y) == ChosenLimit(v, op, x, y))
  {
    var v := MaxExponentPromotion(t, u);
    ClampedDoCases(m, op, t, u, x, y);
    ResultType(m, t, u);
    if !Refused(m, op, t, u, v, x, y) {
      if op == Add || op == Sub {
        SumLimits(v, op, x, y);
      } else {
        ProductLimits(v, op, x, y);
      }
    }
  }

  /** One type: always. */
  lemma {:induction false} ClampedExactly(m: Machine, op: Op, t: IntType, x: int, y: int)
    requires m.Valid() && m.Supports(t) && t.Has(x) && t.Has(y)
    ensures ClampedDo(m, op, t, t, x, y) == ClampedExact(t, op, x, y)
  {
    ClampedMixedExact(m, op, t, t, x, y);
    Ranges(t, t);
  }

  /** A signed -2 plus an unsigned 1 of the same width gives the maximum, not 0. */
  lemma {:induction false} NegativePlusUnsigned(m: Machine, n: nat)
    requires m.Valid() && m.Supports(IntType(true, n)) && n < m.maxBits
    ensures IntType(true, n).Has(-2) && IntType(false, n).Has(1)
    ensures ClampedDo(m, Add, IntType(true, n), IntType(false, n), -2, 1) == IntType(false, n).Max()
    ensures Clamp(IntType(false, n), -2 + 1) == 0
  {
    HalfWidth(IntType(false, n), n, 0);
    assert Pow2(n) == 2 * Pow2(n - 1);
    ClampedDoCases(m, Add, IntType(true, n), IntType(false, n), -2, 1);
  }

  /** Minus one, as the widest signed type, plus 5, as the widest unsigned: the maximum, though 4 fits. */
  lemma {:induction false} WidestPlusUnsigned(m: Machine)
    requires m.Valid() && m.compiler == Portable
    ensures var widest := IntType(true, m.maxBits);
            var unsigned := IntType(false, m.maxBits);
            && m.Supports(widest) && m.Supports(unsigned) && widest.Has(-1) && unsigned.Has(5)
            && ClampedDo(m, Add, widest, unsigned, -1, 5) == unsigned.Max() != 4
            && !WrongLimit(unsigned, Add, -1, 5)
  {
    var widest, unsigned := IntType(true, m.maxBits), IntType(false, m.maxBits);
    assert Pow2(3) == 2 * Pow2(2) && Pow2(2) == 2 * Pow2(1) && Pow2(1) == 2 * Pow2(0);
    Pow2Grows(3, m.maxBits);
    assert Pow2(m.maxBits) == 2 * Pow2(m.maxBits - 1);
    ClampedDoCases(m, Add, widest, unsigned, -1, 5);
  }

  // ---------------------------------------------------------------------------
  // Negation and absolute value.

  // With or without the compiler's own overflow check.
  function SaturatedNeg(t: IntType, value: int, builtin: bool): int
    requires t.Valid()
  {
    if t.signed then
      if builtin then
        var difference := Builtin(t, 0 - value);
        if difference.ok then difference.value else t.Max()
      else if NegateWrapper(t, value) != t.Min() then NegateWrapper(t, value)
      else t.Max()
    else 0
  }

  function SaturatedAbs(t: IntType, value: int): int
    requires t.Valid()
  {
    var magnitude := SafeUnsignedAbs(t, value);
    Cast(t, magnitude - if t.signed && Cast(t, magnitude) < 0 then 1 else 0)
  }

  lemma {:induction false} SaturatedNegExact(t: IntType, value: int, builtin: bool)
    requires t.Valid() && t.Has(value)
    ensures SaturatedNeg(t, value, builtin) == Clamp(t, -value)
  {
    if t.signed {
      NegateWrapperExact(t, value);
      CastExact(t, 0 - value);
    }
  }

  lemma {:induction false} SaturatedAbsExact(t: IntType, value: int)
    requires t.Valid() && t.Has(value)
    ensures SaturatedAbs(t, value) == Clamp(t, if value < 0 then -value else value)
  {
    var magnitude := SafeUnsignedAbs(t, value);
    SafeUnsignedAbsExact(t, value);
    assert Pow2(t.bits) == 2 * Pow2(t.bits - 1);
    CastNear(t, magnitude);
    CastNear(t, magnitude - 1);
  }
}
