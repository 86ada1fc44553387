/**
 * CheckedNumeric of base/numerics/checked_math.h for integers: a value that
 * remembers whether any step of its computation failed.
 */
module CheckedNumerics {
  import opened IntegerTypes
  import opened SafeConversions
  import opened CheckedArithmetic
  import opened CheckedMath

  // CheckedNumericState
  datatype State = State(isValid: bool, value: int)

  // The two constructors from a value of another type.
  function MakeState(m: Machine, t: IntType, src: IntType, value: int, isValid: bool): State
    requires m.Valid() && t.Valid() && src.Valid()
  {
    State(isValid && IsValueInRange(m, t, src, value), Cast(t, value))
  }

  predicate IsValid(m: Machine, t: IntType, s: State)
    requires m.Valid() && t.Valid()
  {
    s.isValid && IsValueInRange(m, t, t, s.value)
  }

  lemma {:induction false} MakeStateExact(m: Machine, t: IntType, src: IntType, value: int, isValid: bool)
    requires m.Valid() && t.Valid() && src.Valid() && src.Has(value)
    ensures var s := MakeState(m, t, src, value, isValid);
            && t.Has(s.value) && (s.isValid <==> isValid && t.Has(value)) && (s.isValid ==> s.value == value)
            && (IsValid(m, t, s) <==> s.isValid)
  {
    IsValueInRangeExact(m, t, src, value);
    CastRange(t, value);
    CastExact(t, value);
    IsValueInRangeExact(m, t, t, Cast(t, value));
  }

  // MathOp, with t as the type of the result and of one operand at least.
  function MathOp(m: Machine, op: Op, t: IntType, l: IntType, r: IntType, lhs: State, rhs: State): State
    requires m.Valid() && m.Supports(l) && m.Supports(r) && t.Valid() && l.Has(lhs.value) && r.Has(rhs.value)
  {
    if IsValid(m, l, lhs) && IsValid(m, r, rhs) then
      var result := Do(m, op, l, r, t, lhs.value, rhs.value);
      MakeState(m, t, t, result.value, result.ok)
    else
      MakeState(m, t, t, 0, false)
  }

  lemma {:induction false} DoInRange(m: Machine, op: Op, l: IntType, r: IntType, t: IntType, x: int, y: int)
    requires m.Valid() && m.Supports(l) && m.Supports(r) && t.Valid() && l.Has(x) && r.Has(y)
    ensures t.Has(Do(m, op, l, r, t, x, y).value)
  {
    forall w: int ensures t.Has(Cast(t, w)) {
      CastRange(t, w);
    }
  }

  /** One operation: valid if the operands were and the result can be delivered. */
  lemma {:induction false} MathOpExact(m: Machine, op: Op, t: IntType, l: IntType, r: IntType, lhs: State, rhs: State)
    requires m.Valid() && m.Supports(l) && m.Supports(r) && (t == l || t == r)
    requires l.Has(lhs.value) && r.Has(rhs.value)
    ensures var s := MathOp(m, op, t, l, r, lhs, rhs);
            && t.Has(s.value)
            && (s.isValid <==> && lhs.isValid && rhs.isValid
                               && Defined(op, lhs.value, rhs.value) && t.Has(Exact(op, lhs.value, rhs.value))
                               && Representable(m, op, l, r, lhs.value, rhs.value))
            && (s.isValid ==> s.value == Exact(op, lhs.value, rhs.value))
  {
    IsValueInRangeExact(m, l, l, lhs.value);
    IsValueInRangeExact(m, r, r, rhs.value);
    var result := Do(m, op, l, r, t, lhs.value, rhs.value);
    DoInRange(m, op, l, r, t, lhs.value, rhs.value);
    DoExact(m, op, l, r, t, lhs.value, rhs.value);
    MakeStateExact(m, t, t, result.value, result.ok);
    MakeStateExact(m, t, t, 0, false);
  }

  /** Minus one, as the widest signed type, plus one, as the widest unsigned: only the compiler's check gives 0. */
  lemma {:induction false} WidestTypesDoNotMix(m: Machine)
    requires m.Valid()
    ensures var widest := IntType(true, m.maxBits);
            var unsigned := IntType(false, m.maxBits);
            && m.Supports(widest) && m.Supports(unsigned) && widest.Has(-1) && unsigned.Has(1)
            && unsigned.Has(-1 + 1) && (Do(m, Add, widest, unsigned, unsigned, -1, 1).ok <==> m.compiler != Portable)
  {
    var widest, unsigned := IntType(true, m.maxBits), IntType(false, m.maxBits);
    HalfWidth(unsigned, m.maxBits, 0);
    assert Pow2(m.maxBits) == 2 * Pow2(m.maxBits - 1);
    DoExact(m, Add, widest, unsigned, unsigned, -1, 1);
  }

  // ---------------------------------------------------------------------------
  // Negation, of signed values.

  function NegateWrapper(t: IntType, value: int): int
    requires t.Valid()
  {
    var u := t.MakeUnsigned();
    Cast(t, Cast(u, 0 - Cast(u, value)))
  }

  lemma {:induction false} NegateWrapperExact(t: IntType, value: int)
    requires t.Valid() && t.signed && t.Has(value)
    ensures NegateWrapper(t, value) == if value == t.Min() then value else -value
  {
    CastTwice(t, t.MakeUnsigned(), 0 - Cast(t.MakeUnsigned(), value));
    NegatedCast(t, value);
  }

  lemma {:induction false} NegatedCast(t: IntType, value: int)
    requires t.Valid() && t.signed && t.Has(value)
    ensures Cast(t, 0 - Cast(t.MakeUnsigned(), value)) == if value == t.Min() then value else -value
  {
    CastTwice(t, t.MakeUnsigned(), value);
    assert Pow2(t.bits) == 2 * Pow2(t.bits - 1);
    CastNear(t, -value);
  }

  // operator-(): one way if the compiler knows the value, another if it does not.
  function Negate(m: Machine, t: IntType, s: State, constant: bool): State
    requires m.Valid() && m.Supports(t) && t.signed && t.Has(s.value)
  {
    if constant then
      MakeState(m, t, t, NegateWrapper(t, s.value), IsValid(m, t, s) && NegateWrapper(t, s.value) != t.Min())
    else
      var difference := Do(m, Sub, t, t, t, 0, s.value);
      MakeState(m, t, t, difference.value, IsValid(m, t, s) && difference.ok)
  }

  lemma {:induction false} OneTypeContained(m: Machine, t: IntType)
    ensures IsContained(m, t, t)
  {
  }

  /** Both ways agree. */
  lemma {:induction false} NegateExact(m: Machine, t: IntType, s: State, constant: bool)
    requires m.Valid() && m.Supports(t) && t.signed && t.Has(s.value)
    ensures var r := Negate(m, t, s, constant);
            && t.Has(r.value) && (r.isValid <==> s.isValid && t.Has(-s.value)) && (r.isValid ==> r.value == -s.value)
  {
    IsValueInRangeExact(m, t, t, s.value);
    if constant {
      NegateWrapperExact(t, s.value);
      MakeStateExact(m, t, t, NegateWrapper(t, s.value), s.isValid && NegateWrapper(t, s.value) != t.Min());
    } else {
      var difference := Do(m, Sub, t, t, t, 0, s.value);
      DoExact(m, Sub, t, t, t, 0, s.value);
      OneTypeContained(m, t);
      DoInRange(m, Sub, t, t, t, 0, s.value);
      MakeStateExact(m, t, t, difference.value, s.isValid && difference.ok);
    }
  }

  // ---------------------------------------------------------------------------
  // Whole expressions.

  // A leaf is a value of some type, converted to the type of the expression.
  datatype Expr =
    | Leaf(src: IntType, leaf: int)
    | Binary(op: Op, left: Expr, right: Expr)
    | Minus(operand: Expr, constant: bool)

  ghost predicate Wellformed(t: IntType, e: Expr) {
    match e
    case Leaf(src, v) => src.Valid() && src.Has(v)
    case Binary(_, l, r) => Wellformed(t, l) && Wellformed(t, r)
    case Minus(o, _) => t.signed && Wellformed(t, o)
  }

  // What the library computes.
  function Eval(m: Machine, t: IntType, e: Expr): (s: State)
    requires m.Valid() && m.Supports(t) && Wellformed(t, e)
    ensures t.Has(s.value)
  {
    match e
    case Leaf(src, v) =>
      CastRange(t, v);
      MakeState(m, t, src, v, true)
    case Binary(op, l, r) =>
      MathOpExact(m, op, t, t, t, Eval(m, t, l), Eval(m, t, r));
      MathOp(m, op, t, t, t, Eval(m, t, l), Eval(m, t, r))
    case Minus(o, constant) =>
      NegateExact(m, t, Eval(m, t, o), constant);
      Negate(m, t, Eval(m, t, o), constant)
  }

  // What it should.
  function Value(e: Expr): int {
    match e
    case Leaf(_, v) => v
    case Binary(op, l, r) => Exact(op, Value(l), Value(r))
    case Minus(o, _) => -Value(o)
  }

  // Every value on the way fits, and no divisor is zero.
  predicate AllFit(t: IntType, e: Expr)
    requires t.Valid()
  {
    && t.Has(Value(e))
    && match e
       case Leaf(_, _) => true
       case Binary(op, l, r) => AllFit(t, l) && AllFit(t, r) && Defined(op, Value(l), Value(r))
       case Minus(o, _) => AllFit(t, o)
  }

  /**
   * An expression is valid exactly when every value on the way fits and no
   * divisor is zero, and then it has the mathematical value.
   */
  lemma {:induction false} EvalExact(m: Machine, t: IntType, e: Expr)
    requires m.Valid() && m.Supports(t) && Wellformed(t, e)
    ensures Eval(m, t, e).isValid <==> AllFit(t, e)
    ensures Eval(m, t, e).isValid ==> Eval(m, t, e).value == Value(e)
  {
    match e
    case Leaf(src, v) =>
      MakeStateExact(m, t, src, v, true);
    case Binary(op, l, r) =>
      EvalExact(m, t, l);
      EvalExact(m, t, r);
      OneTypeContained(m, t);
      MathOpExact(m, op, t, t, t, Eval(m, t, l), Eval(m, t, r));
    case Minus(o, constant) =>
      EvalExact(m, t, o);
      NegateExact(m, t, Eval(m, t, o), constant);
  }

  // ---------------------------------------------------------------------------
  // The compound assignments, which change the object.

  class CheckedNumeric {
    const m: Machine
    const t: IntType
    var state: State

    ghost predicate Valid()
      reads this
    {
      m.Valid() && m.Supports(t) && t.Has(state.value)
    }

    constructor (m: Machine, t: IntType, src: IntType, value: int)
      requires m.Valid() && m.Supports(t) && src.Valid() && src.Has(value)
      ensures Valid() && this.m == m && this.t == t
      ensures state.isValid <==> t.Has(value)
      ensures state.isValid ==> state.value == value
    {
      this.m, this.t := m, t;
      state := MakeState(m, t, src, value, true);
      new;
      MakeStateExact(m, t, src, value, true);
    }

    // *this op= rhs, where rhs is of type u.
    method Apply(op: Op, u: IntType, rhs: State)
      requires Valid() && m.Supports(u) && u.Has(rhs.value)
      modifies this
      ensures Valid()
      ensures state.isValid <==>
              && old(state.isValid) && rhs.isValid
              && Defined(op, old(state.value), rhs.value) && t.Has(Exact(op, old(state.value), rhs.value))
              && Representable(m, op, t, u, old(state.value), rhs.value)
      ensures state.isValid ==> state.value == Exact(op, old(state.value), rhs.value)
    {
      MathOpExact(m, op, t, t, u, state, rhs);
      state := MathOp(m, op, t, t, u, state, rhs);
    }

    // ++ and --; the 1 is an int.
    method PreIncrement()
      requires Valid() && m.Supports(Int(m))
      modifies this
      ensures Valid()
      ensures state.isValid <==> old(state.isValid) && t.Has(old(state.value) + 1)
      ensures state.isValid ==> state.value == old(state.value) + 1
    {
      OneIsHarmless(m, t, state.value);
      Apply(Add, Int(m), State(true, 1));
    }

    method PostIncrement() returns (before: State)
      requires Valid() && m.Supports(Int(m))
      modifies this
      ensures Valid() && before == old(state)
      ensures state.isValid <==> old(state.isValid) && t.Has(old(state.value) + 1)
      ensures state.isValid ==> state.value == old(state.value) + 1
    {
      before := state;
      OneIsHarmless(m, t, state.value);
      Apply(Add, Int(m), State(true, 1));
    }

    method PreDecrement()
      requires Valid() && m.Supports(Int(m))
      modifies this
      ensures Valid()
      ensures state.isValid <==> old(state.isValid) && t.Has(old(state.value) - 1)
      ensures state.isValid ==> state.value == old(state.value) - 1
    {
      OneIsHarmless(m, t, state.value);
      Apply(Sub, Int(m), State(true, 1));
    }

    method PostDecrement() returns (before: State)
      requires Valid() && m.Supports(Int(m))
      modifies this
      ensures Valid() && before == old(state)
      ensures state.isValid <==> old(state.isValid) && t.Has(old(state.value) - 1)
      ensures state.isValid ==> state.value == old(state.value) - 1
    {
      before := state;
      OneIsHarmless(m, t, state.value);
      Apply(Sub, Int(m), State(true, 1));
    }
  }

  function Int(m: Machine): IntType {
    IntType(true, m.intBits)
  }

  // Even where int and t have no type in common.
  lemma {:induction false} OneIsHarmless(m: Machine, t: IntType, x: int)
    requires m.Valid() && m.Supports(t) && m.Supports(Int(m)) && t.Has(x)
    ensures Int(m).Has(1)
    ensures t.Has(x + 1) ==> Representable(m, Add, t, Int(m), x, 1)
    ensures t.Has(x - 1) ==> Representable(m, Sub, t, Int(m), x, 1)
  {
  }
}
