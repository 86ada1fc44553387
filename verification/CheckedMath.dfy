/**
 * base/numerics/checked_math_impl.h and checked_math.h for integers: the
 * operations on two types, and CheckedNumeric, which remembers failures.
 */
module CheckedMath {
  import opened IntegerTypes
  import opened SafeConversions
  import opened CheckedArithmetic

  datatype Op = Add | Sub | Mul | Div

  // Division as C++ does it, cutting off towards zero.
  function Quotient(x: int, y: int): int
    requires y != 0
  {
    if x >= 0 then x / y else -((-x) / y)
  }

  lemma {:induction false} QuotientCutsOff(x: int, y: int)
    requires y != 0
    ensures var rest := x - Quotient(x, y) * y;
            && -(if y < 0 then -y else y) < rest < (if y < 0 then -y else y)
            && (x >= 0 ==> rest >= 0) && (x <= 0 ==> rest <= 0)
  {
  }

  predicate Defined(op: Op, x: int, y: int) {
    op == Div ==> y != 0
  }

  // The mathematical result.
  function Exact(op: Op, x: int, y: int): int {
    match op
    case Add => x + y
    case Sub => x - y
    case Mul => x * y
    case Div => if y == 0 then 0 else Quotient(x, y)
  }

  // ---------------------------------------------------------------------------
  // Promotions for arithmetic.

  predicate IsIntegerArithmeticSafe(p: IntType, l: IntType, r: IntType) {
    && (l.signed ==> p.signed) && p.bits >= 2 * l.bits
    && (r.signed ==> p.signed) && p.bits >= 2 * r.bits
  }

  function FastPromotion(m: Machine, l: IntType, r: IntType): IntType {
    var p, signed := MaxExponentPromotion(l, r), l.signed || r.signed;
    if IsIntegerArithmeticSafe(IntType(signed, m.maxBits), p, p) then TwiceWider(p, signed)
    else BigEnoughPromotion(m, l, r).target
  }

  // The one that addition and subtraction use.
  function WordPromotion(m: Machine, l: IntType, r: IntType): IntType {
    var fast := FastPromotion(m, l, r);
    if fast.bits > m.pointerBits then BigEnoughPromotion(m, l, r).target else fast
  }

  predicate IsContained(m: Machine, l: IntType, r: IntType) {
    BigEnoughPromotion(m, l, r).isContained
  }

  // What is true of both promotions.
  ghost predicate Promotes(m: Machine, p: IntType, l: IntType, r: IntType) {
    && p.Valid() && l.Valid() && r.Valid()
    && (IsContained(m, l, r) ==> p.Contains(l) && p.Contains(r))
    && (!IsContained(m, l, r) ==> p == IntType(false, m.maxBits) && !IsIntegerArithmeticSafe(p, l, r))
    && (p.signed ==> l.signed || r.signed)
  }

  lemma {:induction false} FastPromotes(m: Machine, l: IntType, r: IntType)
    requires m.Valid() && m.Supports(l) && m.Supports(r)
    ensures Promotes(m, FastPromotion(m, l, r), l, r)
    ensures Promotes(m, WordPromotion(m, l, r), l, r)
    ensures Promotes(m, BigEnoughPromotion(m, l, r).target, l, r)
  {
    var p := TwiceWider(MaxExponentPromotion(l, r), l.signed || r.signed);
    BigEnoughExact(m, l, r);
    StaticRangeExact(p, l);
    StaticRangeExact(p, r);
  }

  // ---------------------------------------------------------------------------
  // Room in a type twice as wide.

  lemma {:induction false} HalfWidth(t: IntType, k: nat, x: int)
    requires 2 <= t.bits <= k && t.Has(x)
    ensures Pow2(k) >= 4
    ensures t.signed ==> -Pow2(k) <= 2 * x < Pow2(k)
    ensures !t.signed ==> 0 <= x < Pow2(k)
  {
    assert Pow2(t.bits) == 2 * Pow2(t.bits - 1);
    if t.bits < k {
      Pow2Grows(t.bits, k);
    }
    assert Pow2(2) == 2 * Pow2(1) && Pow2(1) == 2 * Pow2(0);
    if 2 < k {
      Pow2Grows(2, k);
    }
  }

  lemma {:induction false} AbsProduct(x: int, y: int, a: int, b: int)
    requires -a <= x <= a && -b <= y <= b
    ensures -(a * b) <= x * y <= a * b
  {
  }

  lemma {:induction false} Squares(k: int)
    requires k >= 4
    ensures 4 * k <= k * k && k * (k - 1) < k * k && (k - 1) * k < k * k
  {
  }

  lemma {:induction false} SquareRoom(k: int, x: int, y: int)
    requires k >= 4 && -k < x < k && -k < y < k
    ensures -(k * k) < x * y < k * k
    ensures -k <= 2 * x <= k ==> -(k * k) < 2 * (x * y) < k * k
  {
    Squares(k);
    AbsProduct(x, y, k, k - 1);
    if -k <= 2 * x <= k {
      AbsProduct(2 * x, y, k, k - 1);
      assert 2 * x * y == 2 * (x * y);
    }
  }

  lemma {:induction false} RoomOf(p: IntType, k: nat)
    requires k >= 2 && p.bits >= 2 * k
    ensures Pow2(p.bits) == 2 * Pow2(p.bits - 1)
    ensures Pow2(k) >= 4 && 4 * Pow2(k) <= Pow2(k) * Pow2(k) <= Pow2(p.bits)
  {
    HalfWidth(IntType(false, k), k, 0);
    Squares(Pow2(k));
    Pow2Sum(k, k);
    if 2 * k < p.bits {
      Pow2Grows(2 * k, p.bits);
    }
  }

  // Sums and differences of the operands of a safe operation.
  lemma {:induction false} RoomForSums(p: IntType, t: IntType, u: IntType, x: int, y: int)
    requires t.bits >= 2 && u.bits >= 2 && p.Valid() && t.Has(x) && u.Has(y)
    requires IsIntegerArithmeticSafe(p, t, u) && (p.signed ==> t.signed || u.signed)
    ensures p.Has(x + y) && (p.signed ==> p.Has(x - y))
  {
    var k := if t.bits >= u.bits then t.bits else u.bits;
    HalfWidth(t, k, x);
    HalfWidth(u, k, y);
    RoomOf(p, k);
  }

  // A difference below zero wraps around to more than the operands' types have.
  lemma {:induction false} RoomForWrapping(p: IntType, t: IntType, u: IntType, x: int, y: int)
    requires t.bits >= 2 && u.bits >= 2 && p.Valid() && t.Has(x) && u.Has(y)
    requires IsIntegerArithmeticSafe(p, t, u) && !p.signed
    ensures t.Max() < x - y + Pow2(p.bits) && u.Max() < x - y + Pow2(p.bits)
  {
    var k := if t.bits >= u.bits then t.bits else u.bits;
    HalfWidth(t, k, x);
    HalfWidth(u, k, y);
    HalfWidth(t, k, t.Max());
    HalfWidth(u, k, u.Max());
    RoomOf(p, k);
  }

  // And products.
  lemma {:induction false} ProductBounds(q: int, w: int, x: int, y: int, xSigned: bool, ySigned: bool)
    requires q >= 4 && q * q <= w
    requires if xSigned then -q <= 2 * x < q else 0 <= x < q
    requires if ySigned then -q <= 2 * y < q else 0 <= y < q
    ensures if xSigned || ySigned then -w <= 2 * (x * y) < w else 0 <= x * y < w
  {
    if xSigned {
      SquareRoom(q, x, y);
    } else {
      SquareRoom(q, y, x);
      assert x * y == y * x;
    }
  }

  lemma {:induction false} RoomForProducts(p: IntType, t: IntType, u: IntType, x: int, y: int)
    requires t.bits >= 2 && u.bits >= 2 && p.Valid() && t.Has(x) && u.Has(y)
    requires IsIntegerArithmeticSafe(p, t, u) && (p.signed ==> t.signed || u.signed)
    ensures p.Has(x * y)
  {
    var k := if t.bits >= u.bits then t.bits else u.bits;
    HalfWidth(t, k, x);
    HalfWidth(u, k, y);
    RoomOf(p, k);
    ProductBounds(Pow2(k), Pow2(p.bits), x, y, t.signed, u.signed);
  }

  // ---------------------------------------------------------------------------
  // Checked*Op::Do<V>.

  // CheckedMulFastOp::is_supported, without the assembly of ARM.
  predicate FastMul(m: Machine, l: IntType, r: IntType) {
    match m.compiler
    case Portable => false
    case Gcc => true
    case Clang =>
      exists signed: bool :: var pointer := IntType(signed, m.pointerBits);
                             IsTypeInRange(pointer, l) && IsTypeInRange(pointer, r)
  }

  // Operations that the compiler's own check carries out directly.
  predicate IsBuiltin(m: Machine, op: Op, l: IntType, r: IntType) {
    match op
    case Add => m.compiler != Portable
    case Sub => m.compiler != Portable
    case Mul => FastMul(m, l, r)
    case Div => false
  }

  // What such a check does with the mathematical result.
  function Builtin(v: IntType, exact: int): Outcome
    requires v.Valid()
  {
    Outcome(v.Has(exact), Cast(v, exact))
  }

  // The operation on the promoted type.
  function AddSubIn(p: IntType, safe: bool, op: Op, a: int, b: int): Outcome
    requires (op == Add || op == Sub) && p.Valid()
  {
    if safe then Outcome(true, Cast(p, Exact(op, a, b)))
    else if op == Add then CheckedAddImpl(p, a, b)
    else CheckedSubImpl(p, a, b)
  }

  function MulIn(p: IntType, builtin: bool, safe: bool, a: int, b: int): Outcome
    requires p.Valid() && p.Has(a) && p.Has(b)
  {
    if builtin then Builtin(p, a * b)
    else if safe then Outcome(true, Cast(p, a * b)) else CheckedMulImpl(p, a, b)
  }

  // And the check that the type of the result has the value.
  function Narrowed(m: Machine, v: IntType, p: IntType, presult: Outcome): Outcome
    requires m.Valid() && v.Valid() && p.Valid()
  {
    Outcome(presult.ok && IsValueInRange(m, v, p, presult.value), Cast(v, presult.value))
  }

  function DoAddSub(m: Machine, op: Op, t: IntType, u: IntType, v: IntType, x: int, y: int): Outcome
    requires (op == Add || op == Sub) && m.Valid() && m.Supports(t) && m.Supports(u) && v.Valid()
  {
    FastPromotes(m, t, u);
    var p := WordPromotion(m, t, u);
    if !IsValueInRange(m, p, t, x) || !IsValueInRange(m, p, u, y) then Outcome(false, 0)
    else Narrowed(m, v, p, AddSubIn(p, IsIntegerArithmeticSafe(p, t, u), op, Cast(p, x), Cast(p, y)))
  }

  function DoMul(m: Machine, t: IntType, u: IntType, v: IntType, x: int, y: int): Outcome
    requires m.Valid() && m.Supports(t) && m.Supports(u) && v.Valid()
  {
    FastPromotes(m, t, u);
    var p := FastPromotion(m, t, u);
    if (!IsValueInRange(m, p, t, x) || !IsValueInRange(m, p, u, y)) && x != 0 && y != 0 then Outcome(false, 0)
    else
      CastRange(p, x);
      CastRange(p, y);
      Narrowed(m, v, p, MulIn(p, FastMul(m, p, p), IsIntegerArithmeticSafe(p, t, u), Cast(p, x), Cast(p, y)))
  }

  lemma {:induction false} DivisorNotZero(m: Machine, p: IntType, l: IntType, u: IntType, y: int)
    requires m.Valid() && m.Supports(u) && Promotes(m, p, l, u) && u.Has(y) && y != 0
    ensures Cast(p, y) != 0
  {
    if p.Has(y) {
      CastExact(p, y);
    } else {
      HalfWidth(u, m.maxBits, y);
      CastNear(p, y);
    }
  }

  function DoDiv(m: Machine, t: IntType, u: IntType, v: IntType, x: int, y: int): Outcome
    requires m.Valid() && m.Supports(t) && m.Supports(u) && v.Valid() && t.Has(x) && u.Has(y)
  {
    FastPromotes(m, t, u);
    var p := BigEnoughPromotion(m, t, u).target;
    if y == 0 then Outcome(false, 0)
    else if t.signed && u.signed && IsTypeInRange(t, p) && Cast(p, x) == p.Min() && y == Cast(u, -1) then
      Outcome(false, 0)
    else if (!IsValueInRange(m, p, t, x) || !IsValueInRange(m, p, u, y)) && x != 0 then Outcome(false, 0)
    else
      DivisorNotZero(m, p, t, u, y);
      Narrowed(m, v, p, Outcome(true, Cast(p, Quotient(Cast(p, x), Cast(p, y)))))
  }

  function Do(m: Machine, op: Op, t: IntType, u: IntType, v: IntType, x: int, y: int): Outcome
    requires m.Valid() && m.Supports(t) && m.Supports(u) && v.Valid() && t.Has(x) && u.Has(y)
  {
    if IsBuiltin(m, op, t, u) then Builtin(v, Exact(op, x, y))
    else
      match op
      case Add => DoAddSub(m, op, t, u, v, x, y)
      case Sub => DoAddSub(m, op, t, u, v, x, y)
      case Mul => DoMul(m, t, u, v, x, y)
      case Div => DoDiv(m, t, u, v, x, y)
  }

  // ---------------------------------------------------------------------------
  // Exactness.

  // When the widest signed and the widest unsigned type meet there is no common
  // type, and negative numbers get through only where they do not matter.
  predicate Promotable(m: Machine, op: Op, t: IntType, u: IntType, x: int, y: int) {
    || IsContained(m, t, u)
    || (x >= 0 && y >= 0 && Exact(op, x, y) >= 0)
    || (op == Mul && (x == 0 || y == 0))
    || (op == Div && x == 0)
  }

  // The compiler's own checks have no such trouble.
  predicate Representable(m: Machine, op: Op, t: IntType, u: IntType, x: int, y: int) {
    IsBuiltin(m, op, t, u) || Promotable(m, op, t, u, x, y)
  }

  lemma {:induction false} NarrowedExact(m: Machine, v: IntType, p: IntType, presult: Outcome)
    requires m.Valid() && v.Valid() && p.Valid() && p.Has(presult.value)
    ensures Narrowed(m, v, p, presult).ok <==> presult.ok && v.Has(presult.value)
    ensures Narrowed(m, v, p, presult).ok ==> Narrowed(m, v, p, presult).value == presult.value
  {
    IsValueInRangeExact(m, v, p, presult.value);
    CastExact(v, presult.value);
  }

  // Which operands and results the promoted type has.
  lemma {:induction false} PromotedHas(m: Machine, op: Op, p: IntType, t: IntType, u: IntType, v: IntType,
                                       x: int, y: int)
    requires m.Valid() && m.Supports(t) && m.Supports(u) && t.Has(x) && u.Has(y)
    requires (v == t || v == u) && Promotes(m, p, t, u) && v.Has(Exact(op, x, y))
    ensures p.Has(x) && p.Has(y) && p.Has(Exact(op, x, y)) <==>
            IsContained(m, t, u) || (x >= 0 && y >= 0 && Exact(op, x, y) >= 0)
  {
    HalfWidth(t, m.maxBits, x);
    HalfWidth(u, m.maxBits, y);
    HalfWidth(v, m.maxBits, Exact(op, x, y));
  }

  lemma {:induction false} AddSubInExact(m: Machine, op: Op, t: IntType, u: IntType, v: IntType, p: IntType,
                                         x: int, y: int)
    requires (op == Add || op == Sub) && m.Valid() && m.Supports(t) && m.Supports(u) && t.Has(x) && u.Has(y)
    requires (v == t || v == u) && Promotes(m, p, t, u) && p.Has(x) && p.Has(y)
    ensures var r := AddSubIn(p, IsIntegerArithmeticSafe(p, t, u), op, x, y);
            && p.Has(r.value)
            && (r.ok && v.Has(r.value) <==> p.Has(Exact(op, x, y)) && v.Has(Exact(op, x, y)))
            && (r.ok && v.Has(r.value) ==> r.value == Exact(op, x, y))
  {
    CastRange(p, Exact(op, x, y));
    CastNear(p, Exact(op, x, y));
    if IsIntegerArithmeticSafe(p, t, u) {
      RoomForSums(p, t, u, x, y);
      if !p.signed {
        RoomForWrapping(p, t, u, x, y);
      }
    } else if op == Add {
      CheckedAddImplExact(p, x, y);
    } else {
      CheckedSubImplExact(p, x, y);
    }
  }

  lemma {:induction false} AddSubByPromotion(m: Machine, op: Op, t: IntType, u: IntType, v: IntType, p: IntType,
                                             x: int, y: int)
    requires (op == Add || op == Sub) && m.Valid() && m.Supports(t) && m.Supports(u) && t.Has(x) && u.Has(y)
    requires (v == t || v == u) && p == WordPromotion(m, t, u) && Promotes(m, p, t, u)
    ensures var r := DoAddSub(m, op, t, u, v, x, y);
            && (r.ok <==> v.Has(Exact(op, x, y)) && p.Has(x) && p.Has(y) && p.Has(Exact(op, x, y)))
            && (r.ok ==> r.value == Exact(op, x, y))
  {
    IsValueInRangeExact(m, p, t, x);
    IsValueInRangeExact(m, p, u, y);
    if p.Has(x) && p.Has(y) {
      CastExact(p, x);
      CastExact(p, y);
      var presult := AddSubIn(p, IsIntegerArithmeticSafe(p, t, u), op, x, y);
      AddSubInExact(m, op, t, u, v, p, x, y);
      NarrowedExact(m, v, p, presult);
      assert DoAddSub(m, op, t, u, v, x, y) == Narrowed(m, v, p, presult);
    }
  }

  lemma {:induction false} AddSubExact(m: Machine, op: Op, t: IntType, u: IntType, v: IntType, x: int, y: int)
    requires (op == Add || op == Sub) && m.Valid() && m.Supports(t) && m.Supports(u) && t.Has(x) && u.Has(y)
    requires v == t || v == u
    ensures var r := DoAddSub(m, op, t, u, v, x, y);
            && (r.ok <==> v.Has(Exact(op, x, y)) && Promotable(m, op, t, u, x, y))
            && (r.ok ==> r.value == Exact(op, x, y))
  {
    FastPromotes(m, t, u);
    var p := WordPromotion(m, t, u);
    AddSubByPromotion(m, op, t, u, v, p, x, y);
    if v.Has(Exact(op, x, y)) {
      PromotedHas(m, op, p, t, u, v, x, y);
    }
  }

  // By each of the three ways.
  lemma {:induction false} MulInValue(p: IntType, builtin: bool, safe: bool, a: int, b: int)
    requires p.Valid() && p.Has(a) && p.Has(b) && (safe ==> p.Has(a * b))
    ensures var r := MulIn(p, builtin, safe, a, b);
            && p.Has(r.value) && (r.ok <==> p.Has(a * b)) && (r.ok ==> r.value == a * b)
  {
    var product: int := a * b;
    CastRange(p, product);
    CastExact(p, product);
    CheckedMulImplExact(p, a, b);
    CheckedMulImplRange(p, a, b);
  }

  lemma {:induction false} MulInExact(m: Machine, t: IntType, u: IntType, p: IntType, x: int, y: int)
    requires m.Valid() && m.Supports(t) && m.Supports(u) && t.Has(x) && u.Has(y)
    requires Promotes(m, p, t, u) && ((p.Has(x) && p.Has(y)) || x == 0 || y == 0)
    ensures p.Has(Cast(p, x)) && p.Has(Cast(p, y))
    ensures var r := MulIn(p, FastMul(m, p, p), IsIntegerArithmeticSafe(p, t, u), Cast(p, x), Cast(p, y));
            && p.Has(r.value) && (r.ok <==> p.Has(x * y)) && (r.ok ==> r.value == x * y)
  {
    var a, b := Cast(p, x), Cast(p, y);
    CastRange(p, x);
    CastRange(p, y);
    CastExact(p, x);
    CastExact(p, y);
    CastExact(p, 0);
    assert a * b == x * y;
    if IsIntegerArithmeticSafe(p, t, u) {
      RoomForProducts(p, t, u, x, y);
    }
    MulInValue(p, FastMul(m, p, p), IsIntegerArithmeticSafe(p, t, u), a, b);
  }

  lemma {:induction false} MulExact(m: Machine, t: IntType, u: IntType, v: IntType, x: int, y: int)
    requires m.Valid() && m.Supports(t) && m.Supports(u) && t.Has(x) && u.Has(y) && (v == t || v == u)
    ensures var r := DoMul(m, t, u, v, x, y);
            && (r.ok <==> v.Has(Exact(Mul, x, y)) && Promotable(m, Mul, t, u, x, y))
            && (r.ok ==> r.value == Exact(Mul, x, y))
  {
    FastPromotes(m, t, u);
    var p := FastPromotion(m, t, u);
    assert Exact(Mul, x, y) == x * y;
    if v.Has(Exact(Mul, x, y)) {
      PromotedHas(m, Mul, p, t, u, v, x, y);
    }
    IsValueInRangeExact(m, p, t, x);
    IsValueInRangeExact(m, p, u, y);
    if (p.Has(x) && p.Has(y)) || x == 0 || y == 0 {
      MulInExact(m, t, u, p, x, y);
      NarrowedExact(m, v, p, MulIn(p, FastMul(m, p, p), IsIntegerArithmeticSafe(p, t, u), Cast(p, x), Cast(p, y)));
    }
  }

  lemma {:induction false} QuotientSize(x: int, y: int)
    requires y != 0
    ensures y == 1 ==> Quotient(x, y) == x
    ensures y == -1 ==> Quotient(x, y) == -x
    ensures x >= 0 && y > 0 ==> 0 <= Quotient(x, y) <= x
    ensures y != 1 && y != -1 ==> -(if x < 0 then -x else x) <= 2 * Quotient(x, y) <= (if x < 0 then -x else x)
  {
    var a, b := if x < 0 then -x else x, if y < 0 then -y else y;
    QuotientMagnitude(a, b);
    if y < 0 {
      QuotientNegative(a, b);
    }
  }

  lemma {:induction false} QuotientMagnitude(a: nat, b: int)
    requires b > 0
    ensures 0 <= a / b <= a && (b == 1 ==> a / b == a) && (b >= 2 ==> 2 * (a / b) <= a)
  {
    var q := a / b;
    FactorSize(q, b, a % b);
  }

  lemma {:induction false} FactorSize(q: int, b: int, r: int)
    requires 0 <= r < b && q * b + r >= 0
    ensures 0 <= q <= q * b + r && (b == 1 ==> q * b + r == q) && (b >= 2 ==> 2 * q <= q * b + r)
  {
  }

  lemma {:induction false} QuotientNegative(a: nat, b: int)
    requires b > 0
    ensures a / (-b) == -(a / b)
  {
  }

  // Only the least value divided by -1 leaves the promoted type.
  lemma {:induction false} QuotientHas(p: IntType, x: int, y: int)
    requires p.Valid() && p.Has(x) && (p.Has(y) || x == 0) && y != 0
    ensures p.Has(Quotient(x, y)) <==> !(p.signed && x == p.Min() && y == -1)
  {
    QuotientSize(x, y);
  }

  lemma {:induction false} DivPromoted(m: Machine, t: IntType, u: IntType, p: IntType, x: int, y: int)
    requires m.Valid() && m.Supports(t) && m.Supports(u) && t.Has(x) && u.Has(y) && y != 0
    requires p == BigEnoughPromotion(m, t, u).target && Promotes(m, p, t, u)
    requires p.Has(x) && (p.Has(y) || x == 0)
    ensures t.signed && u.signed && IsTypeInRange(t, p) && Cast(p, x) == p.Min() && y == Cast(u, -1) <==>
            !p.Has(Quotient(x, y))
    ensures Cast(p, y) != 0 && Quotient(Cast(p, x), Cast(p, y)) == Quotient(x, y)
  {
    DivisorNotZero(m, p, t, u, y);
    QuotientHas(p, x, y);
    CastExact(p, x);
    CastExact(p, y);
    if u.signed {
      CastExact(u, -1);
    }
    if p.signed && x == p.Min() {
      StaticRangeExact(t, p);
      Ranges(t, p);
    }
  }

  lemma {:induction false} DivByPromotion(m: Machine, t: IntType, u: IntType, v: IntType, p: IntType, x: int, y: int)
    requires m.Valid() && m.Supports(t) && m.Supports(u) && t.Has(x) && u.Has(y) && (v == t || v == u) && y != 0
    requires p == BigEnoughPromotion(m, t, u).target && Promotes(m, p, t, u)
    ensures var r, q := DoDiv(m, t, u, v, x, y), Quotient(x, y);
            && (r.ok <==> p.Has(x) && (p.Has(y) || x == 0) && p.Has(q) && v.Has(q))
            && (r.ok ==> r.value == q)
  {
    IsValueInRangeExact(m, p, t, x);
    IsValueInRangeExact(m, p, u, y);
    if p.Has(x) && (p.Has(y) || x == 0) {
      DivPromoted(m, t, u, p, x, y);
      var q := Quotient(x, y);
      if p.Has(q) {
        CastExact(p, q);
        NarrowedExact(m, v, p, Outcome(true, q));
      }
    }
  }

  lemma {:induction false} DivExact(m: Machine, t: IntType, u: IntType, v: IntType, x: int, y: int)
    requires m.Valid() && m.Supports(t) && m.Supports(u) && t.Has(x) && u.Has(y) && (v == t || v == u)
    ensures var r := DoDiv(m, t, u, v, x, y);
            && (r.ok <==> y != 0 && v.Has(Exact(Div, x, y)) && Promotable(m, Div, t, u, x, y))
            && (r.ok ==> r.value == Exact(Div, x, y))
  {
    FastPromotes(m, t, u);
    var p := BigEnoughPromotion(m, t, u).target;
    if y != 0 {
      DivByPromotion(m, t, u, v, p, x, y);
      if x == 0 {
        ZeroQuotient(y);
        assert p.Has(0) && v.Has(0);
      } else if v.Has(Exact(Div, x, y)) {
        PromotedHas(m, Div, p, t, u, v, x, y);
      }
    }
  }

  lemma {:induction false} ZeroQuotient(y: int)
    requires y != 0
    ensures Quotient(0, y) == 0
  {
  }

  /**
   * Any operation, on any two types, for a result in either: it fails exactly
   * when the result is undefined, or does not fit, or the operands have no type
   * in common; and otherwise it delivers the mathematical result.
   */
  lemma {:induction false} DoExact(m: Machine, op: Op, t: IntType, u: IntType, v: IntType, x: int, y: int)
    requires m.Valid() && m.Supports(t) && m.Supports(u) && t.Has(x) && u.Has(y) && (v == t || v == u)
    ensures var r := Do(m, op, t, u, v, x, y);
            && (r.ok <==> Defined(op, x, y) && v.Has(Exact(op, x, y)) && Representable(m, op, t, u, x, y))
            && (r.ok ==> r.value == Exact(op, x, y))
  {
    if IsBuiltin(m, op, t, u) {
      CastExact(v, Exact(op, x, y));
    } else {
      match op
      case Add => AddSubExact(m, op, t, u, v, x, y);
      case Sub => AddSubExact(m, op, t, u, v, x, y);
      case Mul => MulExact(m, t, u, v, x, y);
      case Div => DivExact(m, t, u, v, x, y);
    }
  }
}
