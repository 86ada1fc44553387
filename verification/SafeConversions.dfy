/**
 * base/numerics/safe_conversions_impl.h and safe_conversions.h for integers of
 * any width: range checks, promotions, comparisons across types, and casts.
 */
module SafeConversions {
  import opened IntegerTypes

  // Which of the compiler's own overflow checks there are: none, all, or those of
  // clang, which leaves out some multiplications.
  datatype Compiler = Portable | Gcc | Clang

  // The widths of int, intptr_t and intmax_t, and the compiler.
  datatype Machine = Machine(intBits: nat, pointerBits: nat, maxBits: nat, compiler: Compiler) {
    ghost predicate Valid() {
      8 <= intBits <= maxBits && 8 <= pointerBits <= maxBits
    }

    // There is a type twice as wide, unless this one is the widest.
    ghost predicate Supports(t: IntType) {
      t.bits >= 2 && (t.bits == maxBits || 2 * t.bits <= maxBits)
    }
  }

  // ---------------------------------------------------------------------------
  // The usual arithmetic conversions of C++.

  function Promoted(m: Machine, t: IntType): IntType {
    if t.bits < m.intBits || (t.bits == m.intBits && t.signed) then IntType(true, m.intBits) else t
  }

  // decltype(l + r)
  function Common(m: Machine, l: IntType, r: IntType): IntType {
    var p, q := Promoted(m, l), Promoted(m, r);
    if p.signed == q.signed then (if p.bits >= q.bits then p else q)
    else if p.signed then (if q.bits >= p.bits then q else p)
    else (if p.bits >= q.bits then p else q)
  }

  // ---------------------------------------------------------------------------
  // Ranges.

  function MaxExponent(t: IntType): int {
    t.Digits() + 1
  }

  // StaticDstRangeRelationToSrcRange
  predicate IsTypeInRange(dst: IntType, src: IntType) {
    if dst.signed == src.signed then MaxExponent(dst) >= MaxExponent(src)
    else dst.signed && MaxExponent(dst) > MaxExponent(src)
  }

  lemma {:induction false} Ranges(s: IntType, t: IntType)
    requires s.Valid() && t.Valid()
    ensures s.Digits() <= t.Digits() <==> s.Max() <= t.Max()
    ensures s.signed && t.signed ==> (s.bits <= t.bits <==> t.Min() <= s.Min())
    ensures s.Min() <= 0 <= s.Max() && t.Min() <= 0 <= t.Max()
  {
    var a, b := s.Digits(), t.Digits();
    if a < b {
      Pow2Grows(a, b);
    } else if b < a {
      Pow2Grows(b, a);
    }
  }

  /**
   * The static answer: nested types, except that a signed type one bit wider
   * than an unsigned one (no machine has such a pair) is not recognised.
   */
  lemma {:induction false} StaticRangeExact(dst: IntType, src: IntType)
    requires dst.Valid() && src.Valid()
    ensures IsTypeInRange(dst, src) <==>
            dst.Contains(src) && !(dst.signed && !src.signed && dst.bits == src.bits + 1)
  {
    Ranges(dst, src);
    Ranges(src, dst);
  }

  datatype RangeCheck = RangeCheck(inLower: bool, inUpper: bool) {
    predicate IsValid() { inLower && inUpper }
    predicate IsOverflow() { !inUpper && inLower }
    predicate IsUnderflow() { inUpper && !inLower }
  }

  // DstRangeRelationToSrcRangeImpl::Check, with bounds inside the destination type.
  function CheckBounds(m: Machine, dst: IntType, src: IntType, low: int, high: int, value: int): RangeCheck
    requires dst.Valid() && src.Valid() && m.Valid()
  {
    if IsTypeInRange(dst, src) then
      RangeCheck(Cast(dst, src.Min()) >= low || Cast(dst, value) >= low,
                 Cast(dst, src.Max()) <= high || Cast(dst, value) <= high)
    else if dst.signed && src.signed then
      RangeCheck(value >= low, value <= high)
    else if !dst.signed && !src.signed then
      RangeCheck(low == 0 || value >= low, value <= high)
    else
      var promotion := Common(m, src, dst);
      if dst.signed then
        RangeCheck(low <= 0 || Cast(promotion, value) >= Cast(promotion, low),
                   Cast(promotion, value) <= Cast(promotion, high))
      else
        RangeCheck(value >= 0 && (low == 0 || Cast(dst, value) >= low),
                   || Cast(promotion, src.Max()) <= Cast(promotion, high)
                   || Cast(promotion, value) <= Cast(promotion, high))
  }

  // With numeric_limits as the bounds.
  function Check(m: Machine, dst: IntType, src: IntType, value: int): RangeCheck
    requires dst.Valid() && src.Valid() && m.Valid()
  {
    CheckBounds(m, dst, src, dst.Min(), dst.Max(), value)
  }

  // What the usual conversions keep: everything, if they end in a signed type,
  // and otherwise everything that is not negative.
  lemma {:induction false} CommonKeeps(m: Machine, l: IntType, r: IntType, v: int)
    requires m.Valid() && l.Valid() && r.Valid() && (l.Has(v) || r.Has(v))
    ensures Common(m, l, r).Valid()
    ensures Common(m, l, r).signed || v >= 0 ==> Cast(Common(m, l, r), v) == v
  {
    var c := Common(m, l, r);
    Ranges(l, c);
    Ranges(r, c);
    CastExact(c, v);
  }

  // When they end in an unsigned type, the wider of the two is unsigned.
  lemma {:induction false} CommonUnsigned(m: Machine, l: IntType, r: IntType)
    requires m.Valid() && l.Valid() && r.Valid() && !Common(m, l, r).signed
    ensures (!l.signed && l.Max() >= r.Max()) || (!r.signed && r.Max() >= l.Max())
  {
    Ranges(l, r);
    Ranges(r, l);
  }

  /** Every one of the five checks compares with both bounds, and flags only one. */
  lemma {:induction false} CheckExact(m: Machine, dst: IntType, src: IntType, value: int)
    requires m.Valid() && dst.Valid() && src.Valid() && src.Has(value)
    ensures Check(m, dst, src, value) == RangeCheck(value >= dst.Min(), value <= dst.Max())
  {
    StaticRangeExact(dst, src);
    Ranges(dst, src);
    if IsTypeInRange(dst, src) {
      CastRange(dst, value);
    } else if dst.signed != src.signed {
      CommonKeeps(m, src, dst, value);
      CommonKeeps(m, src, dst, src.Max());
      CommonKeeps(m, src, dst, dst.Max());
      if !Common(m, src, dst).signed {
        CommonUnsigned(m, src, dst);
      }
    }
  }

  // The upper bound is negative and turns into a large number on conversion.
  predicate BoundWraps(m: Machine, dst: IntType, src: IntType, high: int, value: int) {
    var promotion := Common(m, src, dst);
    && dst.signed && !src.signed && !IsTypeInRange(dst, src) && !promotion.signed
    && high < 0 && value <= high + Pow2(promotion.bits)
  }

  lemma {:induction false} NegativeHigh(m: Machine, dst: IntType, src: IntType, low: int, high: int, value: int)
    requires m.Valid() && dst.Valid() && src.Valid() && src.Has(value) && dst.Has(high) && low < high < 0
    requires dst.signed && !src.signed && !IsTypeInRange(dst, src)
    ensures CheckBounds(m, dst, src, low, high, value).IsValid() <==> BoundWraps(m, dst, src, high, value)
  {
    var c := Common(m, src, dst);
    CommonKeeps(m, src, dst, value);
    CommonKeeps(m, src, dst, high);
    if !c.signed {
      Ranges(dst, c);
      assert dst.bits <= c.bits;
      assert Pow2(c.bits) == 2 * Pow2(c.bits - 1);
      if dst.bits < c.bits {
        Pow2Grows(dst.bits, c.bits);
      }
      assert Pow2(dst.bits) == 2 * Pow2(dst.bits - 1);
      CastNear(c, high);
    }
  }

  /** Bounds of the caller's own work on every value except where the upper one wraps around. */
  lemma {:induction false} CheckBoundsExact(m: Machine, dst: IntType, src: IntType, low: int, high: int, value: int)
    requires m.Valid() && dst.Valid() && src.Valid() && src.Has(value)
    requires dst.Has(low) && dst.Has(high) && low < high
    ensures (CheckBounds(m, dst, src, low, high, value).IsValid() <==> low <= value <= high)
            <==> !BoundWraps(m, dst, src, high, value)
  {
    StaticRangeExact(dst, src);
    Ranges(dst, src);
    if high < 0 && dst.signed && !src.signed && !IsTypeInRange(dst, src) {
      NegativeHigh(m, dst, src, low, high, value);
    } else {
      CommonKeeps(m, src, dst, value);
      CommonKeeps(m, src, dst, low);
      CommonKeeps(m, src, dst, high);
      CommonKeeps(m, src, dst, src.Max());
      CastExact(dst, value);
      CastExact(dst, src.Min());
      CastExact(dst, src.Max());
    }
  }

  /** With a negative upper bound an unsigned value can pass that is far above it. */
  lemma {:induction false} NegativeUpperBound(m: Machine)
    requires m.Valid()
    ensures var int_, unsigned_ := IntType(true, m.intBits), IntType(false, m.intBits);
            CheckBounds(m, int_, unsigned_, -2, -1, unsigned_.Max()).IsValid()
  {
  }

  // ---------------------------------------------------------------------------
  // Promotions.

  function MaxExponentPromotion(l: IntType, r: IntType): IntType {
    if MaxExponent(l) > MaxExponent(r) then l else r
  }

  datatype Promotion = Promotion(target: IntType, isContained: bool)

  function TwiceWider(t: IntType, signed: bool): IntType {
    IntType(signed, 2 * t.bits)
  }

  function BigEnoughPromotion(m: Machine, l: IntType, r: IntType): Promotion {
    var p := MaxExponentPromotion(l, r);
    if IsTypeInRange(p, l) && IsTypeInRange(p, r) then Promotion(p, true)
    else if p.bits != m.maxBits then Promotion(TwiceWider(p, l.signed || r.signed), true)
    else Promotion(p, false)
  }

  /**
   * A promotion that calls itself contained has every value of both types; the
   * only one that does not is to the widest unsigned type, for a signed operand.
   */
  lemma {:induction false} BigEnoughExact(m: Machine, l: IntType, r: IntType)
    requires m.Valid() && m.Supports(l) && m.Supports(r)
    ensures var p := BigEnoughPromotion(m, l, r);
            && p.target.Valid() && p.target.bits <= m.maxBits
            && (p.isContained ==> p.target.Contains(l) && p.target.Contains(r))
            && (!p.isContained ==> p.target == IntType(false, m.maxBits) && l.signed != r.signed)
  {
    var p := BigEnoughPromotion(m, l, r).target;
    StaticRangeExact(MaxExponentPromotion(l, r), l);
    StaticRangeExact(MaxExponentPromotion(l, r), r);
    StaticRangeExact(p, l);
    StaticRangeExact(p, r);
  }

  // ---------------------------------------------------------------------------
  // Comparisons.

  datatype Relation = Less | LessOrEqual | Greater | GreaterOrEqual | Equal | NotEqual

  predicate Holds(rel: Relation, x: int, y: int) {
    match rel
    case Less => x < y
    case LessOrEqual => x <= y
    case Greater => x > y
    case GreaterOrEqual => x >= y
    case Equal => x == y
    case NotEqual => x != y
  }

  // IsLess<L, R>::Test and its five siblings.
  predicate Test(m: Machine, rel: Relation, l: IntType, r: IntType, lhs: int, rhs: int)
    requires m.Valid() && l.Valid() && r.Valid()
  {
    var lRange, rRange := Check(m, r, l, lhs), Check(m, l, r, rhs);
    var c := Common(m, l, r);
    var x, y := Cast(c, lhs), Cast(c, rhs);
    match rel
    case Less => lRange.IsUnderflow() || rRange.IsOverflow() || (lRange == rRange && x < y)
    case LessOrEqual => lRange.IsUnderflow() || rRange.IsOverflow() || (lRange == rRange && x <= y)
    case Greater => lRange.IsOverflow() || rRange.IsUnderflow() || (lRange == rRange && x > y)
    case GreaterOrEqual => lRange.IsOverflow() || rRange.IsUnderflow() || (lRange == rRange && x >= y)
    case Equal => lRange == rRange && x == y
    case NotEqual => lRange != rRange || x != y
  }

  // If neither operand is out of the other's range, the conversion keeps both.
  lemma {:induction false} TestOperands(m: Machine, l: IntType, r: IntType, lhs: int, rhs: int)
    requires m.Valid() && l.Valid() && r.Valid() && l.Has(lhs) && r.Has(rhs)
    ensures Check(m, r, l, lhs) == RangeCheck(lhs >= r.Min(), lhs <= r.Max())
    ensures Check(m, l, r, rhs) == RangeCheck(rhs >= l.Min(), rhs <= l.Max())
    ensures Check(m, r, l, lhs) == Check(m, l, r, rhs) ==>
              Cast(Common(m, l, r), lhs) == lhs && Cast(Common(m, l, r), rhs) == rhs
  {
    CheckExact(m, r, l, lhs);
    CheckExact(m, l, r, rhs);
    CommonKeeps(m, l, r, lhs);
    CommonKeeps(m, l, r, rhs);
    if !Common(m, l, r).signed {
      CommonUnsigned(m, l, r);
    }
  }

  /** The comparison by range checks is the mathematical one. */
  lemma {:induction false} TestExact(m: Machine, rel: Relation, l: IntType, r: IntType, lhs: int, rhs: int)
    requires m.Valid() && l.Valid() && r.Valid() && l.Has(lhs) && r.Has(rhs)
    ensures Test(m, rel, l, r, lhs, rhs) <==> Holds(rel, lhs, rhs)
  {
    TestOperands(m, l, r, lhs, rhs);
  }

  predicate SafeCompare(m: Machine, rel: Relation, l: IntType, r: IntType, lhs: int, rhs: int)
    requires m.Valid() && m.Supports(l) && m.Supports(r)
  {
    BigEnoughExact(m, l, r);
    var p := BigEnoughPromotion(m, l, r);
    if p.isContained then Test(m, rel, p.target, p.target, Cast(p.target, lhs), Cast(p.target, rhs))
    else Test(m, rel, l, r, lhs, rhs)
  }

  /** So is SafeCompare, with or without a promotion. */
  lemma {:induction false} SafeCompareExact(m: Machine, rel: Relation, l: IntType, r: IntType, lhs: int, rhs: int)
    requires m.Valid() && m.Supports(l) && m.Supports(r) && l.Has(lhs) && r.Has(rhs)
    ensures SafeCompare(m, rel, l, r, lhs, rhs) <==> Holds(rel, lhs, rhs)
  {
    BigEnoughExact(m, l, r);
    var p := BigEnoughPromotion(m, l, r);
    if p.isContained {
      CastExact(p.target, lhs);
      CastExact(p.target, rhs);
      TestExact(m, rel, p.target, p.target, lhs, rhs);
    } else {
      TestExact(m, rel, l, r, lhs, rhs);
    }
  }

  // ---------------------------------------------------------------------------
  // Which values fit.

  predicate IsMaxInRange(m: Machine, dst: IntType, src: IntType)
    requires m.Valid() && dst.Valid() && src.Valid()
  {
    Test(m, GreaterOrEqual, dst, src, dst.Max(), src.Max())
  }

  predicate IsMinInRange(m: Machine, dst: IntType, src: IntType)
    requires m.Valid() && dst.Valid() && src.Valid()
  {
    Test(m, LessOrEqual, dst, src, dst.Min(), src.Min())
  }

  function CommonMax(m: Machine, dst: IntType, src: IntType): int
    requires m.Valid() && dst.Valid() && src.Valid()
  {
    if !IsMaxInRange(m, dst, src) then dst.Max() else Cast(dst, src.Max())
  }

  function CommonMin(m: Machine, dst: IntType, src: IntType): int
    requires m.Valid() && dst.Valid() && src.Valid()
  {
    if !IsMinInRange(m, dst, src) then dst.Min() else Cast(dst, src.Min())
  }

  function CommonMaxOrMin(m: Machine, dst: IntType, src: IntType, isMin: bool): int
    requires m.Valid() && dst.Valid() && src.Valid()
  {
    if isMin then CommonMin(m, dst, src) else CommonMax(m, dst, src)
  }

  /** The limits are those of the two ranges' intersection. */
  lemma {:induction false} CommonLimits(m: Machine, dst: IntType, src: IntType)
    requires m.Valid() && dst.Valid() && src.Valid()
    ensures IsMaxInRange(m, dst, src) <==> dst.Max() >= src.Max()
    ensures IsMinInRange(m, dst, src) <==> dst.Min() <= src.Min()
    ensures forall v: int :: CommonMin(m, dst, src) <= v <= CommonMax(m, dst, src) <==> dst.Has(v) && src.Has(v)
  {
    Ranges(dst, src);
    TestExact(m, GreaterOrEqual, dst, src, dst.Max(), src.Max());
    TestExact(m, LessOrEqual, dst, src, dst.Min(), src.Min());
    CastExact(dst, src.Max());
    CastExact(dst, src.Min());
  }

  // IsValueInRangeFastOp, where it is supported.
  predicate FastInRange(m: Machine, dst: IntType, src: IntType, value: int)
    requires m.Valid() && dst.Valid() && src.Valid()
    requires src.signed && !IsTypeInRange(dst, src)
  {
    if dst.signed then value == Cast(dst, value)
    else Cast(src.MakeUnsigned(), value) <= Cast(src.MakeUnsigned(), CommonMax(m, src, dst))
  }

  predicate IsValueInRange(m: Machine, dst: IntType, src: IntType, value: int)
    requires m.Valid() && dst.Valid() && src.Valid()
  {
    if src.signed && !IsTypeInRange(dst, src) then FastInRange(m, dst, src, value)
    else Check(m, dst, src, value).IsValid()
  }

  /** The fast test gives the answer of the two-sided one. */
  lemma {:induction false} FastInRangeExact(m: Machine, dst: IntType, src: IntType, value: int)
    requires m.Valid() && dst.Valid() && src.Valid() && src.Has(value)
    requires src.signed && !IsTypeInRange(dst, src)
    ensures FastInRange(m, dst, src, value) <==> Check(m, dst, src, value).IsValid()
  {
    CheckExact(m, dst, src, value);
    if dst.signed {
      CastExact(dst, value);
    } else {
      CommonLimits(m, src, dst);
      CastExact(src, dst.Max());
      Ranges(src, dst);
      var u, top := src.MakeUnsigned(), CommonMax(m, src, dst);
      assert 0 <= top <= src.Max();
      CastNear(u, top);
      CastNear(u, value);
    }
  }

  /** A value is in range exactly when the destination type has it. */
  lemma {:induction false} IsValueInRangeExact(m: Machine, dst: IntType, src: IntType, value: int)
    requires m.Valid() && dst.Valid() && src.Valid() && src.Has(value)
    ensures IsValueInRange(m, dst, src, value) <==> dst.Has(value)
  {
    CheckExact(m, dst, src, value);
    if src.signed && !IsTypeInRange(dst, src) {
      FastInRangeExact(m, dst, src, value);
    }
  }

  // ---------------------------------------------------------------------------
  // Saturation.

  function SaturateFast(m: Machine, dst: IntType, src: IntType, value: int): int
    requires m.Valid() && dst.Valid() && src.Valid()
  {
    var saturated :=
      CommonMaxOrMin(m, dst, src, IsMaxInRange(m, dst, src) || (!IsMinInRange(m, dst, src) && src.signed && value < 0));
    if IsValueInRange(m, dst, src, value) then Cast(dst, value) else saturated
  }

  // saturated_cast_impl, with the default limits.
  function SaturateByCheck(m: Machine, dst: IntType, src: IntType, value: int): int
    requires m.Valid() && dst.Valid() && src.Valid()
  {
    var constraint := Check(m, dst, src, value);
    if constraint.inUpper then (if constraint.inLower then Cast(dst, value) else dst.Min()) else dst.Max()
  }

  /** The fast saturating cast and the slow one both clamp. */
  lemma {:induction false} SaturationClamps(m: Machine, dst: IntType, src: IntType, value: int)
    requires m.Valid() && dst.Valid() && src.Valid() && src.Has(value)
    ensures SaturateFast(m, dst, src, value) == Clamp(dst, value)
    ensures SaturateByCheck(m, dst, src, value) == Clamp(dst, value)
  {
    CheckExact(m, dst, src, value);
    IsValueInRangeExact(m, dst, src, value);
    CommonLimits(m, dst, src);
    Ranges(dst, src);
    CastExact(dst, value);
    CastExact(dst, src.Max());
    CastExact(dst, src.Min());
  }
}
