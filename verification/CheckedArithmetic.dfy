/**
 * The portable overflow-detecting addition, subtraction and multiplication of
 * base/numerics/checked_math_impl.h, on one integer type of any width.
 */
module CheckedArithmetic {
  import opened IntegerTypes

  // What an operation returns, and what it leaves in *result.
  datatype Outcome = Outcome(ok: bool, value: int)

  // static_cast<SignedDst>((a ^ b) & (c ^ d)) >= 0
  predicate NoSignBit(t: IntType, a: nat, b: nat, c: nat, d: nat)
    requires t.Valid()
  {
    Cast(t.MakeSigned(), And(t.bits, Xor(t.bits, a, b), Xor(t.bits, c, d))) >= 0
  }

  // static_cast<SignedDst>(a ^ b) < 0
  predicate SignBit(t: IntType, a: nat, b: nat)
    requires t.Valid()
  {
    Cast(t.MakeSigned(), Xor(t.bits, a, b)) < 0
  }

  function CheckedAddImpl(t: IntType, x: int, y: int): Outcome
    requires t.Valid()
  {
    var u := t.MakeUnsigned();
    var ux, uy := Cast(u, x), Cast(u, y);
    CastRange(u, x);
    CastRange(u, y);
    var uresult := Cast(u, ux + uy);
    CastRange(u, ux + uy);
    Outcome(if t.signed then NoSignBit(t, uresult, ux, uresult, uy) else uresult >= uy, Cast(t, uresult))
  }

  function CheckedSubImpl(t: IntType, x: int, y: int): Outcome
    requires t.Valid()
  {
    var u := t.MakeUnsigned();
    var ux, uy := Cast(u, x), Cast(u, y);
    CastRange(u, x);
    CastRange(u, y);
    var uresult := Cast(u, ux - uy);
    CastRange(u, ux - uy);
    Outcome(if t.signed then NoSignBit(t, uresult, ux, ux, uy) else x >= y, Cast(t, uresult))
  }

  function SafeUnsignedAbs(t: IntType, value: int): int
    requires t.Valid()
  {
    var u := t.MakeUnsigned();
    if t.signed && value < 0 then Cast(u, 0 - Cast(u, value)) else Cast(u, value)
  }

  lemma {:induction false} SafeUnsignedAbsExact(t: IntType, value: int)
    requires t.Valid() && t.Has(value)
    ensures SafeUnsignedAbs(t, value) == (if value < 0 then -value else value)
  {
    var u := t.MakeUnsigned();
    assert Pow2(t.bits) == 2 * Pow2(t.bits - 1);
    CastNear(u, value);
    if t.signed && value < 0 {
      CastNear(u, 0 - Cast(u, value));
    }
  }

  predicate ProductFits(ux: int, uy: int, identity: int, limit: int)
    requires uy >= 0 && identity >= 0
  {
    uy <= identity || ux <= limit / uy
  }

  function CheckedMulImpl(t: IntType, x: int, y: int): Outcome
    requires t.Valid() && t.Has(x) && t.Has(y)
  {
    var u := t.MakeUnsigned();
    var ux, uy := SafeUnsignedAbs(t, x), SafeUnsignedAbs(t, y);
    SafeUnsignedAbsExact(t, x);
    SafeUnsignedAbsExact(t, y);
    var uresult := Cast(u, ux * uy);
    CastRange(u, x);
    CastRange(u, y);
    var isNegative := t.signed && SignBit(t, Cast(u, x), Cast(u, y));
    Outcome(ProductFits(ux, uy, if !t.signed || isNegative then 1 else 0, t.Max() + if isNegative then 1 else 0),
            Cast(t, if isNegative then Cast(u, 0 - uresult) else uresult))
  }

  // ---------------------------------------------------------------------------
  // Signs.

  lemma {:induction false} SignOfCast(t: IntType, v: int)
    requires t.Valid() && t.signed && t.Has(v)
    ensures var w := Cast(t.MakeUnsigned(), v);
            && 0 <= w < Pow2(t.bits) && (TopBit(t.bits, w) <==> v < 0)
            && w == (if v < 0 then v + Pow2(t.bits) else v)
  {
    assert Pow2(t.bits) == 2 * Pow2(t.bits - 1);
    CastNear(t.MakeUnsigned(), v);
  }

  lemma {:induction false} CastOfSign(t: IntType, w: nat)
    requires t.Valid() && t.signed && w < Pow2(t.bits)
    ensures Cast(t, w) < 0 <==> TopBit(t.bits, w)
    ensures Cast(t, w) == if TopBit(t.bits, w) then w - Pow2(t.bits) else w
  {
    assert Pow2(t.bits) == 2 * Pow2(t.bits - 1);
    CastNear(t, w);
  }

  lemma {:induction false} SignBits(t: IntType, a: nat, b: nat, c: nat, d: nat)
    requires t.Valid() && t.signed
    requires a < Pow2(t.bits) && b < Pow2(t.bits) && c < Pow2(t.bits) && d < Pow2(t.bits)
    ensures NoSignBit(t, a, b, c, d) <==>
            TopBit(t.bits, a) == TopBit(t.bits, b) || TopBit(t.bits, c) == TopBit(t.bits, d)
    ensures SignBit(t, a, b) <==> TopBit(t.bits, a) != TopBit(t.bits, b)
  {
    var n := t.bits;
    TopBits(n, a, b);
    TopBits(n, c, d);
    TopBits(n, Xor(n, a, b), Xor(n, c, d));
    CastOfSign(t, And(n, Xor(n, a, b), Xor(n, c, d)));
    CastOfSign(t, Xor(n, a, b));
  }

  // ---------------------------------------------------------------------------
  // Exactness.

  lemma {:induction false} AddWraps(t: IntType, x: int, y: int)
    requires t.Valid() && t.Has(x) && t.Has(y)
    ensures var u := t.MakeUnsigned();
            Cast(t, Cast(u, Cast(u, x) + Cast(u, y))) == Cast(t, x + y)
  {
  }

  lemma {:induction false} AddUnits(t: IntType, x: int, y: int, ux: int, uy: int)
    requires t.Valid() && t.signed && t.Has(x) && t.Has(y)
    requires ux == Cast(t.MakeUnsigned(), x) && uy == Cast(t.MakeUnsigned(), y)
    ensures var w := Cast(t.MakeUnsigned(), ux + uy);
            && 0 <= ux < Pow2(t.bits) && 0 <= uy < Pow2(t.bits) && 0 <= w < Pow2(t.bits)
            && (t.Has(x + y) <==>
                TopBit(t.bits, w) == TopBit(t.bits, ux) || TopBit(t.bits, w) == TopBit(t.bits, uy))
  {
  }

  lemma {:induction false} AddSignBit(t: IntType, x: int, y: int, ux: int, uy: int, w: int)
    requires t.Valid() && t.signed && t.Has(x) && t.Has(y)
    requires ux == Cast(t.MakeUnsigned(), x) && uy == Cast(t.MakeUnsigned(), y)
    requires w == Cast(t.MakeUnsigned(), ux + uy)
    ensures ux >= 0 && uy >= 0 && w >= 0 && (NoSignBit(t, w, ux, w, uy) <==> t.Has(x + y))
  {
    AddUnits(t, x, y, ux, uy);
    SignBits(t, w, ux, w, uy);
  }

  lemma {:induction false} AddSigned(t: IntType, x: int, y: int)
    requires t.Valid() && t.signed && t.Has(x) && t.Has(y)
    ensures CheckedAddImpl(t, x, y).ok <==> t.Has(x + y)
  {
    var u := t.MakeUnsigned();
    var ux, uy := Cast(u, x), Cast(u, y);
    AddSignBit(t, x, y, ux, uy, Cast(u, ux + uy));
  }

  lemma {:induction false} AddUnsigned(t: IntType, x: int, y: int)
    requires t.Valid() && !t.signed && t.Has(x) && t.Has(y)
    ensures CheckedAddImpl(t, x, y).ok <==> t.Has(x + y)
  {
    assert t.MakeUnsigned() == t;
    CastNear(t, x);
    CastNear(t, y);
    CastNear(t, x + y);
  }

  /** Addition: true exactly when the sum fits; otherwise it has wrapped around. */
  lemma {:induction false} CheckedAddImplExact(t: IntType, x: int, y: int)
    requires t.Valid() && t.Has(x) && t.Has(y)
    ensures CheckedAddImpl(t, x, y).ok <==> t.Has(x + y)
    ensures CheckedAddImpl(t, x, y).value == Cast(t, x + y)
  {
    AddWraps(t, x, y);
    if t.signed {
      AddSigned(t, x, y);
    } else {
      AddUnsigned(t, x, y);
    }
  }

  lemma {:induction false} SubWraps(t: IntType, x: int, y: int)
    requires t.Valid() && t.Has(x) && t.Has(y)
    ensures var u := t.MakeUnsigned();
            Cast(t, Cast(u, Cast(u, x) - Cast(u, y))) == Cast(t, x - y)
  {
  }

  lemma {:induction false} SubUnits(t: IntType, x: int, y: int, ux: int, uy: int)
    requires t.Valid() && t.signed && t.Has(x) && t.Has(y)
    requires ux == Cast(t.MakeUnsigned(), x) && uy == Cast(t.MakeUnsigned(), y)
    ensures var w := Cast(t.MakeUnsigned(), ux - uy);
            && 0 <= ux < Pow2(t.bits) && 0 <= uy < Pow2(t.bits) && 0 <= w < Pow2(t.bits)
            && (t.Has(x - y) <==>
                TopBit(t.bits, w) == TopBit(t.bits, ux) || TopBit(t.bits, ux) == TopBit(t.bits, uy))
  {
  }

  lemma {:induction false} SubSignBit(t: IntType, x: int, y: int, ux: int, uy: int, w: int)
    requires t.Valid() && t.signed && t.Has(x) && t.Has(y)
    requires ux == Cast(t.MakeUnsigned(), x) && uy == Cast(t.MakeUnsigned(), y)
    requires w == Cast(t.MakeUnsigned(), ux - uy)
    ensures ux >= 0 && uy >= 0 && w >= 0 && (NoSignBit(t, w, ux, ux, uy) <==> t.Has(x - y))
  {
    SubUnits(t, x, y, ux, uy);
    SignBits(t, w, ux, ux, uy);
  }

  lemma {:induction false} SubSigned(t: IntType, x: int, y: int)
    requires t.Valid() && t.signed && t.Has(x) && t.Has(y)
    ensures CheckedSubImpl(t, x, y).ok <==> t.Has(x - y)
  {
    var u := t.MakeUnsigned();
    var ux, uy := Cast(u, x), Cast(u, y);
    SubSignBit(t, x, y, ux, uy, Cast(u, ux - uy));
  }

  lemma {:induction false} SubUnsigned(t: IntType, x: int, y: int)
    requires t.Valid() && !t.signed && t.Has(x) && t.Has(y)
    ensures CheckedSubImpl(t, x, y).ok <==> t.Has(x - y)
  {
  }

  /** Subtraction likewise. */
  lemma {:induction false} CheckedSubImplExact(t: IntType, x: int, y: int)
    requires t.Valid() && t.Has(x) && t.Has(y)
    ensures CheckedSubImpl(t, x, y).ok <==> t.Has(x - y)
    ensures CheckedSubImpl(t, x, y).value == Cast(t, x - y)
  {
    SubWraps(t, x, y);
    if t.signed {
      SubSigned(t, x, y);
    } else {
      SubUnsigned(t, x, y);
    }
  }

  lemma {:induction false} DivisionTest(a: nat, b: nat, limit: nat)
    requires b > 0
    ensures a <= limit / b <==> a * b <= limit
  {
    var q := limit / b;
    assert limit == q * b + limit % b;
    if a <= q {
      Multiples(q - a, b);
      assert (q - a) * b == q * b - a * b;
    } else {
      Multiples(a - q, b);
      assert (a - q) * b == a * b - q * b;
    }
  }

  lemma {:induction false} ProductFitsExact(ux: nat, uy: nat, identity: nat, limit: nat)
    requires identity == 0 || (identity == 1 && ux <= limit)
    ensures ProductFits(ux, uy, identity, limit) <==> ux * uy <= limit
  {
    if uy > identity {
      DivisionTest(ux, uy, limit);
    } else if uy == 1 {
      assert ux * uy == ux;
    }
  }

  lemma {:induction false} ProductOfAbs(x: int, y: int, ux: nat, uy: nat)
    requires ux == (if x < 0 then -x else x) && uy == (if y < 0 then -y else y)
    ensures x * y == if (x < 0) != (y < 0) then -(ux * uy) else ux * uy
    ensures ux * uy >= 0 && (uy == 0 ==> ux * uy == 0) && (uy == 1 ==> ux * uy == ux)
  {
  }

  lemma {:induction false} MulSign(t: IntType, x: int, y: int)
    requires t.Valid() && t.signed && t.Has(x) && t.Has(y)
    ensures var u := t.MakeUnsigned();
            Cast(u, x) >= 0 && Cast(u, y) >= 0 && (SignBit(t, Cast(u, x), Cast(u, y)) <==> (x < 0) != (y < 0))
  {
    SignOfCast(t, x);
    SignOfCast(t, y);
    SignBits(t, Cast(t.MakeUnsigned(), x), Cast(t.MakeUnsigned(), y), 0, 0);
  }

  // The magnitude of the product, read as a value of t with the right sign.
  lemma {:induction false} MulValue(t: IntType, product: int, isNegative: bool)
    requires t.Valid() && (isNegative ==> t.signed)
    requires 0 <= product <= t.Max() + if isNegative then 1 else 0
    ensures var u := t.MakeUnsigned();
            && Cast(u, product) == product
            && Cast(t, if isNegative then Cast(u, 0 - product) else product)
               == if isNegative then 0 - product else product
  {
  }

  lemma {:induction false} MulParts(t: IntType, x: int, y: int, ux: int, uy: int, isNegative: bool)
    requires t.Valid() && t.Has(x) && t.Has(y) && (isNegative <==> (x < 0) != (y < 0))
    requires ux == SafeUnsignedAbs(t, x) && uy == SafeUnsignedAbs(t, y)
    ensures ux >= 0 && uy >= 0 && ux * uy >= 0 && x * y == if isNegative then -(ux * uy) else ux * uy
    ensures isNegative || !t.signed ==> ux <= t.Max() + if isNegative then 1 else 0
    ensures t.Has(x * y) <==> ux * uy <= t.Max() + if isNegative then 1 else 0
  {
    SafeUnsignedAbsExact(t, x);
    SafeUnsignedAbsExact(t, y);
    ProductOfAbs(x, y, ux, uy);
  }

  /** Multiplication, the least value times -1 included. */
  lemma {:induction false} CheckedMulImplExact(t: IntType, x: int, y: int)
    requires t.Valid() && t.Has(x) && t.Has(y)
    ensures CheckedMulImpl(t, x, y).ok <==> t.Has(x * y)
    ensures CheckedMulImpl(t, x, y).ok ==> CheckedMulImpl(t, x, y).value == x * y
  {
    var ux, uy := SafeUnsignedAbs(t, x), SafeUnsignedAbs(t, y);
    var isNegative := (x < 0) != (y < 0);
    if t.signed {
      MulSign(t, x, y);
    }
    MulParts(t, x, y, ux, uy, isNegative);
    var limit := t.Max() + if isNegative then 1 else 0;
    ProductFitsExact(ux, uy, if !t.signed || isNegative then 1 else 0, limit);
    var product: int := ux * uy;
    if product <= limit {
      MulValue(t, product, isNegative);
      assert CheckedMulImpl(t, x, y).value == if isNegative then 0 - product else product;
    }
  }

  lemma {:induction false} CheckedMulImplRange(t: IntType, x: int, y: int)
    requires t.Valid() && t.Has(x) && t.Has(y)
    ensures t.Has(CheckedMulImpl(t, x, y).value)
  {
    forall w: int ensures t.Has(Cast(t, w)) {
      CastRange(t, w);
    }
  }
}
