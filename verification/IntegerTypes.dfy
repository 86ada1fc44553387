/**
 * Integer types of any width, the conversions between them, and the bits of
 * their values.
 */
module IntegerTypes {
  function Pow2(n: nat): (p: int)
    ensures p >= 1
  {
    if n == 0 then 1 else 2 * Pow2(n - 1)
  }

  lemma {:induction false} Pow2Grows(a: nat, b: nat)
    requires a < b
    ensures 2 * Pow2(a) <= Pow2(b)
    decreases b
  {
    if a < b - 1 {
      Pow2Grows(a, b - 1);
    }
  }

  lemma {:induction false} Pow2Sum(a: nat, b: nat)
    ensures Pow2(a) * Pow2(b) == Pow2(a + b)
  {
    if a > 0 {
      Pow2Sum(a - 1, b);
      assert Pow2(a) * Pow2(b) == 2 * (Pow2(a - 1) * Pow2(b));
    }
  }

  datatype IntType = IntType(signed: bool, bits: nat) {
    ghost predicate Valid() {
      bits >= 1
    }

    // numeric_limits::digits, lowest() and max().
    function Digits(): int {
      if signed then bits - 1 else bits
    }

    function Min(): int
      requires bits >= 1
    {
      if signed then -Pow2(bits - 1) else 0
    }

    function Max(): int
      requires bits >= 1
    {
      if signed then Pow2(bits - 1) - 1 else Pow2(bits) - 1
    }

    predicate Has(v: int)
      requires bits >= 1
    {
      Min() <= v <= Max()
    }

    predicate Contains(other: IntType)
      requires bits >= 1 && other.bits >= 1
    {
      Min() <= other.Min() && other.Max() <= Max()
    }

    function MakeUnsigned(): IntType {
      IntType(false, bits)
    }

    function MakeSigned(): IntType {
      IntType(true, bits)
    }
  }

  // static_cast<t>(v): the value of t that differs from v by a multiple of 2^bits.
  function Cast(t: IntType, v: int): int
    requires t.bits >= 1
    decreases if v > t.Max() then v - t.Max() else if v < t.Min() then t.Min() - v else 0
  {
    assert Pow2(t.bits) == 2 * Pow2(t.bits - 1);
    if v > t.Max() then Cast(t, v - Pow2(t.bits))
    else if v < t.Min() then Cast(t, v + Pow2(t.bits))
    else v
  }

  lemma {:induction false} CastRange(t: IntType, v: int)
    requires t.bits >= 1
    ensures t.Has(Cast(t, v))
    ensures exists k: int :: Cast(t, v) == v + k * Pow2(t.bits)
    decreases if v > t.Max() then v - t.Max() else if v < t.Min() then t.Min() - v else 0
  {
    var m := Pow2(t.bits);
    assert m == 2 * Pow2(t.bits - 1);
    if v > t.Max() {
      CastRange(t, v - m);
      var k: int :| Cast(t, v - m) == v - m + k * m;
      assert (k - 1) * m == k * m - m;
      assert Cast(t, v) == v + (k - 1) * m;
    } else if v < t.Min() {
      CastRange(t, v + m);
      var k: int :| Cast(t, v + m) == v + m + k * m;
      assert (k + 1) * m == k * m + m;
      assert Cast(t, v) == v + (k + 1) * m;
    } else {
      assert v == v + 0 * m;
    }
  }

  lemma {:induction false} Multiples(d: int, m: int)
    requires m > 0
    ensures d >= 1 ==> d * m >= m
    ensures d <= -1 ==> d * m <= -m
  {
  }

  /** Only one value of the type is so many multiples of 2^bits away. */
  lemma {:induction false} CastUnique(t: IntType, v: int, r: int, k: int)
    requires t.bits >= 1 && t.Has(r) && v == r + k * Pow2(t.bits)
    ensures Cast(t, v) == r
  {
    var m := Pow2(t.bits);
    assert m == 2 * Pow2(t.bits - 1);
    CastRange(t, v);
    var j: int :| Cast(t, v) == v + j * m;
    assert (j + k) * m == j * m + k * m;
    Multiples(j + k, m);
  }

  /** A conversion keeps a value exactly when the type has it. */
  lemma {:induction false} CastExact(t: IntType, v: int)
    requires t.bits >= 1
    ensures t.Has(v) <==> Cast(t, v) == v
  {
    CastRange(t, v);
  }

  // A value that is below the range, or above it, by less than 2^bits.
  lemma {:induction false} CastNear(t: IntType, v: int)
    requires t.bits >= 1
    ensures t.Has(v) ==> Cast(t, v) == v
    ensures t.Has(v + Pow2(t.bits)) ==> Cast(t, v) == v + Pow2(t.bits)
    ensures t.Has(v - Pow2(t.bits)) ==> Cast(t, v) == v - Pow2(t.bits)
  {
  }

  lemma {:induction false} CastCongruent(t: IntType, v: int, w: int, k: int)
    requires t.bits >= 1 && v == w + k * Pow2(t.bits)
    ensures Cast(t, v) == Cast(t, w)
  {
    CastRange(t, w);
    var m := Pow2(t.bits);
    var j: int :| Cast(t, w) == w + j * m;
    assert (k - j) * m == k * m - j * m;
    CastUnique(t, v, Cast(t, w), k - j);
  }

  // A conversion on the way, to a type of the same width, changes nothing.
  lemma {:induction false} CastTwice(t: IntType, u: IntType, v: int)
    requires t.bits >= 1 && u.bits == t.bits
    ensures Cast(t, Cast(u, v)) == Cast(t, v)
    ensures Cast(t, 0 - Cast(u, v)) == Cast(t, -v)
  {
    CastRange(u, v);
    var k: int :| Cast(u, v) == v + k * Pow2(t.bits);
    CastCongruent(t, Cast(u, v), v, k);
    assert (-k) * Pow2(t.bits) == -(k * Pow2(t.bits));
    CastCongruent(t, 0 - Cast(u, v), -v, -k);
  }

  function Clamp(t: IntType, v: int): int
    requires t.bits >= 1
  {
    if v < t.Min() then t.Min() else if v > t.Max() then t.Max() else v
  }

  // ---------------------------------------------------------------------------
  // The bitwise operators on n bits.

  function Xor(n: nat, a: nat, b: nat): nat {
    if n == 0 then 0 else 2 * Xor(n - 1, a / 2, b / 2) + (a + b) % 2
  }

  function And(n: nat, a: nat, b: nat): nat {
    if n == 0 then 0 else 2 * And(n - 1, a / 2, b / 2) + (if a % 2 == 1 && b % 2 == 1 then 1 else 0)
  }

  predicate TopBit(n: nat, a: nat)
    requires n >= 1
  {
    a >= Pow2(n - 1)
  }

  lemma {:induction false} TopBits(n: nat, a: nat, b: nat)
    requires n >= 1 && a < Pow2(n) && b < Pow2(n)
    ensures Xor(n, a, b) < Pow2(n) && And(n, a, b) < Pow2(n)
    ensures TopBit(n, Xor(n, a, b)) <==> TopBit(n, a) != TopBit(n, b)
    ensures TopBit(n, And(n, a, b)) <==> TopBit(n, a) && TopBit(n, b)
  {
    if n == 1 {
      assert Xor(0, a / 2, b / 2) == 0 && And(0, a / 2, b / 2) == 0;
    } else {
      TopBits(n - 1, a / 2, b / 2);
    }
  }
}
