/**
 * The decimal parser of base/strings/string_number_conversions.cc, for an
 * integer type of any width.
 */
module NumberParsing {
  import opened IntegerTypes

  // isspace() in the C locale.
  predicate IsWhitespace(c: char) {
    9 as char <= c <= 13 as char || c == ' '
  }

  predicate IsDigit(c: char) {
    '0' <= c <= '9'
  }

  function Digit(c: char): (d: int)
    requires IsDigit(c)
    ensures 0 <= d <= 9
  {
    c as int - '0' as int
  }

  // ---------------------------------------------------------------------------
  // What a numeral means.

  // The first position from i on where there is no whitespace.
  function SkipWhitespace(s: string, i: nat): (j: nat)
    requires i <= |s|
    ensures i <= j <= |s|
    decreases |s| - i
  {
    if i < |s| && IsWhitespace(s[i]) then SkipWhitespace(s, i + 1) else i
  }

  // The end of the digits that start at i.
  function DigitsEnd(s: string, i: nat): (j: nat)
    requires i <= |s|
    ensures i <= j <= |s| && AllDigits(s, i, j) && (j < |s| ==> !IsDigit(s[j]))
    decreases |s| - i
  {
    if i < |s| && IsDigit(s[i]) then DigitsEnd(s, i + 1) else i
  }

  predicate AllDigits(s: string, i: nat, j: nat)
    requires i <= j <= |s|
  {
    forall k | i <= k < j :: IsDigit(s[k])
  }

  // The decimal value of the digits from i to j.
  function Numeral(s: string, i: nat, j: nat): (n: nat)
    requires i <= j <= |s| && AllDigits(s, i, j)
  {
    if i == j then 0 else 10 * Numeral(s, i, j - 1) + Digit(s[j - 1])
  }

  // Where the sign would be, whether it is a minus, and where the digits start.
  predicate HasMinus(s: string) {
    var i := SkipWhitespace(s, 0);
    i < |s| && s[i] == '-'
  }

  function DigitsStart(s: string): (i: nat)
    ensures i <= |s|
  {
    var i := SkipWhitespace(s, 0);
    if i < |s| && (s[i] == '-' || s[i] == '+') then i + 1 else i
  }

  function Signed(negative: bool, n: int): int {
    if negative then -n else n
  }

  // The number that the string starts with, whatever its size.
  function Number(s: string): int {
    Signed(HasMinus(s), Numeral(s, DigitsStart(s), DigitsEnd(s, DigitsStart(s))))
  }

  // An optional sign and one digit or more, and nothing else.
  predicate IsNumeral(s: string) {
    SkipWhitespace(s, 0) == 0 && DigitsStart(s) < |s| && DigitsEnd(s, DigitsStart(s)) == |s|
  }

  lemma {:induction false} NumeralGrows(s: string, i: nat, j: nat, k: nat)
    requires i <= j <= k <= |s| && AllDigits(s, i, k)
    ensures Numeral(s, i, j) <= Numeral(s, i, k)
    decreases k
  {
    if j < k {
      NumeralGrows(s, i, j, k - 1);
    }
  }

  // ---------------------------------------------------------------------------
  // The parser.

  // C++ division of the least value by ten cuts off towards zero.
  function MinQuotient(t: IntType): int
    requires t.Valid()
  {
    -((-t.Min()) / 10)
  }

  function MinRemainder(t: IntType): int
    requires t.Valid()
  {
    t.Min() - 10 * MinQuotient(t)
  }

  // The condition of Positive::CheckBounds and Negative::CheckBounds.
  predicate InBounds(t: IntType, negative: bool, output: int, digit: int)
    requires t.Valid()
  {
    if !negative then
      !(output > t.Max() / 10 || (output == t.Max() / 10 && digit > t.Max() % 10))
    else
      !(output < MinQuotient(t) || (output == MinQuotient(t) && digit > 0 - MinRemainder(t)))
  }

  /** It lets through exactly the digits for which there is room. */
  lemma {:induction false} InBoundsExact(t: IntType, negative: bool, output: int, digit: int)
    requires t.Valid() && t.Has(output) && 0 <= digit <= 9 && (t.signed ==> 0 <= Signed(negative, output))
    ensures t.signed || !negative ==>
              (InBounds(t, negative, output, digit) <==> t.Has(10 * output + Signed(negative, digit)))
    ensures !t.signed && negative ==> (InBounds(t, negative, output, digit) <==> output != 0 || digit == 0)
  {
  }

  function Limit(t: IntType, negative: bool): int
    requires t.Valid()
  {
    if negative then t.Min() else t.Max()
  }

  method CheckBounds(t: IntType, negative: bool, output: int, digit: int) returns (ok: bool, newOutput: int)
    requires t.Valid()
    ensures ok <==> InBounds(t, negative, output, digit)
    ensures t.Has(output) && 0 <= digit <= 9 && 0 <= Signed(negative, output) && (t.signed || !negative) ==>
              (ok <==> t.Has(10 * output + Signed(negative, digit)))
    ensures newOutput == if ok then output else Limit(t, negative)
  {
    if !negative {
      if output > t.Max() / 10 || (output == t.Max() / 10 && digit > t.Max() % 10) {
        return false, t.Max();
      }
    } else {
      if output < MinQuotient(t) || (output == MinQuotient(t) && digit > 0 - MinRemainder(t)) {
        return false, t.Min();
      }
    }
    return true, output;
  }

  datatype Outcome = Outcome(ok: bool, value: int)

  // What becomes of an output when the digits from `current` on are still to come.
  function Accumulated(t: IntType, negative: bool, s: string, begin: nat, current: nat, output: int): Outcome
    requires t.Valid() && begin <= current <= |s|
    decreases |s| - current
  {
    if current == |s| then Outcome(true, output)
    else if !IsDigit(s[current]) then Outcome(false, output)
    else
      var digit := Digit(s[current]);
      if current != begin && !InBounds(t, negative, output, digit) then Outcome(false, Limit(t, negative))
      else
        var shifted := if current != begin then Cast(t, 10 * output) else output;
        Accumulated(t, negative, s, begin, current + 1, Cast(t, shifted + Signed(negative, digit)))
  }

  // Multiplying by ten and adding a digit, as the type wraps around.
  lemma {:induction false} TimesTen(t: IntType, v: int)
    requires t.Valid()
    ensures Cast(t, 10 * Cast(t, v)) == Cast(t, 10 * v)
  {
    CastRange(t, v);
    var k: int :| Cast(t, v) == v + k * Pow2(t.bits);
    assert (10 * k) * Pow2(t.bits) == 10 * (k * Pow2(t.bits));
    CastCongruent(t, 10 * Cast(t, v), 10 * v, 10 * k);
  }

  lemma {:induction false} PlusDigit(t: IntType, v: int, d: int)
    requires t.Valid()
    ensures Cast(t, Cast(t, v) + d) == Cast(t, v + d)
  {
    CastRange(t, v);
    var k: int :| Cast(t, v) == v + k * Pow2(t.bits);
    CastCongruent(t, Cast(t, v) + d, v + d, k);
  }

  // One more digit after a numeral of value v.
  lemma {:induction false} Advance(t: IntType, negative: bool, v: nat, output: int, d: int)
    requires t.Valid() && output == Cast(t, Signed(negative, v)) && 0 <= d <= 9
    ensures var next := Signed(negative, 10 * v + d);
            && Cast(t, Cast(t, 10 * output) + Signed(negative, d)) == Cast(t, next)
            && t.Has(output)
            && (t.Has(next) ==> output == Signed(negative, v) && Cast(t, 10 * output) == 10 * output)
  {
    TimesTen(t, Signed(negative, v));
    PlusDigit(t, 10 * Signed(negative, v), Signed(negative, d));
    CastRange(t, Signed(negative, v));
    CastExact(t, Signed(negative, v));
    CastExact(t, 10 * Signed(negative, v));
    assert t.Min() <= 0 <= t.Max();
  }

  // Negating a nonzero value of an unsigned type does not give zero.
  lemma {:induction false} NegatedUnsigned(t: IntType, v: int)
    requires t.Valid() && !t.signed && t.Has(v) && v > 0
    ensures Cast(t, -v) == Pow2(t.bits) - v != 0
  {
  }

  lemma {:induction false} DigitFits(t: IntType, d: int)
    requires t.bits >= 5 && 0 <= d <= 9
    ensures t.Has(d) && (t.signed ==> t.Has(-d))
  {
    assert Pow2(4) == 16 by {
      assert Pow2(1) == 2 && Pow2(2) == 4 && Pow2(3) == 8;
    }
    if t.bits > 5 {
      Pow2Grows(4, t.bits - 1);
    }
    assert Pow2(t.bits) == 2 * Pow2(t.bits - 1);
  }

  // Neither the multiplication nor the addition leaves the type.
  lemma {:induction false} NoOverflow(t: IntType, negative: bool, v: nat, digit: int)
    requires t.Valid() && 0 <= digit <= 9 && t.Has(Signed(negative, 10 * v + digit))
    ensures t.Has(10 * Signed(negative, v)) && t.Has(10 * Signed(negative, v) + Signed(negative, digit))
    ensures var shifted := Cast(t, 10 * Signed(negative, v));
            shifted == 10 * Signed(negative, v)
            && Cast(t, shifted + Signed(negative, digit)) == Signed(negative, 10 * v + digit)
  {
  }

  // One digit, in a type that has room for a number of this sign.
  lemma {:induction false} DigitExact(t: IntType, negative: bool, v: nat, digit: int)
    requires t.bits >= 5 && (t.signed || !negative) && t.Has(Signed(negative, v)) && 0 <= digit <= 9
    ensures var next := Signed(negative, 10 * v + digit);
            && (InBounds(t, negative, Signed(negative, v), digit) <==> t.Has(next))
            && (v == 0 ==> t.Has(next) && Cast(t, Signed(negative, v) + Signed(negative, digit)) == next)
            && (t.Has(next) ==> Cast(t, Cast(t, 10 * Signed(negative, v)) + Signed(negative, digit)) == next)
            && (!t.Has(next) ==> if negative then next < t.Min() else next > t.Max())
  {
    InBoundsExact(t, negative, Signed(negative, v), digit);
    DigitFits(t, digit);
    CastExact(t, Signed(negative, digit));
    if t.Has(Signed(negative, 10 * v + digit)) {
      NoOverflow(t, negative, v, digit);
    }
  }

  lemma {:induction false} AccumulatedStep(t: IntType, negative: bool, s: string, begin: nat, current: nat, v: nat,
                                            output: int, next: int)
    requires t.bits >= 5 && (t.signed || !negative) && begin <= current < |s| && IsDigit(s[current])
    requires output == Signed(negative, v) && t.Has(output) && (current == begin ==> v == 0)
    requires next == Signed(negative, 10 * v + Digit(s[current]))
    ensures Accumulated(t, negative, s, begin, current, output) ==
            (if t.Has(next) then Accumulated(t, negative, s, begin, current + 1, next)
             else Outcome(false, Limit(t, negative)))
  {
    DigitExact(t, negative, v, Digit(s[current]));
  }

  // Once a number is too large, all that start with it are.
  lemma {:induction false} BeyondLimit(t: IntType, negative: bool, v: nat, w: nat)
    requires t.Valid() && (t.signed || !negative) && v <= w && !t.Has(Signed(negative, v))
    ensures !t.Has(Signed(negative, w)) && Clamp(t, Signed(negative, w)) == Limit(t, negative)
  {
  }

  // The digits end here.
  lemma {:induction false} AccumulatedEnd(t: IntType, negative: bool, s: string, begin: nat, end: nat, output: int)
    requires t.Valid() && begin <= end <= |s| && end == DigitsEnd(s, begin)
    ensures Accumulated(t, negative, s, begin, end, output) == Outcome(end == |s|, output)
  {
  }

  /** For signed types, and for numbers without a minus, the result saturates. */
  lemma {:induction false} AccumulatedExact(t: IntType, negative: bool, s: string, begin: nat, current: nat, end: nat,
                                             output: int)
    requires t.bits >= 5 && (t.signed || !negative) && begin <= current <= end <= |s| && end == DigitsEnd(s, begin)
    requires output == Signed(negative, Numeral(s, begin, current)) && t.Has(output)
    ensures var exact := Signed(negative, Numeral(s, begin, end));
            Accumulated(t, negative, s, begin, current, output) == Outcome(end == |s| && t.Has(exact), Clamp(t, exact))
    decreases |s| - current
  {
    if current == end {
      AccumulatedEnd(t, negative, s, begin, end, output);
    } else {
      var next := Signed(negative, Numeral(s, begin, current + 1));
      AccumulatedStep(t, negative, s, begin, current, Numeral(s, begin, current), output, next);
      if t.Has(next) {
        AccumulatedExact(t, negative, s, begin, current + 1, end, next);
      } else {
        NumeralGrows(s, begin, current + 1, end);
        BeyondLimit(t, negative, Numeral(s, begin, current + 1), Numeral(s, begin, end));
      }
    }
  }

  // The first `k` digits, negated, are a multiple of 2^bits.
  predicate WrapsToZero(t: IntType, s: string, begin: nat, k: nat)
    requires t.Valid() && begin <= k <= |s| && AllDigits(s, begin, k)
  {
    Cast(t, Signed(true, Numeral(s, begin, k))) == 0
  }

  ghost predicate ReachesZero(t: IntType, s: string, begin: nat, from: nat, end: nat)
    requires t.Valid() && begin <= end <= |s| && AllDigits(s, begin, end)
  {
    exists k | begin < k <= end && from <= k :: WrapsToZero(t, s, begin, k)
  }

  // A zero on the way is followed by zeros only.
  ghost predicate StaysZero(t: IntType, s: string, begin: nat, from: nat, end: nat)
    requires t.Valid() && begin <= end <= |s| && AllDigits(s, begin, end)
  {
    forall k | begin < k < end && from <= k && WrapsToZero(t, s, begin, k) :: s[k] == '0'
  }

  // One digit of an unsigned number behind a minus sign.
  lemma {:induction false} MinusStep(t: IntType, s: string, begin: nat, current: nat, end: nat)
    requires t.Valid() && !t.signed && begin <= current < end <= |s| && end == DigitsEnd(s, begin)
    requires current > begin && WrapsToZero(t, s, begin, current) ==> s[current] == '0'
    ensures var v, digit := Numeral(s, begin, current), Digit(s[current]);
            var output := Cast(t, Signed(true, v));
            Accumulated(t, true, s, begin, current, output)
            == Accumulated(t, true, s, begin, current + 1, Cast(t, Signed(true, Numeral(s, begin, current + 1))))
    ensures ReachesZero(t, s, begin, current, end) <==> ReachesZero(t, s, begin, current + 1, end)
    ensures StaysZero(t, s, begin, current, end) <==> StaysZero(t, s, begin, current + 1, end)
  {
    var v, digit := Numeral(s, begin, current), Digit(s[current]);
    var output := Cast(t, Signed(true, v));
    assert Numeral(s, begin, current + 1) == 10 * v + digit;
    Advance(t, true, v, output, digit);
    InBoundsExact(t, true, output, digit);
    CastExact(t, 0);
    if current > begin && WrapsToZero(t, s, begin, current) {
      assert WrapsToZero(t, s, begin, current + 1);
    }
  }

  /**
   * For an unsigned type and a minus sign the number wraps around, digit by digit,
   * until it is zero by chance; then only zeros may follow.
   */
  lemma {:induction false} AccumulatedMinus(t: IntType, s: string, begin: nat, current: nat, end: nat)
    requires t.Valid() && !t.signed && begin <= current <= end <= |s| && end == DigitsEnd(s, begin)
    ensures Accumulated(t, true, s, begin, current, Cast(t, Signed(true, Numeral(s, begin, current))))
            == Outcome(end == |s| && StaysZero(t, s, begin, current, end),
                       if ReachesZero(t, s, begin, current, end) then 0
                       else Cast(t, Signed(true, Numeral(s, begin, end))))
    decreases |s| - current
  {
    var output := Cast(t, Signed(true, Numeral(s, begin, current)));
    if current < end {
      if current > begin && WrapsToZero(t, s, begin, current) && s[current] != '0' {
        CastRange(t, Signed(true, Numeral(s, begin, current)));
        InBoundsExact(t, true, output, Digit(s[current]));
      } else {
        MinusStep(t, s, begin, current, end);
        AccumulatedMinus(t, s, begin, current + 1, end);
      }
    }
  }

  // ---------------------------------------------------------------------------
  // Whole strings.

  // The result of IteratorRangeToNumber::Invoke.
  function Parsed(t: IntType, s: string): Outcome
    requires t.Valid()
  {
    var first := DigitsStart(s);
    var r := if first == |s| then Outcome(false, 0) else Accumulated(t, HasMinus(s), s, first, first, 0);
    Outcome(SkipWhitespace(s, 0) == 0 && r.ok, r.value)
  }

  // What the result should be.
  function Saturated(t: IntType, s: string): Outcome
    requires t.Valid()
  {
    Outcome(IsNumeral(s) && t.Has(Number(s)), Clamp(t, Number(s)))
  }

  /** Signed types, and strings without a minus: the saturated number, true exactly if it is all there is and fits. */
  lemma {:induction false} ParsedExact(t: IntType, s: string)
    requires t.bits >= 5 && (t.signed || !HasMinus(s))
    ensures Parsed(t, s) == Saturated(t, s)
  {
    var first := DigitsStart(s);
    DigitFits(t, 0);
    AccumulatedExact(t, HasMinus(s), s, first, first, DigitsEnd(s, first), 0);
  }

  /** Unsigned types behind a minus: every output and every answer. */
  lemma {:induction false} ParsedMinus(t: IntType, s: string)
    requires t.Valid() && !t.signed && HasMinus(s)
    ensures var first := DigitsStart(s);
            var end := DigitsEnd(s, first);
            Parsed(t, s) ==
              Outcome(SkipWhitespace(s, 0) == 0 && first < end == |s| && StaysZero(t, s, first, first, end),
                      if ReachesZero(t, s, first, first, end) then 0 else Cast(t, Number(s)))
  {
    var first := DigitsStart(s);
    CastExact(t, 0);
    AccumulatedMinus(t, s, first, first, DigitsEnd(s, first));
  }

  lemma {:induction false} ZeroNumeral(s: string, i: nat, j: nat)
    requires i <= j <= |s| && AllDigits(s, i, j) && Numeral(s, i, j) == 0
    ensures forall k | i <= k < j :: s[k] == '0'
    decreases j
  {
    if i < j {
      ZeroNumeral(s, i, j - 1);
    }
  }

  /**
   * Such an output is the saturated number exactly if there is no digit or some
   * leading digits make a multiple of 2^bits (a leading zero does). The answer is
   * then wrong exactly if the number is not zero and only zeros follow to the end.
   */
  lemma {:induction false} MinusExactIff(t: IntType, s: string)
    requires t.Valid() && !t.signed && HasMinus(s)
    ensures var first := DigitsStart(s);
            var end := DigitsEnd(s, first);
            var zero := ReachesZero(t, s, first, first, end);
            && (Parsed(t, s).value == Clamp(t, Number(s)) <==> end == first || zero)
            && (Parsed(t, s) == Saturated(t, s) <==>
                end == first || (zero && !(IsNumeral(s) && Number(s) != 0 && StaysZero(t, s, first, first, end))))
  {
    var first := DigitsStart(s);
    var end := DigitsEnd(s, first);
    ParsedMinus(t, s);
    CastExact(t, 0);
    assert Number(s) <= 0;
    assert end > first && Cast(t, Number(s)) == 0 ==> WrapsToZero(t, s, first, end);
    assert end == first ==> Number(s) == 0;
    if Number(s) == 0 {
      ZeroNumeral(s, first, end);
    }
  }

  /** In particular, N without leading zeros, if it fits, is answered with 2^bits - N, and true. */
  lemma {:induction false} MinusNumeral(t: IntType, s: string)
    requires t.Valid() && !t.signed && HasMinus(s) && IsNumeral(s) && s[1] != '0' && t.Has(-Number(s))
    ensures Parsed(t, s) == Outcome(true, Pow2(t.bits) + Number(s))
  {
    ParsedMinus(t, s);
    assert DigitsStart(s) == 1;
    NumeralGrows(s, 1, 2, |s|);
    assert Number(s) == Signed(true, Numeral(s, 1, |s|)) < 0;
    forall k | 1 < k <= |s| ensures !WrapsToZero(t, s, 1, k) {
      NumeralGrows(s, 1, 2, k);
      NumeralGrows(s, 1, k, |s|);
      NegatedUnsigned(t, Numeral(s, 1, k));
    }
    NegatedUnsigned(t, -Number(s));
  }

  // ---------------------------------------------------------------------------
  // What is parsed, on the strings themselves, with the character codes written as
  // numbers: 43 is +, 45 is -, and 48 to 57 are the digits.

  predicate IsDigitString(w: string) {
    w != "" && forall k | 0 <= k < |w| :: 48 <= w[k] as int <= 57
  }

  predicate IsSign(sign: string) {
    sign == "" || sign == [43 as char] || sign == [45 as char]
  }

  lemma {:induction false} ShiftedNumeral(before: string, s: string, i: nat, j: nat)
    requires i <= j <= |s| && AllDigits(s, i, j)
    ensures AllDigits(before + s, |before| + i, |before| + j)
    ensures Numeral(before + s, |before| + i, |before| + j) == Numeral(s, i, j)
    decreases j
  {
    assert forall k | i <= k < j :: (before + s)[|before| + k] == s[k];
    if i < j {
      ShiftedNumeral(before, s, i, j - 1);
    }
  }

  lemma {:induction false} ShiftedSkip(before: string, s: string, i: nat)
    requires i <= |s|
    ensures SkipWhitespace(before + s, |before| + i) == |before| + SkipWhitespace(s, i)
    decreases |s| - i
  {
    if i < |s| {
      assert (before + s)[|before| + i] == s[i];
      ShiftedSkip(before, s, i + 1);
    }
  }

  lemma {:induction false} ShiftedAccumulated(t: IntType, negative: bool, before: string, s: string, begin: nat,
                                              current: nat, output: int)
    requires t.Valid() && begin <= current <= |s|
    ensures Accumulated(t, negative, before + s, |before| + begin, |before| + current, output)
            == Accumulated(t, negative, s, begin, current, output)
    decreases |s| - current
  {
    if current < |s| {
      assert (before + s)[|before| + current] == s[current];
      if IsDigit(s[current]) {
        var shifted := if current != begin then Cast(t, 10 * output) else output;
        ShiftedAccumulated(t, negative, before, s, begin, current + 1,
                           Cast(t, shifted + Signed(negative, Digit(s[current]))));
      }
    }
  }

  /** A plus sign in front of a digit makes no difference. */
  lemma {:induction false} PlusSign(t: IntType, w: string)
    requires t.Valid() && w != "" && 48 <= w[0] as int <= 57
    ensures Parsed(t, [43 as char] + w) == Parsed(t, w)
  {
    var s := [43 as char] + w;
    assert s[0] == '+' && s[1] == w[0];
    assert DigitsStart(s) == 1 && DigitsStart(w) == 0;
    ShiftedAccumulated(t, false, [43 as char], w, 0, 0, 0);
  }

  /** Whitespace in front makes the answer false, and leaves the output. */
  lemma {:induction false} LeadingSpace(t: IntType, c: char, s: string)
    requires t.Valid() && (9 <= c as int <= 13 || c as int == 32)
    ensures Parsed(t, [c] + s) == Outcome(false, Parsed(t, s).value)
  {
    var p := [c] + s;
    ShiftedSkip([c], s, 0);
    assert SkipWhitespace(p, 0) == SkipWhitespace(p, 1) == 1 + SkipWhitespace(s, 0);
    var i := SkipWhitespace(s, 0);
    assert i < |s| ==> p[i + 1] == s[i];
    var first := DigitsStart(s);
    assert DigitsStart(p) == first + 1 && HasMinus(p) == HasMinus(s);
    ShiftedAccumulated(t, HasMinus(s), [c], s, first, first, 0);
  }

  // Where the digits of a signed digit string are.
  lemma {:induction false} SignedLayout(sign: string, w: string, x: string, s: string)
    requires IsSign(sign) && IsDigitString(w) && (x != "" ==> !(48 <= x[0] as int <= 57)) && s == sign + w + x
    ensures SkipWhitespace(s, 0) == 0 && (HasMinus(s) <==> sign == [45 as char]) && DigitsStart(s) == |sign|
    ensures DigitsEnd(s, |sign|) == |sign + w|
  {
    assert s[0] == if sign == "" then w[0] else sign[0];
    forall k | |sign| <= k < |sign + w| ensures IsDigit(s[k]) {
      assert s[k] == w[k - |sign|];
    }
    assert |sign + w| < |s| ==> s[|sign + w|] == x[0];
    EndUnique(s, |sign|, |sign + w|);
  }

  // And that they make the same number there.
  lemma {:induction false} SignedDigits(sign: string, w: string, x: string)
    requires IsSign(sign) && IsDigitString(w) && (x != "" ==> !(48 <= x[0] as int <= 57))
    ensures var s := sign + w + x;
            && SkipWhitespace(s, 0) == 0 && (HasMinus(s) <==> sign == [45 as char])
            && DigitsStart(s) == |sign| && DigitsEnd(s, |sign|) == |sign + w|
            && AllDigits(w, 0, |w|)
            && Numeral(s, |sign|, |sign + w|) == Numeral(w, 0, |w|)
  {
    SignedLayout(sign, w, x, sign + w + x);
    assert sign + w + x == sign + (w + x);
    NumeralOfPrefix(w, x, |w|);
    ShiftedNumeral(sign, w + x, 0, |w|);
  }

  lemma {:induction false} EndUnique(s: string, i: nat, j: nat)
    requires i <= j <= |s| && AllDigits(s, i, j) && (j < |s| ==> !IsDigit(s[j]))
    ensures DigitsEnd(s, i) == j
  {
  }

  lemma {:induction false} NumeralOfPrefix(w: string, x: string, j: nat)
    requires j <= |w| && AllDigits(w, 0, |w|)
    ensures AllDigits(w + x, 0, j) && Numeral(w + x, 0, j) == Numeral(w, 0, j)
    decreases j
  {
    assert forall k | 0 <= k < j :: (w + x)[k] == w[k];
    if j > 0 {
      NumeralOfPrefix(w, x, j - 1);
    }
  }

  /** A signed digit string is a numeral, and a minus sign negates it. */
  lemma {:induction false} SignedNumber(sign: string, w: string)
    requires IsSign(sign) && IsDigitString(w)
    ensures IsNumeral(sign + w) && Number(sign + w) == if sign == [45 as char] then -Number(w) else Number(w)
  {
    SignedDigits(sign, w, "");
    SignedDigits("", w, "");
    assert sign + w + "" == sign + w && "" + w + "" == w;
  }

  // The number of a digit string is the numeral it is.
  lemma {:induction false} PlainNumber(w: string)
    requires IsDigitString(w)
    ensures IsNumeral(w) && AllDigits(w, 0, |w|) && Number(w) == Numeral(w, 0, |w|)
  {
    SignedDigits("", w, "");
    assert "" + w + "" == w && "" + w == w;
  }

  /** One digit is its own number, and one digit more makes ten times the number and the digit. */
  lemma {:induction false} DigitByDigit(w: string, c: char)
    requires 48 <= c as int <= 57
    ensures IsNumeral([c]) && Number([c]) == c as int - 48
    ensures IsDigitString(w) ==> IsNumeral(w + [c]) && Number(w + [c]) == 10 * Number(w) + (c as int - 48)
  {
    PlainNumber([c]);
    assert Numeral([c], 0, 1) == 10 * Numeral([c], 0, 0) + Digit(c);
    if IsDigitString(w) {
      var v := w + [c];
      PlainNumber(w);
      PlainNumber(v);
      NumeralOfPrefix(w, [c], |w|);
      assert v[|w|] == c;
    }
  }

  lemma {:induction false} OneDigit(t: IntType, c: char)
    requires t.bits >= 5 && 48 <= c as int <= 57
    ensures Parsed(t, [c]) == Outcome(true, c as int - 48)
  {
    DigitByDigit("", c);
    ParsedExact(t, [c]);
    DigitFits(t, c as int - 48);
    assert DigitsStart([c]) == 0;
  }

  // Digits and then something else.
  lemma {:induction false} AccumulatedTrail(t: IntType, negative: bool, s: string, p: string, begin: nat, current: nat,
                                            output: int)
    requires t.Valid() && begin <= current <= |p| < |s| && p == s[..|p|] && |p| == DigitsEnd(s, begin)
    ensures Accumulated(t, negative, s, begin, current, output)
            == Outcome(false, Accumulated(t, negative, p, begin, current, output).value)
    decreases |p| - current
  {
    if current < |p| && (current == begin || InBounds(t, negative, output, Digit(s[current]))) {
      var shifted := if current != begin then Cast(t, 10 * output) else output;
      var next := Cast(t, shifted + Signed(negative, Digit(s[current])));
      AccumulatedTrail(t, negative, s, p, begin, current + 1, next);
      assert Accumulated(t, negative, s, begin, current, output)
          == Accumulated(t, negative, s, begin, current + 1, next);
    }
  }

  /** Anything behind the digits makes the answer false, and leaves the output. */
  lemma {:induction false} TrailingText(t: IntType, sign: string, w: string, x: string)
    requires t.Valid() && IsSign(sign) && IsDigitString(w) && x != "" && !(48 <= x[0] as int <= 57)
    ensures Parsed(t, sign + w + x) == Outcome(false, Parsed(t, sign + w).value)
  {
    var s, first := sign + w + x, |sign|;
    SignedDigits(sign, w, x);
    SignedDigits(sign, w, "");
    assert sign + w + "" == sign + w;
    assert s[..|sign + w|] == sign + w;
    AccumulatedTrail(t, HasMinus(s), s, sign + w, first, first, 0);
  }

  /** Without a digit where the digits should start, the answer is false and the output 0. */
  lemma {:induction false} NoDigits(t: IntType, sign: string, x: string)
    requires t.Valid() && IsSign(sign) && (x != "" ==> !(48 <= x[0] as int <= 57))
    requires sign == "" && x != "" ==> x[0] as int !in {9, 10, 11, 12, 13, 32, 43, 45}
    ensures Parsed(t, sign + x) == Outcome(false, 0)
  {
    var s := sign + x;
    assert s != "" ==> s[0] == if sign == "" then x[0] else sign[0];
    assert x != "" ==> s[|sign|] == x[0];
    assert SkipWhitespace(s, 0) == 0;
    assert DigitsStart(s) == |sign|;
  }

  // Base<Sign>::Invoke, on the digits from `begin` on.
  method InvokeSigned(t: IntType, negative: bool, s: string, begin: nat) returns (ok: bool, output: int)
    requires t.Valid() && begin <= |s|
    ensures Outcome(ok, output) ==
            if begin == |s| then Outcome(false, 0) else Accumulated(t, negative, s, begin, begin, 0)
  {
    output := 0;
    if begin == |s| {
      return false, output;
    }
    var current := begin;
    while current != |s|
      invariant begin <= current <= |s|
      invariant Accumulated(t, negative, s, begin, current, output) == Accumulated(t, negative, s, begin, begin, 0)
    {
      if !IsDigit(s[current]) {
        return false, output;
      }
      var newDigit := Digit(s[current]);
      if current != begin {
        var inBounds;
        inBounds, output := CheckBounds(t, negative, output, newDigit);
        if !inBounds {
          return false, output;
        }
        output := Cast(t, 10 * output);
      }
      output := Cast(t, output + Signed(negative, newDigit));
      current := current + 1;
    }
    return true, output;
  }

  // IteratorRangeToNumber::Invoke
  method StringToNumber(t: IntType, s: string) returns (ok: bool, output: int)
    requires t.bits >= 5
    ensures Outcome(ok, output) == Parsed(t, s)
    ensures t.signed || !HasMinus(s) ==>
              output == Clamp(t, Number(s)) && (ok <==> IsNumeral(s) && t.Has(Number(s)))
    ensures !t.signed && HasMinus(s) && IsNumeral(s) && s[1] != '0' && t.Has(-Number(s)) ==>
              ok && output == Pow2(t.bits) + Number(s)
  {
    var valid := true;
    var begin := 0;
    while begin != |s| && IsWhitespace(s[begin])
      invariant begin <= |s| && SkipWhitespace(s, begin) == SkipWhitespace(s, 0)
      invariant valid <==> begin == 0
    {
      valid := false;
      begin := begin + 1;
    }
    var parsed: bool;
    if begin != |s| && s[begin] == '-' {
      parsed, output := InvokeSigned(t, true, s, begin + 1);
    } else {
      if begin != |s| && s[begin] == '+' {
        begin := begin + 1;
      }
      parsed, output := InvokeSigned(t, false, s, begin);
    }
    ok := valid && parsed;
    if t.signed || !HasMinus(s) {
      ParsedExact(t, s);
    } else if IsNumeral(s) && s[1] != '0' && t.Has(-Number(s)) {
      MinusNumeral(t, s);
    }
  }
}
