/**
 * Rejection sampling: RandGenerator of base/rand_util.cc, for any largest raw
 * value. The raw values come from the system; here they are a list.
 */
module RandomNumbers {
  // The largest raw value that is not thrown away.
  function MaxAcceptable(max: nat, range: nat): int
    requires range > 0
  {
    max / range * range - 1
  }

  // The raw values that are accepted and give this result.
  function Sources(max: nat, range: nat, result: nat): set<nat>
    requires range > 0
  {
    set v: nat | v <= max && v <= MaxAcceptable(max, range) && v % range == result
  }

  lemma {:induction false} Factors(a: int, b: int, c: nat)
    requires a <= b
    ensures a * c <= b * c && (a < b ==> a * c + c <= b * c)
    decreases b - a
  {
    if a < b {
      Factors(a, b - 1, c);
      assert b * c == (b - 1) * c + c;
    }
  }

  // What is below q multiples of the range, and what is not.
  lemma {:induction false} Below(v: nat, range: nat, q: nat)
    requires 0 < range
    ensures v < q * range <==> v / range < q
  {
    assert v == v / range * range + v % range;
    if v / range <= q {
      Factors(v / range, q, range);
    } else {
      Factors(q, v / range, range);
    }
  }

  lemma {:induction false} Recompose(q: nat, range: nat, k: nat)
    requires k < range
    ensures (q * range + k) / range == q && (q * range + k) % range == k
  {
    var v := q * range + k;
    assert v == v / range * range + v % range;
    if v / range <= q {
      Factors(v / range, q, range);
    } else {
      Factors(q, v / range, range);
    }
  }

  lemma {:induction false} SourceIs(max: nat, range: nat, result: nat, v: nat)
    requires 0 < range
    ensures v in Sources(max, range, result) <==> InClass(v, range, result, max / range)
  {
    Below(v, range, max / range);
    assert max == max / range * range + max % range;
  }

  // Leaves the remainder `result`, among the first n multiples of the range.
  predicate InClass(v: nat, range: nat, result: nat, n: nat)
    requires 0 < range
  {
    v % range == result && v / range < n
  }

  // One more multiple, one more member.
  lemma {:induction false} OneMore(range: nat, result: nat, n: nat) returns (top: nat)
    requires result < range && n > 0
    ensures forall v: nat :: InClass(v, range, result, n) <==> InClass(v, range, result, n - 1) || v == top
    ensures !InClass(top, range, result, n - 1)
  {
    top := (n - 1) * range + result;
    Recompose(n - 1, range, result);
    forall v: nat ensures InClass(v, range, result, n) <==> InClass(v, range, result, n - 1) || v == top {
      assert v == v / range * range + v % range;
    }
  }

  lemma {:induction false} CountBelow(range: nat, result: nat, n: nat, s: set<nat>)
    requires result < range
    requires forall v: nat :: v in s <==> InClass(v, range, result, n)
    ensures |s| == n
    decreases n
  {
    if n == 0 {
      assert s == {};
    } else {
      var top := OneMore(range, result, n);
      CountBelow(range, result, n - 1, s - {top});
    }
  }

  /** Every result has the same number of sources. */
  lemma {:induction false} Uniform(max: nat, range: nat, result: nat)
    requires 0 < range && result < range
    ensures |Sources(max, range, result)| == max / range
  {
    forall v: nat ensures v in Sources(max, range, result) <==> InClass(v, range, result, max / range) {
      SourceIs(max, range, result, v);
    }
    CountBelow(range, result, max / range, Sources(max, range, result));
  }

  /** More than half of the raw values up to max are accepted, and none of the arithmetic overflows. */
  lemma {:induction false} MostAccepted(max: nat, range: nat)
    requires 0 < range <= max
    ensures 0 <= MaxAcceptable(max, range) < max / range * range <= max
    ensures 2 * (MaxAcceptable(max, range) + 1) > max
  {
    var q := max / range;
    assert max == q * range + max % range;
    assert (q - 1) * range >= 0;
  }

  // The draws of the loop: everything before the first acceptable one is thrown away.
  function FirstAccepted(draws: seq<nat>, limit: int): (k: nat)
    ensures k <= |draws| && (k < |draws| ==> draws[k] <= limit)
    ensures forall i | 0 <= i < k :: draws[i] > limit
  {
    if draws == [] || draws[0] <= limit then 0 else FirstAccepted(draws[1..], limit) + 1
  }

  method RandGenerator(max: nat, range: nat, draws: seq<nat>) returns (result: nat, used: nat)
    requires 0 < range <= max
    requires forall i | 0 <= i < |draws| :: draws[i] <= max
    requires exists i | 0 <= i < |draws| :: draws[i] <= MaxAcceptable(max, range)
    ensures 0 < used <= |draws| && used == FirstAccepted(draws, MaxAcceptable(max, range)) + 1
    ensures result < range && draws[used - 1] in Sources(max, range, result)
    ensures result == draws[used - 1] % range && draws[used - 1] < max / range * range
    ensures forall i | 0 <= i < used - 1 :: draws[i] >= max / range * range
  {
    var maxAcceptableValue := max / range * range - 1;
    used := 0;
    var value := draws[used];
    used := used + 1;
    while value > maxAcceptableValue
      invariant 0 < used <= |draws| && value == draws[used - 1]
      invariant forall i | 0 <= i < used - 1 :: draws[i] > maxAcceptableValue
      decreases |draws| - used
    {
      value := draws[used];
      used := used + 1;
    }
    result := value % range;
    assert FirstAccepted(draws, maxAcceptableValue) == used - 1;
  }
}
