/**
 * Whole strings: what a string of bytes or of 16-bit units says as a list of
 * code points, what a list of code points looks like in either encoding, and
 * that the two undo each other.
 */
module UtfStrings {
  import opened Utf

  // What stands for a code point in the output (U+FFFD for an ill-formed read).
  const REPLACEMENT: CodePoint := 0xFFFD

  function Shown(c: CodePoint): CodePoint {
    if c == BAD then REPLACEMENT else c
  }

  predicate Readable(c: CodePoint) {
    c == BAD || IsScalar(c)
  }

  predicate AllReadable(cs: seq<CodePoint>) {
    forall k :: 0 <= k < |cs| ==> Readable(cs[k])
  }

  predicate AllScalar(cs: seq<CodePoint>) {
    forall k :: 0 <= k < |cs| ==> IsScalar(cs[k])
  }

  function Decoded8(s: seq<Byte>, i: nat): seq<CodePoint>
    requires i <= |s|
    decreases |s| - i
  {
    if i == |s| then [] else [Next8(s, i).code] + Decoded8(s, Next8(s, i).next)
  }

  function Decoded16(s: seq<Unit>, i: nat): seq<CodePoint>
    requires i <= |s|
    decreases |s| - i
  {
    if i == |s| then [] else [Next16(s, i).code] + Decoded16(s, Next16(s, i).next)
  }

  function Encoded8(cs: seq<CodePoint>): seq<Byte>
    requires AllReadable(cs)
  {
    if cs == [] then [] else Encode8(Shown(cs[0])) + Encoded8(cs[1..])
  }

  function Encoded16(cs: seq<CodePoint>): seq<Unit>
    requires AllReadable(cs)
  {
    if cs == [] then [] else Encode16(Shown(cs[0])) + Encoded16(cs[1..])
  }

  function ShownAll(cs: seq<CodePoint>): seq<CodePoint> {
    if cs == [] then [] else [Shown(cs[0])] + ShownAll(cs[1..])
  }

  // ---------------------------------------------------------------------------
  // Decoding.

  lemma {:induction false} Next8Scalar(s: seq<Byte>, i: nat)
    requires i < |s|
    ensures Readable(Next8(s, i).code)
  {
    Next8Exact(s, i);
    if Next8(s, i).code != BAD {
      Encode8Unique(s[i..Next8(s, i).next]);
    }
  }

  lemma {:induction false} Next16Scalar(s: seq<Unit>, i: nat)
    requires i < |s|
    ensures Readable(Next16(s, i).code)
  {
    Next16Exact(s, i);
    if Next16(s, i).code != BAD {
      Encode16Unique(s[i..Next16(s, i).next]);
    }
  }

  /** Decoding yields Unicode scalar values and BAD, nothing else. */
  lemma {:induction false} Decoded8Readable(s: seq<Byte>, i: nat)
    requires i <= |s|
    ensures AllReadable(Decoded8(s, i))
    decreases |s| - i
  {
    if i < |s| {
      Next8Scalar(s, i);
      Decoded8Readable(s, Next8(s, i).next);
    }
  }

  lemma {:induction false} Decoded16Readable(s: seq<Unit>, i: nat)
    requires i <= |s|
    ensures AllReadable(Decoded16(s, i))
    decreases |s| - i
  {
    if i < |s| {
      Next16Scalar(s, i);
      Decoded16Readable(s, Next16(s, i).next);
    }
  }

  /** The bytes from i on are UTF-8 exactly when nothing in them is misread. */
  lemma {:induction false} Decoded8WellFormed(s: seq<Byte>, i: nat)
    requires i <= |s|
    ensures IsUtf8(s[i..]) <==> BAD !in Decoded8(s, i)
    decreases |s| - i
  {
    if i < |s| {
      var t, r := s[i..], Next8(s, i);
      Next8Exact(s, i);
      Decoded8WellFormed(s, r.next);
      if r.code != BAD {
        var m := r.next - i;
        assert t[0..m] == s[i..r.next] && t[m..] == s[r.next..];
        assert Utf8CharAt(t, 0, m);
      }
      forall n: nat | Utf8CharAt(t, 0, n) && n > 0 && IsUtf8(t[n..]) ensures BAD !in Decoded8(s, i) {
        assert t[0..n] == s[i..i + n] && t[n..] == s[i + n..];
        assert Utf8CharAt(s, i, n);
        Next8OneWay(s, i, n);
      }
    }
  }

  lemma {:induction false} Decoded16WellFormed(s: seq<Unit>, i: nat)
    requires i <= |s|
    ensures IsUtf16(s[i..]) <==> BAD !in Decoded16(s, i)
    decreases |s| - i
  {
    if i < |s| {
      var t, r := s[i..], Next16(s, i);
      Next16Exact(s, i);
      Decoded16WellFormed(s, r.next);
      if r.code != BAD {
        var m := r.next - i;
        assert t[0..m] == s[i..r.next] && t[m..] == s[r.next..];
        assert Utf16CharAt(t, 0, m);
      }
      forall n: nat | Utf16CharAt(t, 0, n) && n > 0 && IsUtf16(t[n..]) ensures BAD !in Decoded16(s, i) {
        assert t[0..n] == s[i..i + n] && t[n..] == s[i + n..];
        assert Utf16CharAt(s, i, n);
        Next16OneWay(s, i, n);
      }
    }
  }

  // ---------------------------------------------------------------------------
  // Decoding undoes encoding, up to the replacement character.

  lemma {:induction false} DecodeEncoded8(before: seq<Byte>, cs: seq<CodePoint>)
    requires AllReadable(cs)
    ensures Decoded8(before + Encoded8(cs), |before|) == ShownAll(cs)
    decreases |cs|
  {
    if cs != [] {
      var e, rest := Encode8(Shown(cs[0])), Encoded8(cs[1..]);
      var s := before + Encoded8(cs);
      assert s == before + e + rest;
      Encode8Value(Shown(cs[0]));
      assert s[|before|..|before| + |e|] == e;
      Next8Exact(s, |before|);
      Next8OneWay(s, |before|, |e|);
      DecodeEncoded8(before + e, cs[1..]);
    } else {
      assert before + Encoded8(cs) == before;
    }
  }

  lemma {:induction false} DecodeEncoded16(before: seq<Unit>, cs: seq<CodePoint>)
    requires AllReadable(cs)
    ensures Decoded16(before + Encoded16(cs), |before|) == ShownAll(cs)
    decreases |cs|
  {
    if cs != [] {
      var e, rest := Encode16(Shown(cs[0])), Encoded16(cs[1..]);
      var s := before + Encoded16(cs);
      assert s == before + e + rest;
      Encode16Value(Shown(cs[0]));
      assert s[|before|..|before| + |e|] == e;
      Next16Exact(s, |before|);
      Next16OneWay(s, |before|, |e|);
      DecodeEncoded16(before + e, cs[1..]);
    } else {
      assert before + Encoded16(cs) == before;
    }
  }

  lemma {:induction false} ShownAllGood(cs: seq<CodePoint>)
    requires AllReadable(cs)
    ensures AllScalar(ShownAll(cs)) && BAD !in ShownAll(cs) && |ShownAll(cs)| == |cs|
    ensures BAD !in cs ==> ShownAll(cs) == cs
  {
    if cs != [] {
      ShownAllGood(cs[1..]);
    }
  }

  /** Whatever was read, what is written is well-formed. */
  lemma {:induction false} EncodedWellFormed(cs: seq<CodePoint>)
    requires AllReadable(cs)
    ensures IsUtf8(Encoded8(cs)) && IsUtf16(Encoded16(cs))
  {
    ShownAllGood(cs);
    DecodeEncoded8([], cs);
    DecodeEncoded16([], cs);
    var s8, s16 := Encoded8(cs), Encoded16(cs);
    assert [] + s8 == s8 == s8[0..] && [] + s16 == s16 == s16[0..];
    Decoded8WellFormed(s8, 0);
    Decoded16WellFormed(s16, 0);
  }

  /** A replaced code point is written as U+FFFD itself would be. */
  lemma {:induction false} EncodedShown(cs: seq<CodePoint>)
    requires AllReadable(cs) && AllReadable(ShownAll(cs))
    ensures Encoded8(ShownAll(cs)) == Encoded8(cs) && Encoded16(ShownAll(cs)) == Encoded16(cs)
  {
    if cs != [] {
      assert ShownAll(cs)[1..] == ShownAll(cs[1..]);
      ShownAllGood(cs[1..]);
      EncodedShown(cs[1..]);
    }
  }

  // ---------------------------------------------------------------------------
  // Encoding undoes decoding.

  lemma {:induction false} EncodeDecoded8(s: seq<Byte>, i: nat)
    requires i <= |s| && BAD !in Decoded8(s, i)
    ensures AllReadable(Decoded8(s, i)) && Encoded8(Decoded8(s, i)) == s[i..]
    decreases |s| - i
  {
    Decoded8Readable(s, i);
    if i < |s| {
      var r := Next8(s, i);
      var cs := Decoded8(s, i);
      assert cs[0] == r.code && cs[1..] == Decoded8(s, r.next);
      Next8Exact(s, i);
      Encode8Unique(s[i..r.next]);
      EncodeDecoded8(s, r.next);
      Joined(s, i, r.next);
    }
  }

  // A surrogate without its partner next to it.
  predicate Unpaired(s: seq<Unit>, i: nat)
    requires i < |s|
  {
    || (IsLead(s[i]) && !(i + 1 < |s| && IsTrail(s[i + 1])))
    || (IsTrail(s[i]) && !(i > 0 && IsLead(s[i - 1])))
  }

  // The string with every unpaired surrogate replaced by U+FFFD.
  function Repaired(s: seq<Unit>): (t: seq<Unit>)
    ensures |t| == |s|
  {
    seq(|s|, i requires 0 <= i < |s| => if Unpaired(s, i) then 0xFFFD else s[i])
  }

  // Position i does not split a surrogate pair.
  predicate Boundary(s: seq<Unit>, i: nat) {
    0 < i < |s| && IsTrail(s[i]) ==> !IsLead(s[i - 1])
  }

  lemma {:induction false} Next16Repairs(s: seq<Unit>, i: nat)
    requires i < |s| && Boundary(s, i)
    ensures var r := Next16(s, i);
            && Readable(r.code) && Boundary(s, r.next)
            && Encode16(Shown(r.code)) == Repaired(s)[i..r.next]
  {
  }

  lemma {:induction false} Joined<T>(t: seq<T>, i: nat, j: nat)
    requires i <= j <= |t|
    ensures t[i..] == t[i..j] + t[j..]
  {
  }

  /** Decoding UTF-16 and encoding it again repairs it, and changes nothing else. */
  lemma {:induction false} EncodeDecoded16(s: seq<Unit>, i: nat)
    requires i <= |s| && Boundary(s, i)
    ensures AllReadable(Decoded16(s, i)) && Encoded16(Decoded16(s, i)) == Repaired(s)[i..]
    decreases |s| - i
  {
    Decoded16Readable(s, i);
    if i < |s| {
      var r := Next16(s, i);
      var cs := Decoded16(s, i);
      Next16Repairs(s, i);
      EncodeDecoded16(s, r.next);
      Joined(Repaired(s), i, r.next);
      assert cs[0] == r.code && cs[1..] == Decoded16(s, r.next);
      assert Encoded16(cs) == Encode16(Shown(cs[0])) + Encoded16(cs[1..]);
    }
  }

  // ---------------------------------------------------------------------------
  // The two conversions.

  // What the input from position i on is converted to, and whether any of it is
  // ill-formed.
  function RestToUtf16(s: seq<Byte>, i: nat): seq<Unit>
    requires i <= |s|
    decreases |s| - i
  {
    if i == |s| then []
    else
      Next8Scalar(s, i);
      Encode16(Shown(Next8(s, i).code)) + RestToUtf16(s, Next8(s, i).next)
  }

  function RestToUtf8(s: seq<Unit>, i: nat): seq<Byte>
    requires i <= |s|
    decreases |s| - i
  {
    if i == |s| then []
    else
      Next16Scalar(s, i);
      Encode8(Shown(Next16(s, i).code)) + RestToUtf8(s, Next16(s, i).next)
  }

  predicate Misread8(s: seq<Byte>, i: nat)
    requires i <= |s|
    decreases |s| - i
  {
    i < |s| && (Next8(s, i).code == BAD || Misread8(s, Next8(s, i).next))
  }

  predicate Misread16(s: seq<Unit>, i: nat)
    requires i <= |s|
    decreases |s| - i
  {
    i < |s| && (Next16(s, i).code == BAD || Misread16(s, Next16(s, i).next))
  }

  /** It is what decoding and then encoding gives. */
  lemma {:induction false} RestIsEncoded8(s: seq<Unit>, i: nat)
    requires i <= |s|
    ensures AllReadable(Decoded16(s, i)) && RestToUtf8(s, i) == Encoded8(Decoded16(s, i))
    ensures Misread16(s, i) <==> BAD in Decoded16(s, i)
    decreases |s| - i
  {
    Decoded16Readable(s, i);
    if i < |s| {
      var cs := Decoded16(s, i);
      assert cs[0] == Next16(s, i).code && cs[1..] == Decoded16(s, Next16(s, i).next);
      RestIsEncoded8(s, Next16(s, i).next);
    }
  }

  lemma {:induction false} RestIsEncoded16(s: seq<Byte>, i: nat)
    requires i <= |s|
    ensures AllReadable(Decoded8(s, i)) && RestToUtf16(s, i) == Encoded16(Decoded8(s, i))
    ensures Misread8(s, i) <==> BAD in Decoded8(s, i)
    decreases |s| - i
  {
    Decoded8Readable(s, i);
    if i < |s| {
      var cs := Decoded8(s, i);
      assert cs[0] == Next8(s, i).code && cs[1..] == Decoded8(s, Next8(s, i).next);
      RestIsEncoded16(s, Next8(s, i).next);
    }
  }

  function ToUtf16(s: seq<Byte>): seq<Unit> {
    RestToUtf16(s, 0)
  }

  function ToUtf8(s: seq<Unit>): seq<Byte> {
    RestToUtf8(s, 0)
  }

  /** UTF-8 to UTF-16 and back: the same bytes, if they were UTF-8. */
  lemma {:induction false} RoundTrip8(s: seq<Byte>)
    requires IsUtf8(s)
    ensures IsUtf16(ToUtf16(s)) && ToUtf8(ToUtf16(s)) == s
  {
    var cs := Decoded8(s, 0);
    assert s[0..] == s;
    Decoded8WellFormed(s, 0);
    RestIsEncoded16(s, 0);
    RestIsEncoded8(ToUtf16(s), 0);
    EncodedWellFormed(cs);
    DecodeEncoded16([], cs);
    assert [] + Encoded16(cs) == Encoded16(cs);
    ShownAllGood(cs);
    EncodeDecoded8(s, 0);
  }

  /**
   * UTF-16 to UTF-8 and back, for any units at all: every unpaired surrogate
   * has become one U+FFFD, and nothing else has changed.
   */
  lemma {:induction false} RoundTrip16(s: seq<Unit>)
    ensures IsUtf8(ToUtf8(s)) && ToUtf16(ToUtf8(s)) == Repaired(s)
  {
    var cs := Decoded16(s, 0);
    RestIsEncoded8(s, 0);
    RestIsEncoded16(ToUtf8(s), 0);
    EncodedWellFormed(cs);
    DecodeEncoded8([], cs);
    assert [] + Encoded8(cs) == Encoded8(cs);
    ShownAllGood(cs);
    EncodedShown(cs);
    EncodeDecoded16(s, 0);
    assert Repaired(s)[0..] == Repaired(s);
  }

  // There is nothing to repair exactly when nothing is misread.
  lemma {:induction false} MisreadIffUnpaired(s: seq<Unit>, i: nat)
    requires i <= |s| && Boundary(s, i)
    ensures BAD in Decoded16(s, i) <==> exists k | i <= k < |s| :: Unpaired(s, k)
    decreases |s| - i
  {
    if i < |s| {
      var r := Next16(s, i);
      Next16Exact(s, i);
      Next16Repairs(s, i);
      MisreadIffUnpaired(s, r.next);
      assert SurrogateBits(s[i]) <==> IsLead(s[i]) || IsTrail(s[i]);
      assert r.code == BAD <==> Unpaired(s, i);
      assert r.next == i + 2 ==> !Unpaired(s, i + 1);
    }
  }

  /** The strings without unpaired surrogates are the UTF-16 of RFC 2781. */
  lemma {:induction false} IsUtf16IffPaired(s: seq<Unit>)
    ensures IsUtf16(s) <==> forall k | 0 <= k < |s| :: !Unpaired(s, k)
    ensures IsUtf16(s) <==> Repaired(s) == s
  {
    assert s[0..] == s;
    Decoded16WellFormed(s, 0);
    MisreadIffUnpaired(s, 0);
    if Repaired(s) == s {
      forall k | 0 <= k < |s| ensures !Unpaired(s, k) {
        assert Repaired(s)[k] == s[k];
      }
    }
  }

  /** Repairing first makes no difference to the output. */
  lemma {:induction false} RepairedConvertsTheSame(s: seq<Unit>)
    ensures IsUtf16(Repaired(s)) && ToUtf8(Repaired(s)) == ToUtf8(s)
  {
    RoundTrip16(s);
    RestIsEncoded16(ToUtf8(s), 0);
    EncodedWellFormed(Decoded8(ToUtf8(s), 0));
    RoundTrip8(ToUtf8(s));
  }

  /** No more units than there were bytes. */
  lemma {:induction false} Size16(s: seq<Byte>, i: nat)
    requires i <= |s|
    ensures |RestToUtf16(s, i)| <= |s| - i
    decreases |s| - i
  {
    if i < |s| {
      var r := Next8(s, i);
      Size16(s, r.next);
      Next8Exact(s, i);
      assert r.code > 0xFFFF ==> |s[i..r.next]| == 4;
    }
  }

  /** At most three bytes for each unit. */
  lemma {:induction false} Size8(s: seq<Unit>, i: nat)
    requires i <= |s|
    ensures |RestToUtf8(s, i)| <= 3 * (|s| - i)
    decreases |s| - i
  {
    if i < |s| {
      var r := Next16(s, i);
      Size8(s, r.next);
    }
  }
}
