/**
 * The conversions one character at a time, ill-formed input included, and a few
 * characters spelled out.
 */
module UtfLaws {
  import opened Utf
  import opened UtfStrings

  /** A letter, an accented letter, the euro sign and a Gothic letter. */
  lemma {:induction false} Examples()
    ensures Encode8(0x41) == [0x41] && Encode8(0xE9) == [0xC3, 0xA9]
    ensures Encode8(0x20AC) == [0xE2, 0x82, 0xAC] && Encode8(0x10348) == [0xF0, 0x90, 0x8D, 0x88]
    ensures Encode16(0x41) == [0x41] && Encode16(0x20AC) == [0x20AC] && Encode16(0x10348) == [0xD800, 0xDF48]
    ensures IsUtf8Char([0xE2, 0x82, 0xAC]) && Utf8Value([0xE2, 0x82, 0xAC]) == 0x20AC
    ensures IsUtf16Char([0xD800, 0xDF48]) && Utf16Value([0xD800, 0xDF48]) == 0x10348
    ensures !IsUtf8Char([0xC0, 0x80]) && !IsUtf8Char([0xED, 0xA0, 0x80]) && !IsUtf8Char([0xF4, 0x90, 0x80, 0x80])
  {
  }

  // Reading does not look at what comes before.
  lemma {:induction false} ShiftedNext(before: seq<Byte>, s: seq<Byte>, i: nat)
    requires i < |s|
    ensures Next8(before + s, |before| + i).code == Next8(s, i).code
    ensures Next8(before + s, |before| + i).next == |before| + Next8(s, i).next
  {
    var t, n := before + s, |before|;
    assert forall k | i <= k < |s| :: t[n + k] == s[k];
  }

  lemma {:induction false} ShiftedDecoded(before: seq<Byte>, s: seq<Byte>, i: nat)
    requires i <= |s|
    ensures Decoded8(before + s, |before| + i) == Decoded8(s, i)
    decreases |s| - i
  {
    if i < |s| {
      ShiftedNext(before, s, i);
      ShiftedDecoded(before, s, Next8(s, i).next);
    }
  }

  lemma {:induction false} ShiftedRest(before: seq<Byte>, s: seq<Byte>)
    ensures RestToUtf16(before + s, |before|) == ToUtf16(s)
  {
    ShiftedDecoded(before, s, 0);
    RestIsEncoded16(before + s, |before|);
    RestIsEncoded16(s, 0);
  }

  lemma {:induction false} ReadFirst(e: seq<Byte>, s: seq<Byte>)
    requires IsUtf8Char(e)
    ensures |e| > 0 && Next8(e + s, 0) == Read(Utf8Value(e), |e|) && IsScalar(Utf8Value(e))
  {
    assert (e + s)[0..0 + |e|] == e;
    assert Utf8CharAt(e + s, 0, |e|);
    Next8OneWay(e + s, 0, |e|);
    Next8Exact(e + s, 0);
    Encode8Unique(e);
  }

  /** A well-formed character in front is converted, and then the rest. */
  lemma {:induction false} CharacterFirst(e: seq<Byte>, s: seq<Byte>)
    requires IsUtf8Char(e)
    ensures IsScalar(Utf8Value(e)) && ToUtf16(e + s) == Encode16(Utf8Value(e)) + ToUtf16(s)
    ensures Decoded8(e + s, 0) == [Utf8Value(e)] + Decoded8(s, 0)
  {
    ReadFirst(e, s);
    ShiftedRest(e, s);
    ShiftedDecoded(e, s, 0);
  }

  /**
   * If no character can be read in front, the longest start of one, or a single
   * byte, becomes one U+FFFD, and then the rest is converted.
   */
  lemma {:induction false} IllFormedFirst(s: seq<Byte>) returns (k: nat)
    requires s != [] && forall n: nat :: !Utf8CharAt(s, 0, n)
    ensures 1 <= k <= |s| && (k == 1 || CutShort(s[..k])) && forall m | k < m <= |s| :: !CutShort(s[..m])
    ensures ToUtf16(s) == [0xFFFD] + ToUtf16(s[k..])
    ensures Decoded8(s, 0) == [-1] + Decoded8(s[k..], 0)
  {
    Next8Exact(s, 0);
    Next8SkipsMaximalPart(s, 0);
    k := Next8(s, 0).next;
    assert s[0..k] == s[..k] && s[..k] + s[k..] == s;
    forall m | k < m <= |s| ensures !CutShort(s[..m]) {
      assert s[0..m] == s[..m];
    }
    ShiftedRest(s[..k], s[k..]);
    ShiftedDecoded(s[..k], s[k..], 0);
  }

  /** An empty input has an empty output. */
  lemma {:induction false} NothingFirst()
    ensures ToUtf16([]) == [] && ToUtf8([]) == [] && Decoded8([], 0) == []
  {
  }
}
