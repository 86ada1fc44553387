/**
 * UTF-8 and UTF-16 as RFC 3629 and RFC 2781 define them, and the decoding and
 * encoding macros of base/third_party/icu/icu_utf.h.
 */
module Utf {
  type Byte = b: int | 0 <= b < 0x100
  type Unit = u: int | 0 <= u < 0x1_0000
  type CodePoint = int

  // What a decoder reports for an ill-formed sequence.
  const BAD: CodePoint := -1

  predicate IsScalar(c: CodePoint) {
    0 <= c < 0xD800 || 0xE000 <= c <= 0x10FFFF
  }

  // ---------------------------------------------------------------------------
  // RFC 3629: the byte sequences of section 4, and what they stand for.

  predicate Tail(b: Byte) {
    0x80 <= b <= 0xBF
  }

  predicate IsUtf8Char(e: seq<Byte>) {
    if |e| == 1 then e[0] <= 0x7F
    else if |e| == 2 then 0xC2 <= e[0] <= 0xDF && Tail(e[1])
    else if |e| == 3 then
      && (if e[0] == 0xE0 then 0xA0 <= e[1] <= 0xBF
          else if e[0] == 0xED then 0x80 <= e[1] <= 0x9F
          else 0xE1 <= e[0] <= 0xEF && Tail(e[1]))
      && Tail(e[2])
    else if |e| == 4 then
      && (if e[0] == 0xF0 then 0x90 <= e[1] <= 0xBF
          else if e[0] == 0xF4 then 0x80 <= e[1] <= 0x8F
          else 0xF1 <= e[0] <= 0xF3 && Tail(e[1]))
      && Tail(e[2]) && Tail(e[3])
    else false
  }

  // The bits of the code point, read off the bytes (section 3).
  function Utf8Value(e: seq<Byte>): CodePoint
    requires IsUtf8Char(e)
  {
    var b: seq<int> := e;
    if |b| == 1 then b[0]
    else if |b| == 2 then (b[0] - 0xC0) * 0x40 + (b[1] - 0x80)
    else if |b| == 3 then (b[0] - 0xE0) * 0x1000 + (b[1] - 0x80) * 0x40 + (b[2] - 0x80)
    else (b[0] - 0xF0) * 0x4_0000 + (b[1] - 0x80) * 0x1000 + (b[2] - 0x80) * 0x40 + (b[3] - 0x80)
  }

  predicate Utf8CharAt(s: seq<Byte>, i: nat, n: nat) {
    i + n <= |s| && IsUtf8Char(s[i..i + n])
  }

  ghost predicate IsUtf8(s: seq<Byte>) {
    s == [] || exists n: nat :: Utf8CharAt(s, 0, n) && n > 0 && IsUtf8(s[n..])
  }

  // ---------------------------------------------------------------------------
  // RFC 2781, section 2.

  predicate IsLead(u: Unit) {
    0xD800 <= u <= 0xDBFF
  }

  predicate IsTrail(u: Unit) {
    0xDC00 <= u <= 0xDFFF
  }

  predicate IsUtf16Char(e: seq<Unit>) {
    if |e| == 1 then !IsLead(e[0]) && !IsTrail(e[0])
    else |e| == 2 && IsLead(e[0]) && IsTrail(e[1])
  }

  function Utf16Value(e: seq<Unit>): CodePoint
    requires IsUtf16Char(e)
  {
    var u: seq<int> := e;
    if |u| == 1 then u[0] else 0x1_0000 + (u[0] - 0xD800) * 0x400 + (u[1] - 0xDC00)
  }

  predicate Utf16CharAt(s: seq<Unit>, i: nat, n: nat) {
    i + n <= |s| && IsUtf16Char(s[i..i + n])
  }

  ghost predicate IsUtf16(s: seq<Unit>) {
    s == [] || exists n: nat :: Utf16CharAt(s, 0, n) && n > 0 && IsUtf16(s[n..])
  }

  // ---------------------------------------------------------------------------
  // CBU8_NEXT. Shifts and masks by powers of two are written as / and %.

  datatype Read = Read(code: CodePoint, next: nat)

  const LEAD3_T1_BITS: seq<int> := [0x20, 0x30, 0x30, 0x30, 0x30, 0x30, 0x30, 0x30,
                                    0x30, 0x30, 0x30, 0x30, 0x30, 0x10, 0x30, 0x30]

  const LEAD4_T1_BITS: seq<int> := [0x00, 0x00, 0x00, 0x00, 0x00, 0x00, 0x00, 0x00,
                                    0x1E, 0x0F, 0x0F, 0x0F, 0x00, 0x00, 0x00, 0x00]

  // Their entries.
  function Lead3Entry(k: int): int {
    if k == 0 then 0x20 else if k == 13 then 0x10 else 0x30
  }

  function Lead4Entry(k: int): int {
    if k == 8 then 0x1E else if 9 <= k <= 11 then 0x0F else 0
  }

  lemma {:induction false} Entries(k: int)
    requires 0 <= k < 0x10
    ensures LEAD3_T1_BITS[k] == Lead3Entry(k) && LEAD4_T1_BITS[k] == Lead4Entry(k)
  {
  }

  // Bit k of x, for k from 0 to 7.
  predicate Bit(x: int, k: int) {
    if k == 0 then x % 2 == 1
    else if k == 1 then (x / 2) % 2 == 1
    else if k == 2 then (x / 4) % 2 == 1
    else if k == 3 then (x / 8) % 2 == 1
    else if k == 4 then (x / 16) % 2 == 1
    else if k == 5 then (x / 32) % 2 == 1
    else if k == 6 then (x / 64) % 2 == 1
    else (x / 128) % 2 == 1
  }

  // An unsigned byte minus 0x80, wrapping around.
  function LessTrailBase(b: Byte): Byte {
    (b + 0x80) % 0x100
  }

  // The last trail byte, at position j, when the bits before it are c.
  function LastTrail(s: seq<Byte>, j: nat, c: int): Read
    requires j <= |s|
  {
    if j == |s| then Read(BAD, j)
    else if LessTrailBase(s[j]) <= 0x3F then Read(c * 0x40 + LessTrailBase(s[j]), j + 1)
    else Read(BAD, j)
  }

  function Next8(s: seq<Byte>, i: nat): (r: Read)
    requires i < |s|
    ensures i < r.next <= |s|
  {
    var lead := s[i];
    if lead <= 0x7F then Read(lead, i + 1)
    else if i + 1 == |s| then Read(BAD, i + 1)
    else
      var t1 := s[i + 1];
      if 0xE0 <= lead < 0xF0 then
        if Bit(Lead3Entry(lead % 0x10), t1 / 0x20) then LastTrail(s, i + 2, (lead % 0x10) * 0x40 + t1 % 0x40)
        else Read(BAD, i + 1)
      else if lead >= 0xF0 then
        if lead - 0xF0 <= 4 && Bit(Lead4Entry(t1 / 0x10), lead - 0xF0) then
          if i + 2 == |s| then Read(BAD, i + 2)
          else
            var t2 := LessTrailBase(s[i + 2]);
            if t2 <= 0x3F then LastTrail(s, i + 3, ((lead - 0xF0) * 0x40 + t1 % 0x40) * 0x40 + t2)
            else Read(BAD, i + 2)
        else Read(BAD, i + 1)
      else if lead >= 0xC2 then LastTrail(s, i + 1, lead % 0x20)
      else Read(BAD, i + 1)
  }

  lemma {:induction false} Lead3Bits(lead: Byte, t1: Byte)
    requires 0xE0 <= lead < 0xF0
    ensures Bit(Lead3Entry(lead % 0x10), t1 / 0x20) <==>
            if lead == 0xE0 then 0xA0 <= t1 <= 0xBF else if lead == 0xED then 0x80 <= t1 <= 0x9F else Tail(t1)
  {
  }

  lemma {:induction false} Lead4Bits(lead: Byte, t1: Byte)
    requires 0xF0 <= lead <= 0xF4
    ensures Bit(Lead4Entry(t1 / 0x10), lead - 0xF0) <==>
            if lead == 0xF0 then 0x90 <= t1 <= 0xBF else if lead == 0xF4 then 0x80 <= t1 <= 0x8F else Tail(t1)
  {
  }

  // A byte in the trail range minus 0x80, and no other byte, is at most 0x3F.
  lemma {:induction false} TrailBits(b: Byte)
    ensures LessTrailBase(b) <= 0x3F <==> Tail(b)
    ensures Tail(b) ==> LessTrailBase(b) == b as int - 0x80 == b % 0x40
  {
  }

  lemma {:induction false} Next8Good(s: seq<Byte>, i: nat)
    requires i < |s| && Next8(s, i).code != BAD
    ensures var r := Next8(s, i);
            IsUtf8Char(s[i..r.next]) && r.code == Utf8Value(s[i..r.next])
  {
    if s[i] >= 0xF0 {
      Next8GoodLong(s, i);
    } else if s[i] >= 0xE0 {
      Next8GoodThree(s, i);
    } else if s[i] >= 0x80 {
      TrailBits(s[i + 1]);
      var e := s[i..i + 2];
      assert e == [s[i], s[i + 1]];
    }
  }

  lemma {:induction false} Next8GoodThree(s: seq<Byte>, i: nat)
    requires i < |s| && 0xE0 <= s[i] < 0xF0 && Next8(s, i).code != BAD
    ensures var r := Next8(s, i);
            IsUtf8Char(s[i..r.next]) && r.code == Utf8Value(s[i..r.next])
  {
    Lead3Bits(s[i], s[i + 1]);
    TrailBits(s[i + 1]);
    TrailBits(s[i + 2]);
    var e := s[i..i + 3];
    assert e == [s[i], s[i + 1], s[i + 2]];
  }

  lemma {:induction false} Next8GoodLong(s: seq<Byte>, i: nat)
    requires i < |s| && s[i] >= 0xF0 && Next8(s, i).code != BAD
    ensures var r := Next8(s, i);
            i < r.next <= |s| && IsUtf8Char(s[i..r.next]) && r.code == Utf8Value(s[i..r.next])
  {
    Lead4Bits(s[i], s[i + 1]);
    TrailBits(s[i + 1]);
    TrailBits(s[i + 2]);
    TrailBits(s[i + 3]);
    var e := s[i..i + 4];
    assert e == [s[i], s[i + 1], s[i + 2], s[i + 3]];
  }

  lemma {:induction false} Next8OneWay(s: seq<Byte>, i: nat, n: nat)
    requires i < |s| && Utf8CharAt(s, i, n)
    ensures Next8(s, i).code != BAD && Next8(s, i).next == i + n
  {
    var lead := s[i];
    assert lead == s[i..i + n][0];
    if n > 1 {
      assert s[i + 1] == s[i..i + n][1];
      if 0xE0 <= lead < 0xF0 {
        Lead3Bits(lead, s[i + 1]);
      } else if 0xF0 <= lead {
        Lead4Bits(lead, s[i + 1]);
      }
    }
  }

  /**
   * The macro reads exactly the sequences of RFC 3629, with their values; on
   * anything else it reports BAD and still moves forward, not past the end.
   */
  lemma {:induction false} Next8Exact(s: seq<Byte>, i: nat)
    requires i < |s|
    ensures var r := Next8(s, i);
            && r.next <= i + 4
            && (r.code != BAD ==> Utf8CharAt(s, i, r.next - i) && r.code == Utf8Value(s[i..r.next]))
            && (r.code == BAD ==> forall n: nat :: !Utf8CharAt(s, i, n))
  {
    var r := Next8(s, i);
    if r.code != BAD {
      Next8Good(s, i);
    }
    forall n: nat | Utf8CharAt(s, i, n) ensures r.code != BAD {
      Next8OneWay(s, i, n);
    }
  }

  /** ASCII characters are read from the bytes with their values, and from no others. */
  lemma {:induction false} AsciiReads(s: seq<Byte>, i: nat, c: CodePoint)
    requires i < |s| && 0 <= c <= 0x7F
    ensures Next8(s, i).code == c <==> s[i] == c
  {
  }

  // A sequence of RFC 3629 with its end missing.
  ghost predicate CutShort(e: seq<Byte>) {
    exists t: seq<Byte> :: t != [] && IsUtf8Char(e + t)
  }

  lemma {:induction false} NotCutShort(s: seq<Byte>, i: nat, m: nat)
    requires i < |s| && Next8(s, i).code == BAD && Next8(s, i).next < m <= |s|
    ensures !CutShort(s[i..m])
  {
    var e, n := s[i..m], m - i;
    forall t: seq<Byte> | t != [] ensures !IsUtf8Char(e + t) {
      var w := e + t;
      assert w[0] == s[i] && w[1] == s[i + 1];
      assert n > 2 ==> w[2] == s[i + 2];
      TrailBits(s[i + 1]);
      if 0xE0 <= s[i] < 0xF0 {
        Lead3Bits(s[i], s[i + 1]);
      } else if 0xF0 <= s[i] <= 0xF4 {
        Lead4Bits(s[i], s[i + 1]);
      }
      if n > 2 {
        TrailBits(s[i + 2]);
      }
    }
  }

  lemma {:induction false} SkippedCutShort(s: seq<Byte>, i: nat)
    requires i < |s| && Next8(s, i).code == BAD && Next8(s, i).next > i + 1
    ensures CutShort(s[i..Next8(s, i).next])
  {
    var e := s[i..Next8(s, i).next];
    assert e[0] == s[i] && e[1] == s[i + 1];
    if s[i] < 0xF0 {
      Lead3Bits(s[i], s[i + 1]);
      assert IsUtf8Char(e + [0x80]);
    } else {
      Lead4Bits(s[i], s[i + 1]);
      if |e| == 2 {
        assert IsUtf8Char(e + [0x80, 0x80]);
      } else {
        assert e[2] == s[i + 2];
        TrailBits(s[i + 2]);
        assert IsUtf8Char(e + [0x80]);
      }
    }
  }

  /**
   * What one BAD stands for: the longest stretch that some sequence of
   * RFC 3629 starts with, or a single byte when there is none.
   */
  lemma {:induction false} Next8SkipsMaximalPart(s: seq<Byte>, i: nat)
    requires i < |s| && Next8(s, i).code == BAD
    ensures var next := Next8(s, i).next;
            && (next == i + 1 || CutShort(s[i..next]))
            && forall m | next < m <= |s| :: !CutShort(s[i..m])
  {
    var next := Next8(s, i).next;
    if next > i + 1 {
      SkippedCutShort(s, i);
    }
    forall m | next < m <= |s| ensures !CutShort(s[i..m]) {
      NotCutShort(s, i, m);
    }
  }

  // ---------------------------------------------------------------------------
  // CBU8_APPEND_UNSAFE. Or-ing bits into zeros is written as +.

  function Encode8(c: CodePoint): (e: seq<Byte>)
    requires 0 <= c <= 0x10FFFF
    ensures 1 <= |e| <= 4
  {
    if c <= 0x7F then [c]
    else if c <= 0x7FF then [c / 0x40 + 0xC0, c % 0x40 + 0x80]
    else if c <= 0xFFFF then [c / 0x1000 + 0xE0, c / 0x40 % 0x40 + 0x80, c % 0x40 + 0x80]
    else [c / 0x4_0000 + 0xF0, c / 0x1000 % 0x40 + 0x80, c / 0x40 % 0x40 + 0x80, c % 0x40 + 0x80]
  }

  // Six bits taken off the end, and put back.
  lemma {:induction false} SixBits(high: int, low: int)
    requires 0 <= low < 0x40
    ensures (high * 0x40 + low) / 0x40 == high && (high * 0x40 + low) % 0x40 == low
  {
  }

  lemma {:induction false} ShiftTwice(c: int)
    ensures c / 0x1000 == c / 0x40 / 0x40 && c / 0x4_0000 == c / 0x40 / 0x40 / 0x40
  {
  }

  /** Every scalar value is written as a sequence of RFC 3629 with that value... */
  lemma {:induction false} Encode8Value(c: CodePoint)
    requires IsScalar(c)
    ensures IsUtf8Char(Encode8(c)) && Utf8Value(Encode8(c)) == c
  {
    ShiftTwice(c);
    var e := Encode8(c);
    var d := c / 0x40;
    assert c == d * 0x40 + c % 0x40;
    if c > 0xFFFF {
      var f := d / 0x40;
      assert d == f * 0x40 + d % 0x40;
      assert f == f / 0x40 * 0x40 + f % 0x40;
      assert |e| == 4 && e[1] == f % 0x40 + 0x80;
    } else if c > 0x7FF {
      assert d == d / 0x40 * 0x40 + d % 0x40;
    }
  }

  lemma {:induction false} Encode8UniqueLong(e: seq<Byte>)
    requires |e| == 4 && IsUtf8Char(e)
    ensures IsScalar(Utf8Value(e)) && Encode8(Utf8Value(e)) == e
  {
    var b: seq<int> := e;
    ShiftTwice(Utf8Value(e));
    SixBits((b[0] - 0xF0) * 0x1000 + (b[1] - 0x80) * 0x40 + (b[2] - 0x80), b[3] - 0x80);
    SixBits((b[0] - 0xF0) * 0x40 + (b[1] - 0x80), b[2] - 0x80);
    SixBits(b[0] - 0xF0, b[1] - 0x80);
  }

  /** ...and as the only one. */
  lemma {:induction false} Encode8Unique(e: seq<Byte>)
    requires IsUtf8Char(e)
    ensures IsScalar(Utf8Value(e)) && Encode8(Utf8Value(e)) == e
  {
    if |e| == 4 {
      Encode8UniqueLong(e);
    } else {
      var b: seq<int> := e;
      ShiftTwice(Utf8Value(e));
      if |e| == 2 {
        SixBits(b[0] - 0xC0, b[1] - 0x80);
      } else if |e| == 3 {
        SixBits((b[0] - 0xE0) * 0x40 + (b[1] - 0x80), b[2] - 0x80);
        SixBits(b[0] - 0xE0, b[1] - 0x80);
      }
    }
  }

  // ---------------------------------------------------------------------------
  // The UTF-16 macros and the UTF-16 ReadUnicodeCharacter.

  predicate SurrogateBits(u: Unit) {
    u / 0x800 * 0x800 == 0xD800
  }

  predicate SurrogateLeadBit(u: Unit) {
    u / 0x400 % 2 == 0
  }

  predicate TrailSurrogateBits(u: Unit) {
    u / 0x400 * 0x400 == 0xDC00
  }

  function GetSupplementary(lead: Unit, trail: Unit): CodePoint {
    (lead as int) * 0x400 + (trail as int) - (0xD800 * 0x400 + 0xDC00 - 0x1_0000)
  }

  function Next16(s: seq<Unit>, i: nat): (r: Read)
    requires i < |s|
    ensures i < r.next <= |s|
  {
    if !SurrogateBits(s[i]) then Read(s[i], i + 1)
    else if !SurrogateLeadBit(s[i]) || i + 1 >= |s| || !TrailSurrogateBits(s[i + 1]) then Read(BAD, i + 1)
    else Read(GetSupplementary(s[i], s[i + 1]), i + 2)
  }

  lemma {:induction false} Next16OneWay(s: seq<Unit>, i: nat, n: nat)
    requires i < |s| && Utf16CharAt(s, i, n)
    ensures Next16(s, i).code != BAD && Next16(s, i).next == i + n
  {
  }

  /** The same for RFC 2781; only an unpaired surrogate is ill-formed. */
  lemma {:induction false} Next16Exact(s: seq<Unit>, i: nat)
    requires i < |s|
    ensures var r := Next16(s, i);
            && r.next <= i + 2
            && (r.code != BAD ==> Utf16CharAt(s, i, r.next - i) && r.code == Utf16Value(s[i..r.next]))
            && (r.code == BAD ==> r.next == i + 1 && forall n: nat :: !Utf16CharAt(s, i, n))
  {
  }

  function Encode16(c: CodePoint): (e: seq<Unit>)
    requires 0 <= c <= 0x10FFFF
    ensures 1 <= |e| <= 2
  {
    if c <= 0xFFFF then [c] else [c / 0x400 + 0xD7C0, c % 0x400 + 0xDC00]
  }

  lemma {:induction false} Encode16Value(c: CodePoint)
    requires IsScalar(c)
    ensures IsUtf16Char(Encode16(c)) && Utf16Value(Encode16(c)) == c
  {
  }

  lemma {:induction false} Encode16Unique(e: seq<Unit>)
    requires IsUtf16Char(e)
    ensures IsScalar(Utf16Value(e)) && Encode16(Utf16Value(e)) == e
  {
  }
}
