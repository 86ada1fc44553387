/**
 * The two overloads of MatchPattern, for UTF-8 and UTF-16: the matcher of
 * base/strings/pattern.cc on the characters that NextCharUTF8 and NextCharUTF16
 * read.
 */
module PatternText {
  import opened Glob
  import opened GreedyTraps
  import opened PatternMatcher
  import opened Utf
  import opened UtfStrings

  // CBU16_NEXT reads an unpaired surrogate as itself.
  function NextChar16(s: seq<Unit>, i: nat): (r: Read)
    requires i < |s|
    ensures i < r.next <= |s|
  {
    if IsLead(s[i]) && i + 1 < |s| && IsTrail(s[i + 1]) then Read(GetSupplementary(s[i], s[i + 1]), i + 2)
    else Read(s[i], i + 1)
  }

  function Chars16(s: seq<Unit>, i: nat): (cs: seq<Sym>)
    requires i <= |s|
    ensures |cs| <= |s| - i && SENTINEL !in cs
    decreases |s| - i
  {
    if i == |s| then [] else [NextChar16(s, i).code] + Chars16(s, NextChar16(s, i).next)
  }

  function Chars8(s: seq<Byte>, i: nat): (cs: seq<Sym>)
    requires i <= |s|
    ensures |cs| <= |s| - i && cs == Decoded8(s, i)
    decreases |s| - i
  {
    if i == |s| then [] else [Next8(s, i).code] + Chars8(s, Next8(s, i).next)
  }

  /** Of well-formed UTF-16 the matcher sees the code points. */
  lemma {:induction false} Chars16WellFormed(s: seq<Unit>, i: nat)
    requires i <= |s| && BAD !in Decoded16(s, i)
    ensures Chars16(s, i) == Decoded16(s, i)
    decreases |s| - i
  {
    if i < |s| {
      assert Decoded16(s, i)[1..] == Decoded16(s, Next16(s, i).next);
      assert SurrogateBits(s[i]) <==> IsLead(s[i]) || IsTrail(s[i]);
      Chars16WellFormed(s, Next16(s, i).next);
    }
  }

  // The units of characters, one after the other.
  function Units(cs: seq<Sym>): seq<Unit>
    requires forall i | 0 <= i < |cs| :: 0 <= cs[i] <= 0x10FFFF
  {
    if cs == [] then [] else Encode16(cs[0]) + Units(cs[1..])
  }

  lemma {:induction false} NextChar16Units(s: seq<Unit>, i: nat)
    requires i < |s|
    ensures var r := NextChar16(s, i);
            0 <= r.code <= 0x10FFFF && Encode16(r.code) == s[i..r.next]
  {
    if NextChar16(s, i).next == i + 2 {
      assert [s[i], s[i + 1]] == s[i..i + 2];
      Encode16Unique([s[i], s[i + 1]]);
    }
  }

  /** The characters make up exactly the units. */
  lemma {:induction false} Chars16Units(s: seq<Unit>, i: nat)
    requires i <= |s|
    ensures (forall k | 0 <= k < |Chars16(s, i)| :: 0 <= Chars16(s, i)[k] <= 0x10FFFF) && Units(Chars16(s, i)) == s[i..]
    decreases |s| - i
  {
    if i < |s| {
      var r, cs := NextChar16(s, i), Chars16(s, i);
      NextChar16Units(s, i);
      Chars16Units(s, r.next);
      assert cs[0] == r.code && cs[1..] == Chars16(s, r.next);
      assert s[i..] == s[i..r.next] + s[r.next..];
    }
  }

  /** None of them is half of a pair that should have been read as one. */
  lemma {:induction false} Chars16Paired(s: seq<Unit>, i: nat)
    requires i <= |s|
    ensures var cs := Chars16(s, i);
            forall k | 0 <= k < |cs| - 1 :: !(0xD800 <= cs[k] <= 0xDBFF && 0xDC00 <= cs[k + 1] <= 0xDFFF)
    decreases |s| - i
  {
    if i < |s| {
      var r, cs := NextChar16(s, i), Chars16(s, i);
      Chars16Paired(s, r.next);
      assert cs[0] == r.code && cs[1..] == Chars16(s, r.next);
      forall k | 0 <= k < |cs| - 1 ensures !(0xD800 <= cs[k] <= 0xDBFF && 0xDC00 <= cs[k + 1] <= 0xDFFF) {
        if k > 0 {
          assert cs[k] == cs[1..][k - 1] && cs[k + 1] == cs[1..][k];
        } else if r.next == i + 1 {
          assert cs[1] == NextChar16(s, i + 1).code;
        }
      }
    }
  }

  /** Trap-free pattern strings decide the relation between the code points of UTF-8 strings. */
  method MatchPattern8(eval: seq<Byte>, pattern: seq<Byte>) returns (result: bool)
    requires |eval| < 0x8000_0000 && |pattern| < 0x8000_0000
    ensures var p, s := Decoded8(pattern, 0), Decoded8(eval, 0);
            NoDangling(p, 0) ==>
              && (result ==> Matches(Parse(p), s))
              && ((NoSentinel(Split(Parse(p))) && HasTrap(Split(Parse(p)))) || (result <==> Matches(Parse(p), s)))
  {
    result := MatchPattern(Chars8(eval, 0), Chars8(pattern, 0));
  }

  method MatchPattern16(eval: seq<Unit>, pattern: seq<Unit>) returns (result: bool)
    requires |eval| < 0x8000_0000 && |pattern| < 0x8000_0000
    ensures var p, s := Chars16(pattern, 0), Chars16(eval, 0);
            NoDangling(p, 0) ==>
              && (result ==> Matches(Parse(p), s))
              && (HasTrap(Split(Parse(p))) || (result <==> Matches(Parse(p), s)))
  {
    result := MatchPattern(Chars16(eval, 0), Chars16(pattern, 0));
  }
}
