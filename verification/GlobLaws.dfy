/**
 * What patterns mean, character by character: the promises of
 * base/strings/pattern.h with the character codes written as numbers
 * (42 is *, 63 is ?, 92 is the backslash, and -1 an ill-formed sequence).
 */
module GlobLaws {
  import opened Glob

  // Does the string match the pattern?
  predicate Match(p: seq<Sym>, s: seq<Sym>) {
    Matches(Parse(p), s)
  }

  // Reading a pattern from position i on is reading what is left of it.
  lemma {:induction false} ParseRest(p: seq<Sym>, i: nat)
    requires i <= |p|
    ensures ParseFrom(p, i) == Parse(p[i..])
  {
    ParseShift(p[..i], p[i..], 0);
    assert p[..i] + p[i..] == p;
  }

  lemma {:induction false} ParseShift(before: seq<Sym>, p: seq<Sym>, i: nat)
    requires i <= |p|
    ensures ParseFrom(before + p, |before| + i) == ParseFrom(p, i)
    decreases |p| - i
  {
    if i < |p| {
      assert (before + p)[|before| + i] == p[i];
      ParseShift(before, p, i + 1);
      if i + 1 < |p| {
        assert (before + p)[|before| + i + 1] == p[i + 1];
        ParseShift(before, p, i + 2);
      }
    }
  }

  /** The empty pattern matches the empty string. */
  lemma {:induction false} EmptyPattern(s: seq<Sym>)
    ensures Match([], s) <==> s == []
  {
  }

  /** A question mark stands for no character or one. */
  lemma {:induction false} QuestionMark(p: seq<Sym>, s: seq<Sym>)
    ensures Match([63] + p, s) <==> Match(p, s) || (s != [] && Match(p, s[1..]))
  {
    ParseRest([63] + p, 1);
    assert ([63] + p)[1..] == p;
  }

  lemma {:induction false} StarSkips(ts: Tokens, s: seq<Sym>)
    ensures Matches(Star(ts), s) <==> exists k: nat :: k <= |s| && Matches(ts, s[k..])
    decreases |s|
  {
    assert s[0..] == s;
    if s != [] {
      StarSkips(ts, s[1..]);
      forall k: nat | k < |s| ensures s[1..][k..] == s[k + 1..] {}
      if k: nat :| k <= |s| && Matches(ts, s[k..]) {
        assert k > 0 ==> s[1..][k - 1..] == s[k..];
      }
    }
  }

  /** An asterisk stands for any number of characters. */
  lemma {:induction false} Asterisk(p: seq<Sym>, s: seq<Sym>)
    ensures Match([42] + p, s) <==> exists k: nat :: k <= |s| && Match(p, s[k..])
  {
    ParseRest([42] + p, 1);
    assert ([42] + p)[1..] == p;
    StarSkips(Parse(p), s);
  }

  /** A backslash makes the next character stand for itself, whatever it is. */
  lemma {:induction false} Backslash(c: Sym, p: seq<Sym>, s: seq<Sym>)
    ensures Match([92, c] + p, s) <==> s != [] && s[0] == c && c != -1 && Match(p, s[1..])
  {
    ParseRest([92, c] + p, 2);
    assert ([92, c] + p)[2..] == p;
  }

  /** So does every other well-formed character; an ill-formed one matches nothing. */
  lemma {:induction false} OrdinaryCharacter(c: Sym, p: seq<Sym>, s: seq<Sym>)
    requires c != 42 && c != 63 && c != 92
    ensures Match([c] + p, s) <==> s != [] && s[0] == c && c != -1 && Match(p, s[1..])
  {
    ParseRest([c] + p, 1);
    assert ([c] + p)[1..] == p;
  }

  /** The patterns of one character. */
  lemma {:induction false} ShortPatterns(c: Sym, s: seq<Sym>)
    ensures Match([42], s)
    ensures Match([63], s) <==> |s| <= 1
    ensures c != -1 ==> (Match([92, c], s) <==> s == [c])
    ensures c !in {42, 63, 92, -1} ==> (Match([c], s) <==> s == [c])
  {
    Asterisk([], s);
    assert [42] + [] == [42] && s[|s|..] == [];
    QuestionMark([], s);
    assert [63] + [] == [63];
    Backslash(c, [], s);
    assert [92, c] + [] == [92, c];
    if c !in {42, 63, 92} {
      OrdinaryCharacter(c, [], s);
      assert [c] + [] == [c];
    }
  }

  // Every backslash has a character behind it.
  lemma {:induction false} DanglingLaws(c: Sym, p: seq<Sym>)
    ensures NoDangling([], 0) && !NoDangling([92], 0)
    ensures NoDangling([92, c] + p, 0) <==> NoDangling(p, 0)
    ensures c != 92 ==> (NoDangling([c] + p, 0) <==> NoDangling(p, 0))
  {
    DanglingShift([92, c], p, 0);
    DanglingShift([c], p, 0);
  }

  lemma {:induction false} DanglingShift(before: seq<Sym>, p: seq<Sym>, i: nat)
    requires i <= |p|
    ensures NoDangling(before + p, |before| + i) <==> NoDangling(p, i)
    decreases |p| - i
  {
    if i < |p| {
      assert (before + p)[|before| + i] == p[i];
      DanglingShift(before, p, i + 1);
      if i + 1 < |p| {
        DanglingShift(before, p, i + 2);
      }
    }
  }
}
