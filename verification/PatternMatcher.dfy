/**
 * The greedy matcher of base/strings/pattern.cc: each literal segment is placed
 * as far left as its wildcards allow, and no placement is ever reconsidered.
 */
module PatternMatcher {
  import opened Glob
  import opened GreedyExactness
  import opened GreedyTraps

  // A C++ int; the counts and distances below never leave its range.
  type Int32 = x: int | -0x8000_0000 <= x < 0x8000_0000

  /** Moves past a run of wildcards; -1 stands for a run without bound. */
  method EatWildcards(pattern: seq<Sym>, start: nat) returns (pos: nat, maximum: Int32)
    requires start <= |pattern| < 0x8000_0000
    ensures start <= pos <= |pattern|
    ensures pos < |pattern| ==> !IsWildcard(pattern[pos])
    ensures maximum == Gap(ParseFrom(pattern, start))
    ensures ParseFrom(pattern, pos) == AfterRun(ParseFrom(pattern, start))
    ensures NoDangling(pattern, start) ==> NoDangling(pattern, pos)
  {
    var questionMarks: Int32 := 0;
    var hasAsterisk := false;
    pos := start;
    while pos != |pattern|
      invariant start <= pos <= |pattern|
      invariant 0 <= questionMarks <= pos - start
      invariant AfterRun(ParseFrom(pattern, start)) == AfterRun(ParseFrom(pattern, pos))
      invariant Gap(ParseFrom(pattern, start)) ==
                  var g := Gap(ParseFrom(pattern, pos));
                  if hasAsterisk || g < 0 then -1 else questionMarks + g
      invariant NoDangling(pattern, start) ==> NoDangling(pattern, pos)
      decreases |pattern| - pos
    {
      if pattern[pos] == QUESTION {
        questionMarks := questionMarks + 1;
      } else if pattern[pos] == STAR {
        hasAsterisk := true;
      } else {
        break;
      }
      pos := pos + 1;
    }
    maximum := if hasAsterisk then -1 else questionMarks;
  }

  /** How far from position a of the string the first piece can first be placed, or -1. */
  function FirstFrom(ps: Pieces, s: seq<Sym>, a: nat): int
    requires a <= |s|
  {
    First(ps, s[a..], 0)
  }

  // The first piece can be placed nowhere from a up to position from.
  ghost predicate NoneBefore(ps: Pieces, s: seq<Sym>, a: nat, from: nat)
    requires a <= |s|
  {
    forall j: nat :: a + j < from ==> !Place(ps, s[a..], j)
  }

  // The tokens still to be met inside a segment, a pending escape included.
  function Pending(pattern: seq<Sym>, pos: nat, escape: bool): Tokens
    requires pos <= |pattern|
  {
    if !escape then ParseFrom(pattern, pos)
    else if pos == |pattern| then End
    else Lit(pattern[pos], ParseFrom(pattern, pos + 1))
  }

  // The characters from..str of the string have met the first tokens of ts,
  // and what is left of ts is pending.
  ghost predicate Met(ts: Tokens, s: seq<Sym>, from: nat, str: nat, pending: Tokens)
    requires from <= str <= |s|
    decreases str - from
  {
    if from == str then ts == pending
    else ts.Lit? && ts.c == s[from] && ts.c != SENTINEL && Met(ts.rest, s, from + 1, str, pending)
  }

  lemma {:induction false} MetNext(ts: Tokens, s: seq<Sym>, from: nat, str: nat, more: Tokens)
    requires from <= str < |s| && s[str] != SENTINEL
    requires Met(ts, s, from, str, Lit(s[str], more))
    ensures Met(ts, s, from, str + 1, more)
    decreases str - from
  {
    if from < str {
      MetNext(ts.rest, s, from + 1, str, more);
    }
  }

  lemma {:induction false} MetLiterals(ts: Tokens, s: seq<Sym>, from: nat, str: nat, pending: Tokens)
    requires from <= str <= |s| && Met(ts, s, from, str, pending)
    ensures Literals(ts) == s[from..str] + Literals(pending) && SENTINEL !in s[from..str]
    ensures AfterLiterals(ts) == AfterLiterals(pending)
    decreases str - from
  {
    if from < str {
      MetLiterals(ts.rest, s, from + 1, str, pending);
      assert s[from..str] == [s[from]] + s[from + 1..str];
    }
  }

  // The whole segment is met at from: that is its first place, if it may end there.
  lemma {:induction false} FoundHere(gap: int, ts: Tokens, s: seq<Sym>, a: nat, from: nat, str: nat, after: Tokens)
    requires a <= from <= str <= |s| && !ts.Opt? && !ts.Star?
    requires Met(ts, s, from, str, after) && !after.Lit?
    requires NoneBefore(Segment(gap, ts), s, a, from)
    requires Fits(gap, from - a) && (after == End ==> str == |s|)
    ensures FirstFrom(Segment(gap, ts), s, a) == from - a
    ensures AfterLiterals(ts) == after && str == from + |Literals(ts)|
  {
    MetLiterals(ts, s, from, str, after);
    assert s[a..][from - a..str - a] == s[from..str];
    assert Place(Segment(gap, ts), s[a..], from - a);
  }

  // The pattern ends here but the string does not.
  lemma {:induction false} EndsTooEarly(gap: int, ts: Tokens, s: seq<Sym>, a: nat, from: nat, str: nat)
    requires a <= from <= str < |s| && !ts.Opt? && !ts.Star?
    requires Met(ts, s, from, str, End)
    requires NoneBefore(Segment(gap, ts), s, a, from)
    ensures NoneBefore(Segment(gap, ts), s, a, from + 1)
  {
    MetLiterals(ts, s, from, str, End);
    assert !Place(Segment(gap, ts), s[a..], from - a);
  }

  // The pattern asks for a character the string does not have here.
  lemma {:induction false} Mismatch(gap: int, ts: Tokens, s: seq<Sym>, a: nat, from: nat, str: nat, c: Sym,
                                    more: Tokens)
    requires a <= from <= str < |s| && !ts.Opt? && !ts.Star?
    requires Met(ts, s, from, str, Lit(c, more)) && (c != s[str] || c == SENTINEL)
    requires NoneBefore(Segment(gap, ts), s, a, from)
    ensures NoneBefore(Segment(gap, ts), s, a, from + 1)
  {
    var w := Literals(ts);
    MetLiterals(ts, s, from, str, Lit(c, more));
    assert w[str - from] == c;
    if from + |w| <= |s| {
      assert s[a..][from - a..from - a + |w|][str - from] == s[str];
    }
  }

  // The pattern asks for more characters than the string has left.
  lemma {:induction false} StringTooShort(gap: int, ts: Tokens, s: seq<Sym>, a: nat, from: nat, c: Sym, more: Tokens)
    requires a <= from <= |s| && !ts.Opt? && !ts.Star?
    requires Met(ts, s, from, |s|, Lit(c, more))
    requires NoneBefore(Segment(gap, ts), s, a, from)
    ensures FirstFrom(Segment(gap, ts), s, a) == -1
  {
    MetLiterals(ts, s, from, |s|, Lit(c, more));
  }

  lemma {:induction false} TooFar(ps: Pieces, s: seq<Sym>, a: nat, from: nat)
    requires a <= from <= |s| && ps.gap == from - a
    requires NoneBefore(ps, s, a, from + 1)
    ensures FirstFrom(ps, s, a) == -1
  {
  }

  /**
   * Places one literal segment, no further than maximum characters away unless
   * that is negative; gives back the new pattern and string positions.
   */
  method SearchForChars(pattern: seq<Sym>, patternStart: nat, s: seq<Sym>, stringStart: nat, maximum: Int32)
    returns (found: bool, pos: nat, str: nat)
    requires patternStart <= |pattern| < 0x8000_0000
    requires patternStart < |pattern| ==> !IsWildcard(pattern[patternStart])
    requires stringStart <= |s| < 0x8000_0000
    requires maximum >= -1
    ensures patternStart <= pos <= |pattern| && str <= |s|
    ensures found && pos < |pattern| ==> IsWildcard(pattern[pos])
    ensures NoDangling(pattern, patternStart) ==>
              var ts := ParseFrom(pattern, patternStart);
              var k := FirstFrom(Segment(maximum, ts), s, stringStart);
              && (found <==> k >= 0)
              && (found ==>
                    && str == stringStart + k + |Literals(ts)|
                    && ParseFrom(pattern, pos) == AfterLiterals(ts)
                    && NoDangling(pattern, pos))
  {
    ghost var clean := NoDangling(pattern, patternStart);
    ghost var ts := ParseFrom(pattern, patternStart);
    ghost var ps := Segment(maximum, ts);
    var from := stringStart;
    var distance: Int32 := maximum;
    var escape := false;
    pos, str := patternStart, stringStart;
    while true
      invariant patternStart <= pos <= |pattern|
      invariant stringStart <= from <= str <= |s|
      invariant distance == maximum - (from - stringStart)
      invariant maximum >= 0 ==> distance >= 0
      invariant clean ==> Met(ts, s, from, str, Pending(pattern, pos, escape))
      invariant clean ==> if escape then pos < |pattern| && NoDangling(pattern, pos + 1) else NoDangling(pattern, pos)
      invariant clean ==> NoneBefore(ps, s, stringStart, from)
      decreases |s| - from, |pattern| - pos
    {
      if pos == |pattern| {
        if str == |s| {
          if clean {
            FoundHere(maximum, ts, s, stringStart, from, str, End);
          }
          return true, pos, str;
        }
        if clean {
          EndsTooEarly(maximum, ts, s, stringStart, from, str);
        }
      } else {
        if !escape && IsWildcard(pattern[pos]) {
          if clean {
            FoundHere(maximum, ts, s, stringStart, from, str, ParseFrom(pattern, pos));
          }
          return true, pos, str;
        }
        if !escape && pattern[pos] == BACKSLASH {
          escape := true;
          pos := pos + 1;
          continue;
        }
        ghost var c := pattern[pos];
        ghost var more := ParseFrom(pattern, pos + 1);
        assert Pending(pattern, pos, escape) == Lit(c, more);
        escape := false;
        if str == |s| {
          if clean {
            StringTooShort(maximum, ts, s, stringStart, from, c, more);
          }
          return false, pos, str;
        }
        if pattern[pos] == s[str] && pattern[pos] != SENTINEL {
          if clean {
            MetNext(ts, s, from, str, more);
          }
          pos, str := pos + 1, str + 1;
          continue;
        }
        if clean {
          Mismatch(maximum, ts, s, stringStart, from, str, c, more);
        }
      }
      if distance == 0 {
        if clean {
          TooFar(ps, s, stringStart, from);
        }
        return false, pos, str;
      }
      distance := distance - 1;
      pos := patternStart;
      from := from + 1;
      str := from;
    }
  }

  /**
   * Alternates the two steps above until the pattern is used up. For a pattern
   * without a dangling backslash the result is the greedy relation.
   */
  method MatchPatternT(eval: seq<Sym>, pattern: seq<Sym>) returns (result: bool)
    requires |eval| < 0x8000_0000 && |pattern| < 0x8000_0000
    ensures NoDangling(pattern, 0) ==> (result <==> Greedy(Split(Parse(pattern)), eval))
  {
    ghost var clean := NoDangling(pattern, 0);
    ghost var accepted := Greedy(Split(Parse(pattern)), eval);
    var p: nat, s: nat := 0, 0;
    assert eval[0..] == eval;
    while true
      invariant p <= |pattern| && s <= |eval|
      invariant clean ==> NoDangling(pattern, p)
      invariant clean ==> (accepted <==> Greedy(Split(ParseFrom(pattern, p)), eval[s..]))
      decreases |pattern| - p
    {
      var q, maximum := EatWildcards(pattern, p);
      var found, p', s' := SearchForChars(pattern, q, eval, s, maximum);
      if !found {
        return false;
      }
      if p' == |pattern| {
        return true;
      }
      assert clean ==> eval[s..][s' - s..] == eval[s'..];
      p, s := p', s';
    }
  }

  /** Never wrong when true, and the documented relation if the pattern has no trap. */
  method MatchPattern(eval: seq<Sym>, pattern: seq<Sym>) returns (result: bool)
    requires |eval| < 0x8000_0000 && |pattern| < 0x8000_0000
    ensures var ts := Parse(pattern);
            NoDangling(pattern, 0) ==>
              && (result <==> Greedy(Split(ts), eval))
              && (result ==> Matches(ts, eval))
              && (Committed(Split(ts)) ==> (result <==> Matches(ts, eval)))
              && (!(NoSentinel(Split(ts)) && HasTrap(Split(ts))) ==> (result <==> Matches(ts, eval)))
  {
    result := MatchPatternT(eval, pattern);
    Decides(pattern, eval);
    PatternExactIffNoTrap(pattern);
  }
}
