/**
 * Wildcard patterns as base/strings/pattern.h documents them.
 *
 * Strings and patterns are sequences of decoded characters. A character is a
 * code point, or SENTINEL for an ill-formed unit sequence; SENTINEL never
 * equals anything, itself included.
 */
module Glob {
  type Sym = int

  const SENTINEL: Sym := -1
  const STAR: Sym := 42
  const QUESTION: Sym := 63
  const BACKSLASH: Sym := 92

  predicate IsWildcard(c: Sym) {
    c == STAR || c == QUESTION
  }

  /** A parsed pattern: what each pattern character, or escaped character, asks for. */
  datatype Tokens = End | Lit(c: Sym, rest: Tokens) | Opt(rest: Tokens) | Star(rest: Tokens)

  function Parse(p: seq<Sym>): Tokens {
    ParseFrom(p, 0)
  }

  // A backslash makes the next character a literal, whatever it is.
  function ParseFrom(p: seq<Sym>, i: nat): Tokens
    requires i <= |p|
    decreases |p| - i
  {
    if i == |p| then End
    else if p[i] == QUESTION then Opt(ParseFrom(p, i + 1))
    else if p[i] == STAR then Star(ParseFrom(p, i + 1))
    else if p[i] != BACKSLASH then Lit(p[i], ParseFrom(p, i + 1))
    else if i + 1 == |p| then End
    else Lit(p[i + 1], ParseFrom(p, i + 2))
  }

  // No backslash from i on is left without a character to escape.
  predicate NoDangling(p: seq<Sym>, i: nat)
    requires i <= |p|
    decreases |p| - i
  {
    i == |p| ||
    if p[i] == BACKSLASH then i + 2 <= |p| && NoDangling(p, i + 2) else NoDangling(p, i + 1)
  }

  /** The documented relation: ? matches 0 or 1 character, * matches 0 or more. */
  predicate Matches(ts: Tokens, s: seq<Sym>)
    decreases ts, |s|
  {
    match ts
    case End => s == []
    case Lit(c, rest) => s != [] && s[0] == c && c != SENTINEL && Matches(rest, s[1..])
    case Opt(rest) => Matches(rest, s) || (s != [] && Matches(rest, s[1..]))
    case Star(rest) => Matches(rest, s) || (s != [] && Matches(ts, s[1..]))
  }

  /**
   * A pattern as a list of pieces: a run of wildcards, then literal characters.
   * The gap is the longest text the run can match, or negative if unbounded.
   */
  datatype Pieces =
    | Last(gap: int, lits: seq<Sym>)
    | Then(gap: int, lits: seq<Sym>, rest: Pieces)

  // The longest text that the wildcards in front can match, or -1.
  function Gap(ts: Tokens): (g: int)
    ensures g >= -1
  {
    match ts
    case Opt(rest) => (var g := Gap(rest); if g < 0 then -1 else g + 1)
    case Star(rest) => -1
    case _ => 0
  }

  function AfterRun(ts: Tokens): (rest: Tokens)
    ensures !rest.Opt? && !rest.Star?
    ensures rest == ts || rest < ts
    ensures ts.Opt? || ts.Star? ==> rest < ts
  {
    match ts
    case Opt(rest) => AfterRun(rest)
    case Star(rest) => AfterRun(rest)
    case _ => ts
  }

  function Literals(ts: Tokens): seq<Sym> {
    if ts.Lit? then [ts.c] + Literals(ts.rest) else []
  }

  function AfterLiterals(ts: Tokens): (rest: Tokens)
    ensures !rest.Lit?
    ensures rest == ts || rest < ts
    ensures ts.Lit? ==> rest < ts
  {
    if ts.Lit? then AfterLiterals(ts.rest) else ts
  }

  function Split(ts: Tokens): (ps: Pieces)
    decreases ts
  {
    Segment(Gap(ts), AfterRun(ts))
  }

  // The pieces of ts when its leading literals follow the given gap.
  function Segment(gap: int, ts: Tokens): (ps: Pieces)
    requires !ts.Opt? && !ts.Star?
    decreases ts, 0
  {
    var rest := AfterLiterals(ts);
    if rest == End then Last(gap, Literals(ts)) else Then(gap, Literals(ts), Segment(Gap(rest), AfterRun(rest)))
  }

  // The literals w occur in s at position k.
  predicate At(w: seq<Sym>, s: seq<Sym>, k: nat) {
    k + |w| <= |s| && s[k..k + |w|] == w && SENTINEL !in w
  }

  predicate Fits(gap: int, k: nat) {
    gap < 0 || k <= gap
  }

  // The first piece can be placed so that its literals start at k; the last
  // piece of a pattern must end where the string ends.
  predicate Place(ps: Pieces, s: seq<Sym>, k: nat) {
    Fits(ps.gap, k) && At(ps.lits, s, k) && (ps.Last? ==> k + |ps.lits| == |s|)
  }

  /** The documented relation, restated over pieces: some choice of places works. */
  ghost predicate PiecesMatch(ps: Pieces, s: seq<Sym>)
    decreases ps, 1
  {
    exists k: nat :: PlaceThenMatch(ps, s, k)
  }

  ghost predicate PlaceThenMatch(ps: Pieces, s: seq<Sym>, k: nat)
    decreases ps, 0
  {
    Place(ps, s, k) && (ps.Then? ==> PiecesMatch(ps.rest, s[k + |ps.lits|..]))
  }

  // Leaving out k characters, at most the gap, makes the rest match.
  ghost predicate Skips(gap: int, rest: Tokens, s: seq<Sym>) {
    exists k: nat :: SkipsBy(gap, rest, s, k)
  }

  ghost predicate SkipsBy(gap: int, rest: Tokens, s: seq<Sym>, k: nat) {
    k <= |s| && Fits(gap, k) && Matches(rest, s[k..])
  }

  // Skipping under a gap means skipping nothing, or one character and then the rest.
  lemma {:induction false} SkipsUnfold(gap: int, rest: Tokens, s: seq<Sym>)
    ensures Skips(gap, rest, s) <==>
            Matches(rest, s) || (gap != 0 && s != [] && Skips(if gap < 0 then gap else gap - 1, rest, s[1..]))
  {
    var less := if gap < 0 then gap else gap - 1;
    if k: nat :| SkipsBy(gap, rest, s, k) {
      if k == 0 {
        assert s[0..] == s;
      } else {
        assert s[1..][k - 1..] == s[k..];
        assert SkipsBy(less, rest, s[1..], k - 1);
      }
    }
    if Matches(rest, s) {
      assert s[0..] == s;
      assert SkipsBy(gap, rest, s, 0);
    }
    if gap != 0 && s != [] && Skips(less, rest, s[1..]) {
      var k: nat :| SkipsBy(less, rest, s[1..], k);
      assert s[1..][k..] == s[k + 1..];
      assert SkipsBy(gap, rest, s, k + 1);
    }
  }

  lemma {:induction false} SkipsWider(gap: int, wider: int, rest: Tokens, s: seq<Sym>)
    requires Skips(gap, rest, s)
    requires wider < 0 || 0 <= gap <= wider
    ensures Skips(wider, rest, s)
  {
    var k: nat :| SkipsBy(gap, rest, s, k);
    assert SkipsBy(wider, rest, s, k);
  }

  // A run of wildcards matches like one gap, whatever the order of ? and * in it.
  lemma {:induction false} GapMatches(ts: Tokens, s: seq<Sym>)
    ensures Matches(ts, s) <==> Skips(Gap(ts), AfterRun(ts), s)
    decreases ts, |s|
  {
    var gap, after := Gap(ts), AfterRun(ts);
    SkipsUnfold(gap, after, s);
    if ts.Opt? || ts.Star? {
      var less := Gap(ts.rest);
      GapMatches(ts.rest, s);
      SkipsUnfold(less, after, s);
      if s != [] {
        GapMatches(if ts.Opt? then ts.rest else ts, s[1..]);
      }
      if Skips(less, after, s) {
        SkipsWider(less, gap, after, s);
      }
    }
  }

  lemma {:induction false} LiteralsMatch(ts: Tokens, s: seq<Sym>)
    ensures var w := Literals(ts);
            Matches(ts, s) <==> At(w, s, 0) && Matches(AfterLiterals(ts), s[|w|..])
  {
    var w := Literals(ts);
    if !ts.Lit? {
      assert s[0..] == s;
    } else if s != [] {
      LiteralsMatch(ts.rest, s[1..]);
      if |w| <= |s| {
        FirstLiteral(ts.c, Literals(ts.rest), s);
      }
    }
  }

  lemma {:induction false} FirstLiteral(c: Sym, w: seq<Sym>, s: seq<Sym>)
    requires 1 + |w| <= |s|
    ensures At([c] + w, s, 0) <==> s[0] == c && c != SENTINEL && At(w, s[1..], 0)
    ensures s[1..][|w|..] == s[|[c] + w|..]
  {
    assert s[0..1 + |w|] == [s[0]] + s[1..][0..|w|];
  }

  lemma {:induction false} LiteralsMatchAt(ts: Tokens, s: seq<Sym>, k: nat)
    requires k <= |s|
    ensures var w := Literals(ts);
            Matches(ts, s[k..]) <==> At(w, s, k) && Matches(AfterLiterals(ts), s[k + |w|..])
  {
    var w := Literals(ts);
    LiteralsMatch(ts, s[k..]);
    if k + |w| <= |s| {
      assert s[k..][0..|w|] == s[k..k + |w|];
      assert s[k..][|w|..] == s[k + |w|..];
    }
  }

  /** Splitting a pattern into pieces loses nothing. */
  lemma {:induction false} MatchesIffPiecesMatch(ts: Tokens, s: seq<Sym>)
    ensures Matches(ts, s) <==> PiecesMatch(Split(ts), s)
  {
    GapMatches(ts, s);
    SkipsIffPiecesMatch(Gap(ts), AfterRun(ts), s);
  }

  lemma {:induction false} SkipsIffPiecesMatch(gap: int, ts: Tokens, s: seq<Sym>)
    requires !ts.Opt? && !ts.Star?
    ensures Skips(gap, ts, s) <==> PiecesMatch(Segment(gap, ts), s)
    decreases ts, 1
  {
    forall k: nat ensures SkipsBy(gap, ts, s, k) <==> PlaceThenMatch(Segment(gap, ts), s, k) {
      if k <= |s| {
        SkipsByIffPlaced(gap, ts, s, k);
      }
    }
  }

  lemma {:induction false} SkipsByIffPlaced(gap: int, ts: Tokens, s: seq<Sym>, k: nat)
    requires !ts.Opt? && !ts.Star? && k <= |s|
    ensures SkipsBy(gap, ts, s, k) <==> PlaceThenMatch(Segment(gap, ts), s, k)
    decreases ts, 0
  {
    var w, rest := Literals(ts), AfterLiterals(ts);
    LiteralsMatchAt(ts, s, k);
    if k + |w| <= |s| && rest != End {
      var after := s[k + |w|..];
      GapMatches(rest, after);
      SkipsIffPiecesMatch(Gap(rest), AfterRun(rest), after);
      assert Matches(rest, after) <==> PiecesMatch(Segment(Gap(rest), AfterRun(rest)), after);
    }
  }

  // Every piece but the first has wildcards, every piece but the last has literals.
  predicate WellFormed(ps: Pieces) {
    ps.Then? ==> ps.lits != [] && ps.rest.gap != 0 && WellFormed(ps.rest)
  }

  lemma {:induction false} SegmentWellFormed(gap: int, ts: Tokens)
    requires !ts.Opt? && !ts.Star?
    ensures WellFormed(Segment(gap, ts))
    decreases ts
  {
    var rest := AfterLiterals(ts);
    if rest != End {
      SegmentWellFormed(Gap(rest), AfterRun(rest));
    }
  }

  /** The first position from k on at which the first piece can be placed, or -1. */
  function First(ps: Pieces, s: seq<Sym>, k: nat): (r: int)
    ensures r == -1 || (k <= r && Place(ps, s, r))
    ensures forall j: nat :: k <= j && (r < 0 || j < r) ==> !Place(ps, s, j)
    decreases |s| - k
  {
    if Place(ps, s, k) then k
    else if k >= |s| then -1
    else First(ps, s, k + 1)
  }

  /** Leftmost placement of every piece, without reconsidering. */
  predicate Greedy(ps: Pieces, s: seq<Sym>) {
    var k := First(ps, s, 0);
    k >= 0 && (ps.Last? || Greedy(ps.rest, s[k + |ps.lits|..]))
  }
}
