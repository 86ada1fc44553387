/**
 * For which patterns the greedy matcher of base/strings/pattern.cc decides the
 * documented relation: exactly for those without a trap. A trap is read off the
 * pattern alone.
 */
module GreedyTraps {
  import opened Glob
  import opened GreedyExactness

  predicate NoSentinel(ps: Pieces) {
    SENTINEL !in ps.lits && (ps.Then? ==> NoSentinel(ps.rest))
  }

  // ---------------------------------------------------------------------------
  // Traps.

  /**
   * The match is ahead of the greedy matcher by the text t, and the next runs
   * have a limit: each can match some text f, no longer than the limit, such that
   * the matcher, which starts from t, either finds no place for the segment or
   * finds one too early again, and in the end finds none.
   */
  ghost predicate Derails(ps: Pieces, t: seq<Sym>)
    decreases ps, 1
  {
    t != [] && exists f: seq<Sym> :: |f| <= ps.gap && DerailsOn(ps, t, f)
  }

  ghost predicate DerailsOn(ps: Pieces, t: seq<Sym>, f: seq<Sym>)
    decreases ps, 0
  {
    var s := t + f + ps.lits;
    var k := First(ps, s, 0);
    k < 0 || (ps.Then? && Derails(ps.rest, s[k + |ps.lits|..]))
  }

  // The first run can match x although the segment occurs at once.
  ghost predicate TrapBy(ps: Pieces, x: seq<Sym>) {
    && ps.Then? && x != [] && Fits(ps.gap, |x|) && At(ps.lits, x + ps.lits, 0)
    && Derails(ps.rest, (x + ps.lits)[|ps.lits|..])
  }

  /** One segment can be placed too early, and the runs that follow cannot make up for it. */
  ghost predicate HasTrap(ps: Pieces)
    decreases ps
  {
    (exists x :: TrapBy(ps, x)) || (ps.Then? && HasTrap(ps.rest))
  }

  // ---------------------------------------------------------------------------
  // A trap yields a string that the matcher is wrong about.

  // Every run matches nothing.
  function PlainText(ps: Pieces): seq<Sym> {
    ps.lits + if ps.Then? then PlainText(ps.rest) else []
  }

  lemma {:induction false} PlaceAfter(ps: Pieces, lead: seq<Sym>, tail: seq<Sym>)
    requires Fits(ps.gap, |lead|) && SENTINEL !in ps.lits
    requires if ps.Then? then PiecesMatch(ps.rest, tail) else tail == []
    ensures PiecesMatch(ps, lead + ps.lits + tail)
  {
    var s := lead + ps.lits + tail;
    assert s[|lead|..|lead| + |ps.lits|] == ps.lits && s[|lead| + |ps.lits|..] == tail;
    assert PlaceThenMatch(ps, s, |lead|);
  }

  lemma {:induction false} PlainTextMatches(ps: Pieces)
    requires NoSentinel(ps)
    ensures PiecesMatch(ps, PlainText(ps))
    decreases ps
  {
    if ps.Then? {
      PlainTextMatches(ps.rest);
    }
    var tail := if ps.Then? then PlainText(ps.rest) else [];
    assert [] + ps.lits + tail == ps.lits + tail;
    PlaceAfter(ps, [], tail);
  }

  // More text behind makes no difference to a place that ends before it.
  lemma {:induction false} PlaceStays(ps: Pieces, s: seq<Sym>, u: seq<Sym>, k: nat)
    requires ps.Then? && k + |ps.lits| <= |s|
    ensures Place(ps, s + u, k) <==> Place(ps, s, k)
  {
    assert (s + u)[k..k + |ps.lits|] == s[k..k + |ps.lits|];
  }

  lemma {:induction false} FirstStays(ps: Pieces, s: seq<Sym>, u: seq<Sym>)
    requires ps.Then? && First(ps, s, 0) >= 0
    ensures First(ps, s + u, 0) == First(ps, s, 0)
  {
    var k, g := First(ps, s, 0), First(ps, s + u, 0);
    PlaceStays(ps, s, u, k);
    assert 0 <= g <= k;
    PlaceStays(ps, s, u, g);
  }

  lemma {:induction false} GreedyOn(ps: Pieces, s: seq<Sym>, u: seq<Sym>)
    requires ps.Then? && First(ps, s, 0) >= 0
    ensures Greedy(ps, s + u) <==> Greedy(ps.rest, s[First(ps, s, 0) + |ps.lits|..] + u)
  {
    var n := First(ps, s, 0) + |ps.lits|;
    FirstStays(ps, s, u);
    assert (s + u)[n..] == s[n..] + u;
  }

  // If there is no place up to where the literals end, there is none later.
  lemma {:induction false} NoneStays(ps: Pieces, s: seq<Sym>, u: seq<Sym>)
    requires ps.Then? && First(ps, s, 0) < 0 && 0 <= ps.gap < |s| - |ps.lits|
    ensures First(ps, s + u, 0) < 0
  {
    var g := First(ps, s + u, 0);
    if g >= 0 {
      PlaceStays(ps, s, u, g);
    }
  }

  // What the matcher finds when it starts behind the match by t.
  lemma {:induction false} DerailText(ps: Pieces, t: seq<Sym>) returns (u: seq<Sym>)
    requires NoSentinel(ps) && Derails(ps, t)
    ensures PiecesMatch(ps, u) && !Greedy(ps, t + u)
    decreases ps
  {
    var f: seq<Sym> :| |f| <= ps.gap && DerailsOn(ps, t, f);
    if First(ps, t + f + ps.lits, 0) < 0 {
      u := DerailNow(ps, t, f);
    } else {
      var s := t + f + ps.lits;
      var behind := s[First(ps, s, 0) + |ps.lits|..];
      var tail := DerailText(ps.rest, behind);
      u := DerailLater(ps, t, f, behind, tail);
    }
  }

  lemma {:induction false} DerailLater(ps: Pieces, t: seq<Sym>, f: seq<Sym>, behind: seq<Sym>, tail: seq<Sym>)
    returns (u: seq<Sym>)
    requires ps.Then? && SENTINEL !in ps.lits && |f| <= ps.gap && First(ps, t + f + ps.lits, 0) >= 0
    requires behind == (t + f + ps.lits)[First(ps, t + f + ps.lits, 0) + |ps.lits|..]
    requires PiecesMatch(ps.rest, tail) && !Greedy(ps.rest, behind + tail)
    ensures PiecesMatch(ps, u) && !Greedy(ps, t + u)
  {
    GreedyOn(ps, t + f + ps.lits, tail);
    u := Assembled(ps, t, f, tail);
  }

  lemma {:induction false} Assembled(ps: Pieces, t: seq<Sym>, f: seq<Sym>, tail: seq<Sym>) returns (u: seq<Sym>)
    requires |f| <= ps.gap && SENTINEL !in ps.lits && !Greedy(ps, t + f + ps.lits + tail)
    requires if ps.Then? then PiecesMatch(ps.rest, tail) else tail == []
    ensures PiecesMatch(ps, u) && !Greedy(ps, t + u)
  {
    u := f + ps.lits + tail;
    PlaceAfter(ps, f, tail);
    assert t + u == t + f + ps.lits + tail;
  }

  lemma {:induction false} DerailNow(ps: Pieces, t: seq<Sym>, f: seq<Sym>) returns (u: seq<Sym>)
    requires NoSentinel(ps) && |f| <= ps.gap && First(ps, t + f + ps.lits, 0) < 0
    ensures PiecesMatch(ps, u) && !Greedy(ps, t + u)
  {
    var s := t + f + ps.lits;
    if ps.Then? {
      var tail := PlainText(ps.rest);
      PlainTextMatches(ps.rest);
      DerailAtOnce(ps, t, f);
      NoneStays(ps, s, tail);
      u := Assembled(ps, t, f, tail);
    } else {
      assert s + [] == s;
      u := Assembled(ps, t, f, []);
    }
  }

  // No place at all: then the place of the match is out of reach.
  lemma {:induction false} DerailAtOnce(ps: Pieces, t: seq<Sym>, f: seq<Sym>)
    requires SENTINEL !in ps.lits && First(ps, t + f + ps.lits, 0) < 0 && 0 <= ps.gap
    ensures ps.gap < |t| + |f|
  {
    var s, n := t + f + ps.lits, |t| + |f|;
    assert s[n..n + |ps.lits|] == ps.lits;
    assert !Place(ps, s, n);
  }

  lemma {:induction false} TrapTextHere(ps: Pieces, x: seq<Sym>) returns (s: seq<Sym>)
    requires NoSentinel(ps) && TrapBy(ps, x)
    ensures PiecesMatch(ps, s) && !Greedy(ps, s)
  {
    var both := x + ps.lits;
    var u := DerailText(ps.rest, both[|ps.lits|..]);
    PlaceAfter(ps, x, u);
    assert Place(ps, both, 0);
    GreedyOn(ps, both, u);
    s := both + u;
  }

  lemma {:induction false} TrapTextLater(ps: Pieces, u: seq<Sym>) returns (s: seq<Sym>)
    requires ps.Then? && SENTINEL !in ps.lits && PiecesMatch(ps.rest, u) && !Greedy(ps.rest, u)
    ensures PiecesMatch(ps, s) && !Greedy(ps, s)
  {
    var w := ps.lits;
    PlaceAfter(ps, [], u);
    assert [] + w + u == w + u && w[|w|..] + u == u;
    assert Place(ps, w, 0);
    GreedyOn(ps, w, u);
    s := w + u;
  }

  /** With a trap there is a string in the relation that the matcher rejects. */
  lemma {:induction false} TrapText(ps: Pieces) returns (s: seq<Sym>)
    requires NoSentinel(ps) && HasTrap(ps)
    ensures PiecesMatch(ps, s) && !Greedy(ps, s)
    decreases ps
  {
    if x :| TrapBy(ps, x) {
      s := TrapTextHere(ps, x);
    } else {
      var u := TrapText(ps.rest);
      s := TrapTextLater(ps, u);
    }
  }

  // ---------------------------------------------------------------------------
  // A string that the matcher is wrong about shows a trap.

  // The match goes on in u, the matcher in t + u.
  lemma {:induction false} LagDerails(ps: Pieces, t: seq<Sym>, u: seq<Sym>)
    requires t != [] && PiecesMatch(ps, u) && !Greedy(ps, t + u)
    ensures Derails(ps, t) || HasTrap(ps)
    decreases ps, 4
  {
    if ps.gap < 0 {
      assert (t + u)[|t|..] == u && (t + u)[0..] == t + u;
      StartEarlier(ps, t + u, 0, |t|);
      Deviates(ps, t + u);
    } else {
      var k: nat :| PlaceThenMatch(ps, u, k);
      assert t + u == t + u[..k] + ps.lits + u[k + |ps.lits|..];
      LagOn(ps, t, u[..k], u[k + |ps.lits|..]);
    }
  }

  lemma {:induction false} LagOn(ps: Pieces, t: seq<Sym>, f: seq<Sym>, tail: seq<Sym>)
    requires t != [] && |f| <= ps.gap && !Greedy(ps, t + f + ps.lits + tail)
    requires if ps.Then? then PiecesMatch(ps.rest, tail) else tail == []
    ensures Derails(ps, t) || HasTrap(ps)
    decreases ps, 1
  {
    var s := t + f + ps.lits;
    var g := First(ps, s, 0);
    if g < 0 || ps.Last? {
      assert ps.Last? ==> s + tail == s;
      assert DerailsOn(ps, t, f);
    } else {
      GreedyOn(ps, s, tail);
      LagBehind(ps.rest, s[g + |ps.lits|..], tail);
      assert Derails(ps.rest, s[g + |ps.lits|..]) ==> DerailsOn(ps, t, f);
    }
  }

  // The same, where the matcher may have caught up.
  lemma {:induction false} LagBehind(ps: Pieces, t: seq<Sym>, u: seq<Sym>)
    requires PiecesMatch(ps, u) && !Greedy(ps, t + u)
    ensures Derails(ps, t) || HasTrap(ps)
    decreases ps, 5
  {
    if t == [] {
      assert t + u == u;
      Deviates(ps, u);
    } else {
      LagDerails(ps, t, u);
    }
  }

  // The matcher places the first segment at g, the match at k.
  lemma {:induction false} Late(ps: Pieces, s: seq<Sym>, g: nat, k: nat)
    requires ps.Then? && Place(ps, s, g) && Place(ps, s, k) && g <= k
    requires PiecesMatch(ps.rest, s[k + |ps.lits|..]) && !Greedy(ps.rest, s[g + |ps.lits|..])
    ensures HasTrap(ps)
    decreases ps, 1
  {
    if g == k {
      Deviates(ps.rest, s[k + |ps.lits|..]);
    } else {
      TwoPlaces(ps.lits, s, g, k);
      Trapped(ps, s[g..k], s[k + |ps.lits|..]);
    }
  }

  lemma {:induction false} Trapped(ps: Pieces, x: seq<Sym>, u: seq<Sym>)
    requires ps.Then? && x != [] && Fits(ps.gap, |x|) && At(ps.lits, x + ps.lits, 0)
    requires PiecesMatch(ps.rest, u) && !Greedy(ps.rest, (x + ps.lits)[|ps.lits|..] + u)
    ensures HasTrap(ps)
    decreases ps, 0
  {
    var t := (x + ps.lits)[|ps.lits|..];
    LagDerails(ps.rest, t, u);
    assert Derails(ps.rest, t) ==> TrapBy(ps, x);
  }

  lemma {:induction false} TwoPlaces(w: seq<Sym>, s: seq<Sym>, g: nat, k: nat)
    requires g <= k && At(w, s, g) && At(w, s, k)
    ensures var both := s[g..k] + w;
            At(w, both, 0) && s[g + |w|..] == both[|w|..] + s[k + |w|..]
  {
    var both := s[g..k] + w;
    assert both == s[g..k + |w|];
    assert both[0..|w|] == s[g..g + |w|];
    assert s[g + |w|..] == both[|w|..] + s[k + |w|..];
  }

  /** A rejected string of the relation shows that the pattern has a trap. */
  lemma {:induction false} Deviates(ps: Pieces, s: seq<Sym>)
    requires PiecesMatch(ps, s) && !Greedy(ps, s)
    ensures HasTrap(ps)
    decreases ps, 3
  {
    var k: nat :| PlaceThenMatch(ps, s, k);
    if ps.Then? {
      Late(ps, s, First(ps, s, 0), k);
    }
  }

  // ---------------------------------------------------------------------------
  // The exact condition.

  /** The matcher decides the relation on all strings exactly if the pattern has no trap. */
  lemma {:induction false} ExactIffNoTrap(ps: Pieces)
    requires NoSentinel(ps)
    ensures (forall s :: PiecesMatch(ps, s) <==> Greedy(ps, s)) <==> !HasTrap(ps)
  {
    if HasTrap(ps) {
      var s := TrapText(ps);
    } else {
      forall s ensures PiecesMatch(ps, s) <==> Greedy(ps, s) {
        if Greedy(ps, s) {
          Sound(ps, s);
        } else if PiecesMatch(ps, s) {
          Deviates(ps, s);
        }
      }
    }
  }

  lemma {:induction false} SentinelNeverMatches(ps: Pieces, s: seq<Sym>)
    requires PiecesMatch(ps, s)
    ensures NoSentinel(ps)
    decreases ps
  {
    var k: nat :| PlaceThenMatch(ps, s, k);
    if ps.Then? {
      SentinelNeverMatches(ps.rest, s[k + |ps.lits|..]);
    }
  }

  /** The same for every pattern as it is written. */
  lemma {:induction false} PatternExactIffNoTrap(p: seq<Sym>)
    ensures var ps := Split(Parse(p));
            (forall s :: Greedy(ps, s) <==> Matches(Parse(p), s)) <==> !(NoSentinel(ps) && HasTrap(ps))
  {
    var ps := Split(Parse(p));
    forall s ensures Matches(Parse(p), s) <==> PiecesMatch(ps, s) {
      MatchesIffPiecesMatch(Parse(p), s);
    }
    if NoSentinel(ps) {
      ExactIffNoTrap(ps);
    } else {
      forall s ensures !PiecesMatch(ps, s) && !Greedy(ps, s) {
        if Greedy(ps, s) {
          Sound(ps, s);
        }
        if PiecesMatch(ps, s) {
          SentinelNeverMatches(ps, s);
        }
      }
    }
  }

  // ---------------------------------------------------------------------------
  // Well-formed texts suffice: the letters of the pattern, and one other.

  predicate Spelled(ps: Pieces, letters: set<Sym>) {
    (forall i :: 0 <= i < |ps.lits| ==> ps.lits[i] in letters) && (ps.Then? ==> Spelled(ps.rest, letters))
  }

  predicate Over(s: seq<Sym>, letters: set<Sym>, c: Sym) {
    forall i :: 0 <= i < |s| ==> s[i] in letters || s[i] == c
  }

  // Equal but for characters that are no letters.
  predicate Alike(s: seq<Sym>, m: seq<Sym>, letters: set<Sym>) {
    && |m| == |s|
    && forall i :: 0 <= i < |s| ==> s[i] == m[i] || (s[i] !in letters && m[i] !in letters)
  }

  lemma {:induction false} AlikeAt(w: seq<Sym>, s: seq<Sym>, m: seq<Sym>, letters: set<Sym>, k: nat)
    requires (forall i :: 0 <= i < |w| ==> w[i] in letters) && Alike(s, m, letters) && At(w, s, k)
    ensures At(w, m, k)
  {
    forall i | 0 <= i < |w| ensures m[k..k + |w|][i] == w[i] {
      assert s[k..k + |w|][i] == s[k + i];
    }
  }

  lemma {:induction false} AlikePlaces(ps: Pieces, s: seq<Sym>, m: seq<Sym>, letters: set<Sym>)
    requires Spelled(ps, letters) && Alike(s, m, letters)
    ensures First(ps, m, 0) == First(ps, s, 0)
    ensures forall k: nat :: Place(ps, s, k) <==> Place(ps, m, k)
  {
    forall k: nat ensures Place(ps, s, k) <==> Place(ps, m, k) {
      if Place(ps, s, k) {
        AlikeAt(ps.lits, s, m, letters, k);
      }
      if Place(ps, m, k) {
        AlikeAt(ps.lits, m, s, letters, k);
      }
    }
  }

  lemma {:induction false} AlikeGreedy(ps: Pieces, s: seq<Sym>, m: seq<Sym>, letters: set<Sym>)
    requires Spelled(ps, letters) && Alike(s, m, letters) && Greedy(ps, m)
    ensures Greedy(ps, s)
    decreases ps
  {
    var g := First(ps, m, 0);
    AlikePlaces(ps, s, m, letters);
    if ps.Then? {
      AlikeGreedy(ps.rest, s[g + |ps.lits|..], m[g + |ps.lits|..], letters);
    }
  }

  lemma {:induction false} AlikeMatch(ps: Pieces, s: seq<Sym>, m: seq<Sym>, letters: set<Sym>)
    requires Spelled(ps, letters) && Alike(s, m, letters) && PiecesMatch(ps, s)
    ensures PiecesMatch(ps, m)
    decreases ps
  {
    var k: nat :| PlaceThenMatch(ps, s, k);
    AlikePlaces(ps, s, m, letters);
    if ps.Then? {
      AlikeMatch(ps.rest, s[k + |ps.lits|..], m[k + |ps.lits|..], letters);
    }
    assert PlaceThenMatch(ps, m, k);
  }

  // All other characters replaced by c.
  function Masked(s: seq<Sym>, letters: set<Sym>, c: Sym): (m: seq<Sym>)
    requires c !in letters
    ensures Over(m, letters, c) && Alike(s, m, letters)
  {
    seq(|s|, i requires 0 <= i < |s| => if s[i] in letters then s[i] else c)
  }

  /**
   * A pattern with a trap is answered wrongly on a text of its own letters and
   * any one other character, so on well-formed text.
   */
  lemma {:induction false} ExactOnLettersIffNoTrap(ps: Pieces, letters: set<Sym>, c: Sym)
    requires NoSentinel(ps) && Spelled(ps, letters) && c !in letters
    ensures (forall s | Over(s, letters, c) :: PiecesMatch(ps, s) <==> Greedy(ps, s)) <==> !HasTrap(ps)
  {
    if HasTrap(ps) {
      var s := TrapText(ps);
      var m := Masked(s, letters, c);
      AlikeMatch(ps, s, m, letters);
      if Greedy(ps, m) {
        AlikeGreedy(ps, s, m, letters);
      }
    } else {
      ExactIffNoTrap(ps);
    }
  }

  // ---------------------------------------------------------------------------
  // Traps that are seen at once.

  function Fill(c: Sym, n: int): (s: seq<Sym>)
    ensures |s| == (if n < 0 then 0 else n) && forall i :: 0 <= i < |s| ==> s[i] == c
  {
    if n <= 0 then [] else [c] + Fill(c, n - 1)
  }

  predicate StarFree(ps: Pieces) {
    ps.gap >= 0 && (ps.Then? ==> StarFree(ps.rest))
  }

  // Without a * a matcher that is behind never catches up.
  lemma {:induction false} StarFreeDerails(ps: Pieces, t: seq<Sym>)
    requires StarFree(ps) && t != []
    ensures Derails(ps, t)
    decreases ps
  {
    var f := Fill(SENTINEL, ps.gap);
    var s := t + f + ps.lits;
    var k := First(ps, s, 0);
    if k >= 0 && ps.Then? {
      StarFreeDerails(ps.rest, s[k + |ps.lits|..]);
    }
    assert DerailsOn(ps, t, f);
  }

  lemma {:induction false} LooseTrap(ps: Pieces)
    requires StarFree(ps) && SENTINEL !in ps.lits && ps.Then? && !Rigid(ps.gap, ps.lits)
    ensures HasTrap(ps)
  {
    var w := ps.lits;
    var d: nat :| 1 <= d <= |w| && d <= ps.gap && Period(w, d);
    var x := w[..d];
    assert (x + w)[0..|w|] == w;
    StarFreeDerails(ps.rest, (x + w)[|w|..]);
    assert TrapBy(ps, x);
  }

  lemma {:induction false} StarFreeTrap(ps: Pieces)
    requires StarFree(ps) && NoSentinel(ps) && !Committed(ps)
    ensures HasTrap(ps)
    decreases ps
  {
    if Rigid(ps.gap, ps.lits) {
      StarFreeTrap(ps.rest);
    } else {
      LooseTrap(ps);
    }
  }

  lemma {:induction false} CommittedNoTrap(ps: Pieces)
    requires WellFormed(ps) && NoSentinel(ps) && Committed(ps)
    ensures !HasTrap(ps)
  {
    if HasTrap(ps) {
      var s := TrapText(ps);
      Complete(ps, s);
    }
  }

  /** For a pattern without a *, committed is the exact condition. */
  lemma {:induction false} StarFreeExactIffCommitted(ps: Pieces)
    requires WellFormed(ps) && NoSentinel(ps) && StarFree(ps)
    ensures (forall s :: PiecesMatch(ps, s) <==> Greedy(ps, s)) <==> Committed(ps)
  {
    ExactIffNoTrap(ps);
    if Committed(ps) {
      CommittedNoTrap(ps);
    } else {
      StarFreeTrap(ps);
    }
  }

  // A run with a * somewhere in front of a run of ? only.
  predicate StarBeforeBounded(ps: Pieces, star: bool) {
    ps.Then? && var seen := star || ps.gap < 0;
    (seen && ps.rest.gap >= 0) || StarBeforeBounded(ps.rest, seen)
  }

  // The filler keeps the next segment away for longer than its run can bridge.
  lemma {:induction false} StarTrap(ps: Pieces)
    requires WellFormed(ps) && SENTINEL !in ps.lits && ps.Then? && ps.gap < 0 <= ps.rest.gap
    ensures exists x :: TrapBy(ps, x)
  {
    var w, next := ps.lits, ps.rest;
    var x := w + Fill(SENTINEL, next.gap + 1);
    var t := (x + w)[|w|..];
    var s := t + [] + next.lits;
    assert (x + w)[0..|w|] == w;
    forall k: nat ensures !Place(next, s, k) {
      if k <= next.gap {
        assert s[k] == t[k] == (x + w)[|w| + k] == SENTINEL;
        assert 0 < |next.lits| && k + |next.lits| <= |s| ==> s[k..k + |next.lits|][0] == SENTINEL;
      }
    }
    assert DerailsOn(next, t, []);
    assert TrapBy(ps, x);
  }

  /** A segment behind a * is trapped exactly if the next run has a limit; so no search for x is needed there. */
  lemma {:induction false} StarTrapIff(ps: Pieces)
    requires WellFormed(ps) && SENTINEL !in ps.lits && ps.Then? && ps.gap < 0
    ensures (exists x :: TrapBy(ps, x)) <==> ps.rest.gap >= 0
  {
    if ps.rest.gap >= 0 {
      StarTrap(ps);
    } else {
      forall x ensures !TrapBy(ps, x) {
        NoDerailing(ps.rest, (x + ps.lits)[|ps.lits|..]);
      }
    }
  }

  /** A * followed, anywhere later, by a run of ? only is always a trap. */
  lemma {:induction false} StarBeforeBoundedTraps(ps: Pieces, star: bool)
    requires WellFormed(ps) && NoSentinel(ps) && StarBeforeBounded(ps, star) && (star ==> ps.gap < 0)
    ensures HasTrap(ps)
    decreases ps
  {
    if ps.gap < 0 <= ps.rest.gap {
      StarTrap(ps);
    } else {
      StarBeforeBoundedTraps(ps.rest, star || ps.gap < 0);
    }
  }

  lemma {:induction false} NoDerailing(ps: Pieces, t: seq<Sym>)
    requires ps.gap < 0
    ensures !Derails(ps, t)
  {
  }

  lemma {:induction false} DerailedHasNoPlace(ps: Pieces, t: seq<Sym>, f: seq<Sym>, k: nat)
    requires ps.Then? && ps.rest.gap < 0 && DerailsOn(ps, t, f) && k <= ps.gap
    ensures !At(ps.lits, t, k)
  {
    var w := ps.lits;
    var s := t + f + w;
    forall u ensures !Derails(ps.rest, u) {
      NoDerailing(ps.rest, u);
    }
    assert !Place(ps, s, k);
    if k + |w| <= |t| {
      assert s[k..k + |w|] == t[k..k + |w|];
    }
  }

  lemma {:induction false} NoPlaceDerails(ps: Pieces, t: seq<Sym>)
    requires ps.Then? && ps.gap >= 1 && t != [] && ps.lits != []
    requires forall k: nat | k <= ps.gap :: !At(ps.lits, t, k)
    ensures Derails(ps, t)
  {
    var w, f := ps.lits, Fill(SENTINEL, ps.gap);
    forall k: nat ensures !Place(ps, t + f + w, k) {
      if k <= ps.gap && k + |w| <= |t + f + w| {
        NoPlaceInFiller(w, t, ps.gap, k);
      }
    }
    assert DerailsOn(ps, t, f);
  }

  // In front of a * run, derailing means to find no place at once, in t itself.
  lemma {:induction false} DerailsBeforeStar(ps: Pieces, t: seq<Sym>)
    requires ps.Then? && ps.gap >= 1 && ps.rest.gap < 0 && t != [] && ps.lits != []
    ensures Derails(ps, t) <==> forall k: nat | k <= ps.gap :: !At(ps.lits, t, k)
  {
    if Derails(ps, t) {
      var f: seq<Sym> :| |f| <= ps.gap && DerailsOn(ps, t, f);
      forall k: nat | k <= ps.gap ensures !At(ps.lits, t, k) {
        DerailedHasNoPlace(ps, t, f, k);
      }
    } else if forall k: nat | k <= ps.gap :: !At(ps.lits, t, k) {
      NoPlaceDerails(ps, t);
    }
  }

  lemma {:induction false} NoPlaceInFiller(w: seq<Sym>, t: seq<Sym>, n: nat, k: nat)
    requires w != [] && n >= 1 && k < |t| + n && k + |w| <= |t| + n + |w| && !At(w, t, k)
    ensures !At(w, t + Fill(SENTINEL, n) + w, k)
  {
    var s := t + Fill(SENTINEL, n) + w;
    if k + |w| <= |t| {
      assert s[k..k + |w|] == t[k..k + |w|];
    } else {
      var i := if k < |t| then |t| else k;
      assert s[k..k + |w|][i - k] == s[i] == SENTINEL;
    }
  }

  // What is left behind an early copy of w when the next one starts d later, with
  // as little in between as possible.
  function LateText(w: seq<Sym>, d: nat): seq<Sym> {
    if d <= |w| then w[|w| - d..] else Fill(SENTINEL, d - |w|) + w
  }

  // A segment that can be placed d later, leaving no place for the next one.
  predicate Snag(ps: Pieces, d: nat) {
    && ps.Then? && 1 <= d && Fits(ps.gap, d) && (d <= |ps.lits| ==> Period(ps.lits, d))
    && forall k: nat | k <= ps.rest.gap :: !At(ps.rest.lits, LateText(ps.lits, d), k)
  }

  lemma {:induction false} SnagTraps(ps: Pieces, d: nat)
    requires WellFormed(ps) && NoSentinel(ps) && Snag(ps, d)
    requires ps.rest.Then? && 1 <= ps.rest.gap && ps.rest.rest.gap < 0
    ensures exists x :: TrapBy(ps, x)
  {
    var w := ps.lits;
    var x := if d <= |w| then w[..d] else w + Fill(SENTINEL, d - |w|);
    assert (x + w)[0..|w|] == w && (x + w)[|w|..] == LateText(w, d);
    DerailsBeforeStar(ps.rest, LateText(w, d));
    assert TrapBy(ps, x);
  }

  lemma {:induction false} TrapSnags(ps: Pieces, x: seq<Sym>)
    requires WellFormed(ps) && NoSentinel(ps) && TrapBy(ps, x)
    requires ps.rest.Then? && 1 <= ps.rest.gap && ps.rest.rest.gap < 0
    ensures Snag(ps, |x|)
  {
    var w, v, d := ps.lits, ps.rest.lits, |x|;
    var t := (x + w)[|w|..];
    assert (x + w)[0..|w|] == w;
    if d <= |w| {
      assert t == w[|w| - d..] && Period(w, d);
    } else {
      assert t == x[|w|..] + w;
    }
    DerailsBeforeStar(ps.rest, t);
    forall k: nat | k <= ps.rest.gap ensures !At(v, LateText(w, d), k) {
      if d > |w| {
        NoNewPlace(v, LateText(w, d), t, d - |w|, k);
      }
    }
  }

  // A place in the text with the filler would be one in the other, too.
  lemma {:induction false} NoNewPlace(v: seq<Sym>, late: seq<Sym>, t: seq<Sym>, n: nat, k: nat)
    requires v != [] && |late| == |t| && n <= |t| && late[n..] == t[n..] && !At(v, t, k)
    requires forall i | 0 <= i < n :: late[i] == SENTINEL
    ensures !At(v, late, k)
  {
    if k + |v| <= |t| {
      if k < n {
        assert late[k..k + |v|][0] == SENTINEL;
      } else {
        forall i | k <= i < k + |v| ensures late[i] == t[i] {
          assert late[i] == late[n..][i - n] && t[i] == t[n..][i - n];
        }
        assert late[k..k + |v|] == t[k..k + |v|];
      }
    }
  }

  /** If only * runs follow the next run, such a shift is all there is to look for. */
  lemma {:induction false} TrapBeforeStars(ps: Pieces)
    requires WellFormed(ps) && NoSentinel(ps) && ps.Then? && ps.rest.gap >= 1 && ps.rest.Then?
    requires ps.rest.rest.gap < 0 && LaterRunsUnbounded(ps.rest.rest)
    ensures HasTrap(ps) <==> exists d :: Snag(ps, d)
  {
    NoTrapBeforeStars(ps.rest);
    if x :| TrapBy(ps, x) {
      TrapSnags(ps, x);
    }
    if d :| Snag(ps, d) {
      SnagTraps(ps, d);
    }
  }

  lemma {:induction false} NoTrapBeforeStars(ps: Pieces)
    requires LaterRunsUnbounded(ps)
    ensures !HasTrap(ps)
    decreases ps
  {
    if ps.Then? {
      NoTrapBeforeStars(ps.rest);
    }
  }

  lemma {:induction false} EarlyCopyPeriod(w: seq<Sym>, x: seq<Sym>)
    requires At(w, x + w, 0)
    ensures |x| <= |w| ==> Period(w, |x|)
    ensures Period(w, |w|)
  {
    assert (x + w)[0..|w|] == w;
    if |x| <= |w| {
      forall i | 0 <= i < |w| - |x| ensures w[|x|..][i] == w[..|w| - |x|][i] {
        assert w[|x| + i] == (x + w)[|x| + i];
      }
    }
  }

  // A piece that can be placed in one way only has no part in a trap.
  lemma {:induction false} RigidNoTrap(ps: Pieces)
    requires ps.Then? && ps.lits != [] && Rigid(ps.gap, ps.lits)
    ensures HasTrap(ps) <==> HasTrap(ps.rest)
  {
    forall x ensures !TrapBy(ps, x) {
      if At(ps.lits, x + ps.lits, 0) {
        EarlyCopyPeriod(ps.lits, x);
      }
    }
  }

  // ---------------------------------------------------------------------------
  // Small patterns of each kind.

  /** `*a?b` on `axab`: documented to match, rejected by the code. */
  lemma {:induction false} StarLetterQuestionLetter()
    ensures var p := [42, 97, 63, 98]; var s := [97, 120, 97, 98];
            NoDangling(p, 0) && Matches(Parse(p), s) && !Greedy(Split(Parse(p)), s)
  {
    var p := [42, 97, 63, 98];
    var s := [97, 120, 97, 98];
    assert NoDangling(p, 2);
    var b := Lit(98, End);
    var aqb := Lit(97, Opt(b));
    assert ParseFrom(p, 2) == Opt(b) by { assert ParseFrom(p, 4) == End; }
    assert Parse(p) == Star(aqb) by { assert ParseFrom(p, 1) == Lit(97, ParseFrom(p, 2)); }
    assert Matches(Opt(b), s[3..]);
    assert s[2..][1..] == s[3..] && s[1..][1..] == s[2..];
    assert Matches(Star(aqb), s[2..]);
    assert Matches(Star(aqb), s[1..]);
    var last := Last(1, [98]);
    var ps := Then(-1, [97], last);
    assert Segment(1, b) == last && Segment(-1, aqb) == ps by {
      assert Literals(aqb) == [97] && AfterLiterals(aqb) == Opt(b);
      assert Literals(b) == [98];
    }
    assert s[0..1] == [97] && Place(ps, s, 0);
    assert !Greedy(last, s[1..]);
  }

  // `?..?a?a*`, with n question marks in front.
  function LetterTwice(n: nat): Pieces {
    Then(n, [97], Then(1, [97], Last(-1, [])))
  }

  /** Neither pattern is committed; with one question mark there is no trap, with three there is. */
  lemma {:induction false} LetterTwiceTraps()
    ensures !Committed(LetterTwice(1)) && !HasTrap(LetterTwice(1))
    ensures !Committed(LetterTwice(3)) && HasTrap(LetterTwice(3))
  {
    assert Period([97], 1);
    TrapBeforeStars(LetterTwice(1));
    forall d ensures !Snag(LetterTwice(1), d) {
      if d == 1 {
        assert LateText([97], 1)[0..1] == [97] && At([97], LateText([97], 1), 0);
      }
    }
    TrapBeforeStars(LetterTwice(3));
    var late := LateText([97], 3);
    forall k: nat | k <= 1 ensures !At([97], late, k) {
      assert late[k..k + 1][0] == SENTINEL;
    }
    assert Snag(LetterTwice(3), 3);
  }

  /** `???a?a*` on `axxaya`: documented to match, rejected. */
  lemma {:induction false} LetterTwiceRejected()
    ensures var s := [97, 120, 120, 97, 121, 97];
            PiecesMatch(LetterTwice(3), s) && !Greedy(LetterTwice(3), s)
  {
    var s := [97, 120, 120, 97, 121, 97];
    var ps := LetterTwice(3);
    assert s[3..4] == [97] && s[4..] == [121, 97];
    assert s[4..][1..2] == [97] && s[4..][2..] == [];
    assert PlaceThenMatch(Last(-1, []), [], 0);
    assert PlaceThenMatch(ps.rest, s[4..], 1);
    assert PlaceThenMatch(ps, s, 3);
    assert s[0..1] == [97] && Place(ps, s, 0);
    var r := s[1..];
    forall k: nat ensures !Place(ps.rest, r, k) {
      if k <= 1 {
        assert r[k..k + 1][0] == 120;
      }
    }
  }
}
