/**
 * When the greedy matcher of base/strings/pattern.cc decides the documented
 * relation: always when it accepts, and for which patterns when it rejects.
 */
module GreedyExactness {
  import opened Glob

  /** Acceptance is never wrong, for any pattern and any string. */
  lemma {:induction false} Sound(ps: Pieces, s: seq<Sym>)
    requires Greedy(ps, s)
    ensures PiecesMatch(ps, s)
    decreases ps
  {
    var k := First(ps, s, 0);
    if ps.Then? {
      Sound(ps.rest, s[k + |ps.lits|..]);
    }
    assert PlaceThenMatch(ps, s, k);
  }

  // The word w looks the same when shifted by d characters.
  predicate Period(w: seq<Sym>, d: nat)
    requires d <= |w|
  {
    w[d..] == w[..|w| - d]
  }

  // The literals fit into the reach of the gap in one place at most.
  predicate Rigid(gap: int, w: seq<Sym>) {
    gap >= 0 && forall d: nat :: 1 <= d <= |w| && d <= gap ==> !Period(w, d)
  }

  /**
   * The condition for the greedy matcher to be exact, read off the pattern: in
   * front of every later run made of ? only there is a segment that the run
   * before it can place in one way at most.
   */
  predicate Committed(ps: Pieces) {
    ps.Then? ==> (ps.rest.gap >= 0 ==> Rigid(ps.gap, ps.lits)) && Committed(ps.rest)
  }

  lemma {:induction false} TwoPlacesPeriod(w: seq<Sym>, s: seq<Sym>, g: nat, k: nat)
    requires At(w, s, g) && At(w, s, k) && g < k < g + |w|
    ensures Period(w, k - g)
  {
  }

  lemma {:induction false} RigidPlace(ps: Pieces, s: seq<Sym>, g: nat, k: nat)
    requires Rigid(ps.gap, ps.lits) && ps.lits != []
    requires Place(ps, s, g) && Place(ps, s, k) && g <= k
    ensures g == k
  {
    if g < k {
      if k < g + |ps.lits| {
        TwoPlacesPeriod(ps.lits, s, g, k);
      } else {
        assert Period(ps.lits, |ps.lits|);
      }
    }
  }

  // An unbounded run forgives starting further to the left.
  lemma {:induction false} StartEarlier(ps: Pieces, s: seq<Sym>, i: nat, j: nat)
    requires ps.gap < 0 && i <= j <= |s|
    requires PiecesMatch(ps, s[j..])
    ensures PiecesMatch(ps, s[i..])
  {
    var k: nat :| PlaceThenMatch(ps, s[j..], k);
    var n := |ps.lits|;
    assert s[i..][k + j - i..k + j - i + n] == s[j..][k..k + n];
    assert s[i..][k + j - i + n..] == s[j..][k + n..];
    assert PlaceThenMatch(ps, s[i..], k + j - i);
  }

  /** Rejection is never wrong for a committed pattern, whatever the string. */
  lemma {:induction false} Complete(ps: Pieces, s: seq<Sym>)
    requires WellFormed(ps) && Committed(ps)
    requires PiecesMatch(ps, s)
    ensures Greedy(ps, s)
    decreases ps
  {
    var k: nat :| PlaceThenMatch(ps, s, k);
    var g := First(ps, s, 0);
    assert 0 <= g <= k;
    if ps.Then? {
      if ps.rest.gap < 0 {
        StartEarlier(ps.rest, s, g + |ps.lits|, k + |ps.lits|);
      } else {
        RigidPlace(ps, s, g, k);
      }
      Complete(ps.rest, s[g + |ps.lits|..]);
    }
  }

  // Every run but the first contains a *.
  predicate LaterRunsUnbounded(ps: Pieces) {
    ps.Then? ==> ps.rest.gap < 0 && LaterRunsUnbounded(ps.rest)
  }

  // Every ?-only wildcard run is the first wildcard run; a pattern that starts
  // with a literal has a first piece with gap 0.
  predicate BoundedRunOnlyFirst(ps: Pieces) {
    LaterRunsUnbounded(ps) || (ps.Then? && ps.gap == 0 && LaterRunsUnbounded(ps.rest))
  }

  lemma {:induction false} UnboundedCommitted(ps: Pieces)
    requires LaterRunsUnbounded(ps)
    ensures Committed(ps)
    decreases ps
  {
    if ps.Then? {
      UnboundedCommitted(ps.rest);
    }
  }

  lemma {:induction false} BoundedRunOnlyFirstCommitted(ps: Pieces)
    requires BoundedRunOnlyFirst(ps)
    ensures Committed(ps)
  {
    UnboundedCommitted(if LaterRunsUnbounded(ps) then ps else ps.rest);
  }

  // ---------------------------------------------------------------------------
  // The same for patterns as they are written.

  lemma {:induction false} Decides(p: seq<Sym>, s: seq<Sym>)
    ensures Greedy(Split(Parse(p)), s) ==> Matches(Parse(p), s)
    ensures Committed(Split(Parse(p))) ==> (Greedy(Split(Parse(p)), s) <==> Matches(Parse(p), s))
  {
    var ts := Parse(p);
    MatchesIffPiecesMatch(ts, s);
    SegmentWellFormed(Gap(ts), AfterRun(ts));
    if Greedy(Split(ts), s) {
      Sound(Split(ts), s);
    } else if Matches(ts, s) && Committed(Split(ts)) {
      Complete(Split(ts), s);
    }
  }
}
