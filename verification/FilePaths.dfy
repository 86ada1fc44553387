/**
 * The path algebra of base/files/file_path.cc, for any set of separators and
 * with or without drive letters.
 */
module FilePaths {
  const NUL: char := 0 as char

  // The compile-time choices. The first separator is the canonical one.
  datatype Platform = Platform(driveLetters: bool, separators: seq<char>) {
    ghost predicate Valid() {
      && separators != []
      && forall c | c in separators :: c != NUL && c != '.' && c != ':' && !IsLetter(c)
    }

    predicate IsSeparator(c: char) {
      c in separators
    }

    // The position of the colon of a drive letter, or -1 for npos.
    function FindDriveLetter(p: string): (letter: int)
      ensures letter == 1 || letter == -1
      ensures letter < |p|
    {
      if driveLetters && |p| >= 2 && p[1] == ':' && IsLetter(p[0]) then 1 else -1
    }

    predicate IsPathAbsolute(p: string) {
      var letter := FindDriveLetter(p);
      if !driveLetters then |p| > 0 && IsSeparator(p[0])
      else if letter != -1 then |p| > letter + 1 && IsSeparator(p[letter + 1])
      else |p| > 1 && IsSeparator(p[0]) && IsSeparator(p[1])
    }

    // find_last_of(kSeparators), among the first n characters and among all.
    function LastSeparatorBelow(p: string, n: nat): (k: int)
      requires n <= |p|
      ensures -1 <= k < n
      ensures k >= 0 ==> IsSeparator(p[k])
      ensures forall i | k < i < n :: !IsSeparator(p[i])
    {
      if n == 0 then -1
      else if IsSeparator(p[n - 1]) then n - 1
      else LastSeparatorBelow(p, n - 1)
    }

    function LastSeparator(p: string): (k: int)
      ensures -1 <= k < |p|
      ensures k >= 0 ==> IsSeparator(p[k])
      ensures forall i | k < i < |p| :: !IsSeparator(p[i])
    {
      LastSeparatorBelow(p, |p|)
    }
  }

  predicate IsLetter(c: char) {
    'A' <= c <= 'Z' || 'a' <= c <= 'z'
  }

  // find(kStringTerminator), from position i on; the length if there is none.
  function FindNul(s: string, i: nat): (k: nat)
    requires i <= |s|
    ensures i <= k <= |s| && (k < |s| ==> s[k] == NUL)
    ensures forall j | i <= j < k :: s[j] != NUL
    decreases |s| - i
  {
    if i == |s| || s[i] == NUL then i else FindNul(s, i + 1)
  }

  function CutAtNul(s: string): (t: string)
    ensures NUL !in t && t <= s && (|t| < |s| ==> s[|t|] == NUL)
    ensures NUL !in s ==> t == s
  {
    s[..FindNul(s, 0)]
  }

  // ---------------------------------------------------------------------------
  // Stripping. A path is read as a drive, if any, then a root of one or two
  // separators, if any, then the rest.

  // The first position that stripping never goes below.
  function Start(o: Platform, p: string): nat {
    o.FindDriveLetter(p) + 2
  }

  // The separators among the first n characters that end there, down to `start`.
  function Trimmed(o: Platform, p: string, start: nat, n: nat): (k: nat)
    requires n <= |p|
    ensures k <= n && (n <= start ==> k == n) && (n > start ==> k >= start)
    ensures forall i | k <= i < n :: o.IsSeparator(p[i])
    ensures k > start ==> !o.IsSeparator(p[k - 1])
  {
    if n > start && o.IsSeparator(p[n - 1]) then Trimmed(o, p, start, n - 1) else n
  }

  // Nothing but a root of two separators after the drive.
  predicate IsDoubleRoot(o: Platform, p: string) {
    var start := Start(o, p);
    |p| == start + 1 && o.IsSeparator(p[start - 1]) && o.IsSeparator(p[start])
  }

  predicate IsSingleRoot(o: Platform, p: string) {
    var start := Start(o, p);
    |p| == start && o.IsSeparator(p[start - 1])
  }

  predicate IsBareDrive(o: Platform, p: string) {
    o.FindDriveLetter(p) == 1 && |p| == 2
  }

  function Strip(o: Platform, p: string): string {
    if IsDoubleRoot(o, p) then p else p[..Trimmed(o, p, Start(o, p), |p|)]
  }

  // ---------------------------------------------------------------------------
  // The operations, as functions of the string.

  // How much of a stripped path is left when its last component is cut off.
  function ParentLength(o: Platform, p: string): nat
    ensures ParentLength(o, p) <= |p|
  {
    var letter, last := o.FindDriveLetter(p), o.LastSeparator(p);
    if last == -1 then letter + 1
    else if last == letter + 1 then letter + 2
    else if last == letter + 2 && o.IsSeparator(p[letter + 1]) then letter + 3
    else last
  }

  function DirName(o: Platform, p: string): string {
    var q := Strip(o, p);
    var d := Strip(o, q[..ParentLength(o, q)]);
    if d == "" then "." else d
  }

  // Where the last component of a stripped path starts; for a root, where the
  // drive ends.
  function BaseStart(o: Platform, p: string): (k: nat)
    ensures k <= |p|
  {
    var last := o.LastSeparator(p);
    if last != -1 && last < |p| - 1 then last + 1 else o.FindDriveLetter(p) + 1
  }

  function BaseName(o: Platform, p: string): string {
    Strip(o, p)[BaseStart(o, Strip(o, p))..]
  }

  // What goes between a stripped path and a component.
  function Joint(o: Platform, q: string, component: string): string
    requires o.separators != []
  {
    if component == "" || q == "" || o.IsSeparator(q[|q| - 1]) || o.FindDriveLetter(q) + 1 == |q| then ""
    else [o.separators[0]]
  }

  function Append(o: Platform, p: string, component: string): string
    requires o.separators != []
  {
    var appended := CutAtNul(component);
    if p == "." then appended
    else Strip(o, p) + Joint(o, Strip(o, p), appended) + appended
  }

  // ---------------------------------------------------------------------------
  // Stripping: what it keeps.

  /** Only separators go, and none of the drive. */
  lemma {:induction false} StripKeeps(o: Platform, p: string)
    requires o.Valid()
    ensures Strip(o, p) <= p && (p != "" ==> Strip(o, p) != "")
    ensures forall i | |Strip(o, p)| <= i < |p| :: o.IsSeparator(p[i])
    ensures o.FindDriveLetter(Strip(o, p)) == o.FindDriveLetter(p)
  {
  }

  /** A stripped path ends in a separator only if it is a root. */
  lemma {:induction false} StripEnds(o: Platform, p: string)
    requires o.Valid() && p != "" && o.IsSeparator(Strip(o, p)[|Strip(o, p)| - 1])
    ensures IsSingleRoot(o, Strip(o, p)) || IsDoubleRoot(o, Strip(o, p))
  {
  }

  /** Stripping again changes nothing. */
  lemma {:induction false} StripIdempotent(o: Platform, p: string)
    requires o.Valid()
    ensures Strip(o, Strip(o, p)) == Strip(o, p)
  {
  }

  // ---------------------------------------------------------------------------
  // Append, undone.

  lemma {:induction false} LastSeparatorIs(o: Platform, p: string, k: int)
    requires -1 <= k < |p| && (k >= 0 ==> o.IsSeparator(p[k]))
    requires forall i | k < i < |p| :: !o.IsSeparator(p[i])
    ensures o.LastSeparator(p) == k
  {
  }

  // A path and a component, joined as Append joins them.
  ghost predicate Joined(o: Platform, a: string, q: string, j: string, c: string) {
    && o.separators != [] && a == q + j + c && q != "" && c != "" && Strip(o, q) == q && j == Joint(o, q, c)
    && (forall i | 0 <= i < |c| :: !o.IsSeparator(c[i]))
  }

  lemma {:induction false} JoinedParts(o: Platform, a: string, q: string, j: string, c: string)
    requires o.Valid() && Joined(o, a, q, j, c)
    ensures o.FindDriveLetter(a) == o.FindDriveLetter(q) && Strip(o, a) == a
    ensures o.LastSeparator(a) == if IsBareDrive(o, q) then -1 else |q + j| - 1
  {
    assert a[|q + j|..] == c && a[|a| - 1] == c[|c| - 1];
    assert a[..|q|] == q;
    if IsBareDrive(o, q) {
      LastSeparatorIs(o, a, -1);
    } else {
      assert o.IsSeparator((q + j)[|q + j| - 1]);
      assert a[|q + j| - 1] == (q + j)[|q + j| - 1];
      LastSeparatorIs(o, a, |q + j| - 1);
    }
  }

  lemma {:induction false} JoinedDirName(o: Platform, a: string, q: string, j: string, c: string)
    requires o.Valid() && Joined(o, a, q, j, c)
    ensures DirName(o, a) == q
  {
    JoinedParts(o, a, q, j, c);
    var n := ParentLength(o, a);
    if o.IsSeparator(q[|q| - 1]) {
      StripEnds(o, q);
      assert a[o.FindDriveLetter(a) + 1] == q[o.FindDriveLetter(q) + 1];
    } else if !IsBareDrive(o, q) {
      assert a[|q|] == j[0];
      assert forall i | 0 <= i < |q| :: a[i] == q[i];
    }
    assert a[..n] == q;
  }

  lemma {:induction false} LastSeparatorOfSum(o: Platform, h: string, c: string)
    requires forall i | 0 <= i < |c| :: !o.IsSeparator(c[i])
    requires h == "" || o.IsSeparator(h[|h| - 1])
    ensures o.LastSeparator(h + c) == |h| - 1
  {
    var s := h + c;
    forall i | |h| <= i < |s| ensures !o.IsSeparator(s[i]) {
      assert s[i] == c[i - |h|];
    }
    LastSeparatorIs(o, s, |h| - 1);
  }

  // The drive has no separators.
  lemma {:induction false} LastSeparatorAfterDrive(o: Platform, p: string, rest: string)
    requires o.Valid() && rest == p[o.FindDriveLetter(p) + 1..]
    ensures o.LastSeparator(p) ==
            if o.LastSeparator(rest) == -1 then -1 else o.LastSeparator(rest) + o.FindDriveLetter(p) + 1
  {
  }

  lemma {:induction false} JoinedBaseName(o: Platform, a: string, q: string, j: string, c: string)
    requires o.Valid() && Joined(o, a, q, j, c)
    ensures BaseName(o, a) == c
  {
    JoinedParts(o, a, q, j, c);
    assert BaseStart(o, a) == |q + j|;
    assert a[|q + j|..] == c;
  }

  /** A base name has no separators, unless the path is a root: then it has nothing else. */
  lemma {:induction false} BaseNameSeparators(o: Platform, p: string)
    requires o.Valid()
    ensures var base := BaseName(o, p);
            if IsSingleRoot(o, Strip(o, p)) || IsDoubleRoot(o, Strip(o, p))
            then base != "" && forall i | 0 <= i < |base| :: o.IsSeparator(base[i])
            else forall i | 0 <= i < |base| :: !o.IsSeparator(base[i])
  {
    var q := Strip(o, p);
    StripIdempotent(o, p);
    if q != "" && o.IsSeparator(q[|q| - 1]) {
      StripEnds(o, q);
    }
  }

  // A component: no separator, no NUL, and nothing that reads as a drive.
  ghost predicate IsComponent(o: Platform, c: string) {
    && c != "" && NUL !in c && o.FindDriveLetter(c) == -1
    && (forall i | 0 <= i < |c| :: !o.IsSeparator(c[i]))
  }

  /** BaseName gives back the component, and DirName the path without its trailing separators. */
  lemma {:induction false} AppendUndone(o: Platform, d: string, c: string)
    requires o.Valid() && d != "" && IsComponent(o, c)
    ensures BaseName(o, Append(o, d, c)) == c
    ensures DirName(o, Append(o, d, c)) == Strip(o, d)
  {
    if d == "." {
      LastSeparatorIs(o, c, -1);
      assert c[..|c|] == c && c[0..] == c && c[..0] == "";
    } else {
      var q := Strip(o, d);
      StripKeeps(o, d);
      StripIdempotent(o, d);
      var j := Joint(o, q, c);
      JoinedDirName(o, q + j + c, q, j, c);
      JoinedBaseName(o, q + j + c, q, j, c);
    }
  }

  /**
   * A component behind leading separators only: one stays, unless there were two
   * or three, of which two do.
   */
  lemma {:induction false} LeadingSeparators(o: Platform, s: string, c: string)
    requires o.Valid() && s != "" && IsComponent(o, c) && forall i | 0 <= i < |s| :: o.IsSeparator(s[i])
    ensures DirName(o, s + c) == if |s| == 2 || |s| == 3 then s[..2] else s[..1]
  {
    var a := s + c;
    assert a[|a| - 1] == c[|c| - 1];
    assert a[0] == s[0];
    assert Strip(o, a) == a;
    LastSeparatorOfSum(o, s, c);
    var n := ParentLength(o, a);
    if |s| >= 2 {
      assert a[1] == s[1];
    }
    assert a[..n] == s[..n];
    if |s| > 3 {
      var d := s[..n];
      assert forall i | 0 <= i < |d| :: o.IsSeparator(d[i]);
      assert d[..1] == s[..1];
    }
  }

  // ---------------------------------------------------------------------------
  // Every path, taken apart.

  // Nothing, a drive, or something that does not end in a separator, and then
  // separators: how much of them is kept.
  lemma {:induction false} StripExact(o: Platform, b: string, s: string)
    requires o.Valid() && (b == "" || !o.IsSeparator(b[|b| - 1]))
    requires forall i | 0 <= i < |s| :: o.IsSeparator(s[i])
    ensures Strip(o, b + s) ==
            if s == "" || (b != "" && !IsBareDrive(o, b)) then b
            else if |s| == 2 then b + s
            else b + s[..1]
  {
    var p := b + s;
    var k := Trimmed(o, p, Start(o, p), |p|);
    assert forall i | |b| <= i < |p| :: p[i] == s[i - |b|];
    assert forall i | 0 <= i < |b| :: p[i] == b[i];
    assert o.FindDriveLetter(p) == o.FindDriveLetter(b);
    assert p[..|b|] == b;
    if s != "" && (b == "" || IsBareDrive(o, b)) {
      assert p[..|b| + 1] == b + s[..1];
    }
  }

  // A head: nothing, a bare drive, or something that ends in a separator.
  ghost predicate IsHead(o: Platform, h: string) {
    h == "" || IsBareDrive(o, h) || o.IsSeparator(h[|h| - 1])
  }

  // A tail behind a head: no separators, and no drive of its own at the start.
  ghost predicate IsTailOf(o: Platform, h: string, c: string) {
    && c != "" && (forall i | 0 <= i < |c| :: !o.IsSeparator(c[i]))
    && (h == "" ==> o.FindDriveLetter(c) == -1)
  }

  // Three separators and nothing else, after the drive.
  predicate IsTripleRoot(o: Platform, h: string) {
    |h| == Start(o, h) + 2 && forall i | Start(o, h) - 1 <= i < |h| :: o.IsSeparator(h[i])
  }

  lemma {:induction false} HeadAndTail(o: Platform, h: string, c: string, s: string)
    requires o.Valid() && IsHead(o, h) && IsTailOf(o, h, c)
    requires forall i | 0 <= i < |s| :: o.IsSeparator(s[i])
    ensures Strip(o, h + c + s) == h + c
    ensures o.FindDriveLetter(h + c) == o.FindDriveLetter(h)
    ensures o.LastSeparator(h + c) == if h == "" || IsBareDrive(o, h) then -1 else |h| - 1
  {
    var q := h + c;
    assert q[|q| - 1] == c[|c| - 1];
    assert forall i | 0 <= i < |h| :: q[i] == h[i];
    assert forall i | |h| <= i < |q| :: q[i] == c[i - |h|];
    StripExact(o, q, s);
    LastSeparatorIs(o, q, if h == "" || IsBareDrive(o, h) then -1 else |h| - 1);
  }

  /** The last component of every path that has one. */
  lemma {:induction false} BaseNameExact(o: Platform, h: string, c: string, s: string)
    requires o.Valid() && IsHead(o, h) && IsTailOf(o, h, c)
    requires forall i | 0 <= i < |s| :: o.IsSeparator(s[i])
    ensures BaseName(o, h + c + s) == c
  {
    HeadAndTail(o, h, c, s);
    assert (h + c)[|h|..] == c;
  }

  lemma {:induction false} ParentOfHead(o: Platform, h: string)
    requires o.Valid() && h != "" && o.IsSeparator(h[|h| - 1]) && !IsSingleRoot(o, h) && !IsDoubleRoot(o, h)
    ensures Strip(o, h[..|h| - 1]) == if IsTripleRoot(o, h) then h[..|h| - 1] else Strip(o, h)
  {
    var start := Start(o, h);
    var g := h[..|h| - 1];
    assert forall i | 0 <= i < |g| :: g[i] == h[i];
    assert o.FindDriveLetter(g) == o.FindDriveLetter(h);
    TrimmedPrefix(o, h, g, start, |g|);
    assert Trimmed(o, h, start, |h|) == Trimmed(o, h, start, |g|);
    assert g[..Trimmed(o, g, start, |g|)] == h[..Trimmed(o, g, start, |g|)];
  }

  lemma {:induction false} TrimmedPrefix(o: Platform, p: string, g: string, start: nat, n: nat)
    requires g <= p && n <= |g|
    ensures Trimmed(o, p, start, n) == Trimmed(o, g, start, n)
  {
    if n > start && o.IsSeparator(p[n - 1]) {
      TrimmedPrefix(o, p, g, start, n - 1);
    }
  }

  /**
   * The parent of every path that has a last component: what is in front of it,
   * stripped, and `.` for nothing. Three leading separators become two.
   */
  lemma {:induction false} DirNameExact(o: Platform, h: string, c: string, s: string)
    requires o.Valid() && IsHead(o, h) && IsTailOf(o, h, c)
    requires forall i | 0 <= i < |s| :: o.IsSeparator(s[i])
    ensures DirName(o, h + c + s) ==
            if h == "" then "." else if IsTripleRoot(o, h) then h[..|h| - 1] else Strip(o, h)
  {
    var q := h + c;
    HeadAndTail(o, h, c, s);
    var n := ParentLength(o, q);
    assert forall i | 0 <= i < |h| :: q[i] == h[i];
    if h == "" || IsBareDrive(o, h) {
      assert q[..n] == h;
    } else if IsSingleRoot(o, h) || IsDoubleRoot(o, h) {
      assert n == |h| && q[..n] == h;
    } else {
      assert n == |h| - 1 && q[..n] == h[..|h| - 1];
      ParentOfHead(o, h);
    }
  }

  /** Append, for every path and every text to append, with at most one separator added. */
  lemma {:induction false} AppendExact(o: Platform, d: string, c: string)
    requires o.Valid()
    ensures Append(o, d, c) == Append(o, d, CutAtNul(c))
    ensures NUL !in c ==>
              var q := Strip(o, d);
              Append(o, d, c) ==
                if d == "." then c
                else if c != "" && q != "" && !o.IsSeparator(q[|q| - 1]) && !IsBareDrive(o, q)
                then q + [o.separators[0]] + c
                else q + c
  {
  }

  // Behind a head and a tail there is no root to append to.
  lemma {:induction false} AppendToTail(o: Platform, h: string, a: string, b: string)
    requires o.Valid() && IsHead(o, h) && IsTailOf(o, h, a) && IsComponent(o, b) && h + a != "."
    ensures Append(o, h + a, b) == h + a + [o.separators[0]] + b
  {
    var q := h + a;
    HeadAndTail(o, h, a, "");
    assert q + "" == q;
    assert q[|q| - 1] == a[|a| - 1];
    AppendExact(o, q, b);
  }

  // What comes in front of anything that is appended.
  lemma {:induction false} HeadOf(o: Platform, d: string) returns (h: string)
    requires o.Valid()
    ensures IsHead(o, h)
    ensures forall c | c != "" && NUL !in c :: Append(o, d, c) == h + c
  {
    var q := Strip(o, d);
    StripKeeps(o, d);
    h := if d == "." then "" else q + Joint(o, q, "x");
    forall c | c != "" && NUL !in c ensures Append(o, d, c) == h + c {
      AppendExact(o, d, c);
    }
  }

  lemma {:induction false} Regroup(h: string, a: string, s: string, b: string)
    ensures h + (a + s + b) == h + a + s + b
  {
  }

  /** One component after the other is both at once, except that a lone `.` disappears. */
  lemma {:induction false} AppendTwice(o: Platform, d: string, a: string, b: string)
    requires o.Valid() && IsComponent(o, a) && IsComponent(o, b)
    ensures Append(o, d, a) != "." ==>
              Append(o, Append(o, d, a), b) == Append(o, d, a + [o.separators[0]] + b)
    ensures Append(o, d, a) == "." ==> Append(o, Append(o, d, a), b) == b
  {
    var sep := [o.separators[0]];
    assert o.separators[0] in o.separators;
    var h := HeadOf(o, d);
    assert Append(o, d, a) == h + a;
    if h + a == "." {
      AppendExact(o, ".", b);
    } else {
      AppendToTail(o, h, a, b);
      assert NUL !in a + sep + b;
      Regroup(h, a, sep, b);
    }
  }

  // ---------------------------------------------------------------------------
  // DirName, again and again.

  predicate IsFixed(o: Platform, p: string) {
    p == "." || IsBareDrive(o, p) || IsSingleRoot(o, p) || IsDoubleRoot(o, p)
  }

  /** The result of DirName has nothing left to strip. */
  lemma {:induction false} DirNameStripped(o: Platform, p: string)
    requires o.Valid()
    ensures Strip(o, DirName(o, p)) == DirName(o, p) && DirName(o, p) != ""
  {
  }

  lemma {:induction false} DirNameShortens(o: Platform, p: string)
    requires o.Valid()
    ensures IsFixed(o, p) ==> DirName(o, p) == p
    ensures !IsFixed(o, p) ==> |DirName(o, p)| < |p| || (DirName(o, p) == "." && p != ".")
  {
    var q := Strip(o, p);
    var n := ParentLength(o, q);
    StripKeeps(o, p);
    StripKeeps(o, q[..n]);
    if IsFixed(o, p) {
      LastSeparatorIs(o, p, if p == "." || IsBareDrive(o, p) then -1 else |p| - 1);
      assert q == p && p[..|p|] == p;
    } else if n == |q| {
      assert q != "" ==> q != p;
    }
  }

  /** DirName changes everything but `.`, the roots and a bare drive letter. */
  lemma {:induction false} FixedPoints(o: Platform, p: string)
    requires o.Valid()
    ensures DirName(o, p) == p <==> IsFixed(o, p)
  {
  }

  function Iterate(o: Platform, p: string, n: nat): string
    decreases n
  {
    if n == 0 then p else Iterate(o, DirName(o, p), n - 1)
  }

  /** From every path it comes to one of those within |p| + 1 steps. */
  lemma {:induction false} IterationEnds(o: Platform, p: string, n: nat)
    requires o.Valid() && (n >= |p| + 1 || IsFixed(o, p))
    ensures IsFixed(o, Iterate(o, p, n))
    decreases n
  {
    if n > 0 {
      DirNameShortens(o, p);
      IterationEnds(o, DirName(o, p), n - 1);
    }
  }

  // ---------------------------------------------------------------------------
  // Extensions.

  // rfind('.') among the first n characters.
  function LastDotBelow(s: string, n: nat): (k: int)
    requires n <= |s|
    ensures -1 <= k < n && (k >= 0 ==> s[k] == '.')
    ensures forall i | k < i < n :: s[i] != '.'
  {
    if n == 0 then -1 else if s[n - 1] == '.' then n - 1 else LastDotBelow(s, n - 1)
  }

  function LastDot(s: string): (k: int)
    ensures -1 <= k < |s| && (k >= 0 ==> s[k] == '.')
    ensures forall i | k < i < |s| :: s[i] != '.'
  {
    LastDotBelow(s, |s|)
  }

  function ExtensionOf(base: string): (e: string)
    ensures |e| <= |base|
  {
    var dot := LastDot(base);
    if base == "." || base == ".." || dot == -1 then "" else base[dot..]
  }

  function FinalExtension(o: Platform, p: string): (e: string)
    ensures |e| <= |p|
  {
    ExtensionOf(BaseName(o, p))
  }

  function RemoveFinalExtension(o: Platform, p: string): string {
    var e := FinalExtension(o, p);
    if e == "" then p else CutAtNul(p[..|p| - |e|])
  }

  // Behind the drive a root has separators only.
  lemma {:induction false} NoRoot(o: Platform, q: string, k: nat)
    requires BaseStart(o, q) <= k < |q| && !o.IsSeparator(q[k])
    ensures !IsSingleRoot(o, q) && !IsDoubleRoot(o, q)
  {
  }

  // Where the extension of a stripped path starts: at a dot, not in a root.
  lemma {:induction false} ExtensionStart(o: Platform, q: string) returns (k: nat)
    requires o.Valid() && Strip(o, q) == q && FinalExtension(o, q) != ""
    ensures k < |q| && FinalExtension(o, q) == q[k..] && !o.IsSeparator(q[|q| - 1])
  {
    var b := BaseStart(o, q);
    k := b + LastDot(q[b..]);
    assert q[b..][LastDot(q[b..])..] == q[k..];
    NoRoot(o, q, k);
    if o.IsSeparator(q[|q| - 1]) {
      StripEnds(o, q);
    }
  }

  // A suffix of the stripped path q that does not end in a separator, and the rest.
  lemma {:induction false} SuffixOfStripped(o: Platform, p: string, q: string, head: string, e: string)
    requires q <= p && (forall i | |q| <= i < |p| :: o.IsSeparator(p[i]))
    requires 0 < |e| <= |q| && !o.IsSeparator(q[|q| - 1]) && q[|q| - |e|..] == e && head == p[..|p| - |e|]
    ensures head + e == p <==> q == p
  {
  }

  /** The two parts make up the path exactly when it has no trailing separators. */
  lemma {:induction false} ExtensionRecomposes(o: Platform, p: string)
    requires o.Valid() && NUL !in p && FinalExtension(o, p) != ""
    ensures RemoveFinalExtension(o, p) + FinalExtension(o, p) == p <==> Strip(o, p) == p
  {
    var q, e := Strip(o, p), FinalExtension(o, p);
    StripKeeps(o, p);
    StripIdempotent(o, p);
    var k := ExtensionStart(o, q);
    SuffixOfStripped(o, p, q, RemoveFinalExtension(o, p), e);
  }

  lemma {:induction false} LastDotIs(s: string, k: int)
    requires -1 <= k < |s| && (k >= 0 ==> s[k] == '.') && forall i | k < i < |s| :: s[i] != '.'
    ensures LastDot(s) == k
  {
  }

  lemma {:induction false} ExtensionOfExact(base: string, x: string, y: string)
    requires '.' !in y
    ensures '.' !in base || base == "." || base == ".." ==> ExtensionOf(base) == ""
    ensures base == x + "." + y && base != "." && base != ".." ==> ExtensionOf(base) == "." + y
  {
    if '.' !in base {
      LastDotIs(base, -1);
    }
    if base == x + "." + y {
      assert forall i | |x| < i < |base| :: base[i] == y[i - |x| - 1];
      LastDotIs(base, |x|);
      assert base[|x|..] == "." + y;
    }
  }

  /** The extension of every path: from the last dot of the base name, but none of `.` and `..`. */
  lemma {:induction false} FinalExtensionExact(o: Platform, p: string, x: string, y: string)
    requires '.' !in y
    ensures '.' !in BaseName(o, p) || BaseName(o, p) == "." || BaseName(o, p) == ".." ==> FinalExtension(o, p) == ""
    ensures BaseName(o, p) == x + "." + y && BaseName(o, p) != "." && BaseName(o, p) != ".." ==>
              FinalExtension(o, p) == "." + y
  {
    ExtensionOfExact(BaseName(o, p), x, y);
  }

  /** What is removed is as long as the extension, and off the end. */
  lemma {:induction false} RemoveFinalExtensionExact(o: Platform, p: string)
    requires NUL !in p
    ensures RemoveFinalExtension(o, p) == p[..|p| - |FinalExtension(o, p)|]
  {
  }

  /** A drive is an ASCII letter and a colon in front, by their codes. */
  lemma {:induction false} DriveExact(o: Platform, p: string)
    ensures o.FindDriveLetter(p) == 1 <==>
            && o.driveLetters && |p| >= 2 && p[1] as int == 58
            && (65 <= p[0] as int <= 90 || 97 <= p[0] as int <= 122)
  {
  }

  /** Which paths are absolute, with a separator s and a letter l, and that components never are. */
  lemma {:induction false} AbsoluteExact(o: Platform, s: char, l: char, rest: string)
    requires o.Valid() && o.IsSeparator(s) && IsLetter(l)
    ensures !o.IsPathAbsolute("") && (IsComponent(o, rest) ==> !o.IsPathAbsolute(rest))
    ensures !o.driveLetters ==> o.IsPathAbsolute([s] + rest)
    ensures o.driveLetters ==> o.IsPathAbsolute([s, s] + rest) && o.IsPathAbsolute([l, ':', s] + rest)
    ensures o.driveLetters ==> !o.IsPathAbsolute([s]) && !o.IsPathAbsolute([l, ':'])
  {
    assert ([l, ':', s] + rest)[0] == l && ([l, ':', s] + rest)[2] == s;
    assert ([s, s] + rest)[0] == s && ([s, s] + rest)[1] == s;
    assert ([s] + rest)[0] == s;
  }

  // ---------------------------------------------------------------------------
  // The class.

  class FilePath {
    const platform: Platform
    var path: string

    constructor (platform: Platform, path: string)
      ensures this.platform == platform && this.path == CutAtNul(path)
    {
      this.platform := platform;
      this.path := CutAtNul(path);
    }

    method StripTrailingSeparatorsInternal()
      modifies this
      ensures path == Strip(platform, old(path)) && path <= old(path)
      ensures platform.Valid() ==> Strip(platform, path) == path
    {
      ghost var whole := path;
      var start := platform.FindDriveLetter(path) + 2;
      var lastStripped := -1;
      var pos := |path|;
      while pos > start && platform.IsSeparator(path[pos - 1])
        invariant 0 <= pos <= |whole| && start == Start(platform, whole)
        invariant IsDoubleRoot(platform, whole) ==> path == whole && pos >= start && lastStripped == -1
        invariant !IsDoubleRoot(platform, whole) ==>
                    && path == whole[..pos] && lastStripped == (if pos == |whole| then -1 else pos + 1)
                    && Trimmed(platform, whole, start, |whole|) == Trimmed(platform, whole, start, pos)
      {
        if pos != start + 1 || lastStripped == start + 2 || !platform.IsSeparator(path[start - 1]) {
          path := path[..pos - 1];
          lastStripped := pos;
        }
        pos := pos - 1;
      }
      if platform.Valid() {
        StripIdempotent(platform, whole);
      }
    }

    method DirNameOf() returns (newPath: FilePath)
      requires platform.Valid() && NUL !in path
      ensures fresh(newPath) && newPath.platform == platform
      ensures newPath.path == DirName(platform, path)
      ensures newPath.path == path <==> IsFixed(platform, path)
    {
      FixedPoints(platform, path);
      newPath := new FilePath(platform, path);
      newPath.StripTrailingSeparatorsInternal();
      var letter := platform.FindDriveLetter(newPath.path);
      var lastSeparator := platform.LastSeparator(newPath.path);
      if lastSeparator == -1 {
        newPath.path := newPath.path[..letter + 1];
      } else if lastSeparator == letter + 1 {
        newPath.path := newPath.path[..letter + 2];
      } else if lastSeparator == letter + 2 && platform.IsSeparator(newPath.path[letter + 1]) {
        newPath.path := newPath.path[..letter + 3];
      } else if lastSeparator != 0 {
        newPath.path := newPath.path[..lastSeparator];
      }
      newPath.StripTrailingSeparatorsInternal();
      if |newPath.path| == 0 {
        newPath.path := ".";
      }
    }

    method BaseNameOf() returns (newPath: FilePath)
      requires platform.Valid() && NUL !in path
      ensures fresh(newPath) && newPath.platform == platform
      ensures newPath.path == BaseName(platform, path)
    {
      newPath := new FilePath(platform, path);
      newPath.StripTrailingSeparatorsInternal();
      ghost var stripped := newPath.path;
      var letter := platform.FindDriveLetter(newPath.path);
      if letter != -1 {
        newPath.path := newPath.path[letter + 1..];
      }
      LastSeparatorAfterDrive(platform, stripped, newPath.path);
      var lastSeparator := platform.LastSeparator(newPath.path);
      if lastSeparator != -1 && lastSeparator < |newPath.path| - 1 {
        newPath.path := newPath.path[lastSeparator + 1..];
      }
    }

    method AppendComponent(component: string) returns (newPath: FilePath)
      requires platform.Valid() && NUL !in path && !platform.IsPathAbsolute(CutAtNul(component))
      ensures fresh(newPath) && newPath.platform == platform
      ensures newPath.path == Append(platform, path, component)
    {
      var appended := CutAtNul(component);
      if path == "." {
        newPath := new FilePath(platform, appended);
        return;
      }
      newPath := new FilePath(platform, path);
      newPath.StripTrailingSeparatorsInternal();
      if |appended| > 0 && |newPath.path| > 0 {
        if !platform.IsSeparator(newPath.path[|newPath.path| - 1]) {
          if platform.FindDriveLetter(newPath.path) + 1 != |newPath.path| {
            newPath.path := newPath.path + [platform.separators[0]];
          }
        }
      }
      newPath.path := newPath.path + appended;
    }
  }
}
