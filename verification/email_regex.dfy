/** The email regular expression shared by the server and the browser:

      ^ F (\.?C)* @ A (-*\.?A)* \. L (-?A)+ $

    where F is the local-part character class `[-!#$%&'*+\/0-9=?A-Z^_a-z{|}~]`, C is the
    same class with the backtick added, A is `[a-zA-Z0-9]` and L is `[a-zA-Z]`.

    `RegexMatches` gives the expression its literal meaning (a match exists when the
    input can be cut into pieces that the sub-expressions accept, as a backtracking
    engine would find); `Matches` is a deterministic recognizer that cuts at the first
    `@` and the last `.` and checks characters position by position. `MatchesIsRegex`
    proves the two agree on every string. */
module EmailRegex {
  import opened Strings

  predicate IsLetter(c: char) {
    'a' <= c <= 'z' || 'A' <= c <= 'Z'
  }

  predicate IsAlnum(c: char) {
    IsLetter(c) || '0' <= c <= '9'
  }

  /** The class of the first local-part character (no backtick, no dot). */
  predicate IsLocalFirstChar(c: char) {
    IsAlnum(c) || c in "-!#$%&'*+/=?^_{|}~"
  }

  /** The class of every later local-part character: the first class plus the backtick. */
  predicate IsLocalChar(c: char) {
    IsLocalFirstChar(c) || c == '`'
  }

  // ---------------------------------------------------------------------------
  // Literal semantics of the expression
  // ---------------------------------------------------------------------------

  /** `s` is a concatenation of zero or more strings accepted by `atom` (`X*`). */
  ghost predicate Star(atom: string -> bool, s: string)
    decreases |s|
  {
    s == [] || exists k :: 0 < k <= |s| && atom(s[..k]) && Star(atom, s[k..])
  }

  /** `s` is a concatenation of one or more strings accepted by `atom` (`X+`). */
  ghost predicate Plus(atom: string -> bool, s: string)
  {
    exists k :: 0 < k <= |s| && atom(s[..k]) && Star(atom, s[k..])
  }

  /** `\.?C`: an optional dot, then one later local-part character. */
  ghost predicate LocalGroup(g: string) {
    || (|g| == 1 && IsLocalChar(g[0]))
    || (|g| == 2 && g[0] == '.' && IsLocalChar(g[1]))
  }

  ghost predicate Hyphens(h: string) {
    forall i :: 0 <= i < |h| ==> h[i] == '-'
  }

  /** `-*\.?A`: any hyphens, an optional dot, then one alphanumeric. */
  ghost predicate DomainGroup(g: string) {
    && |g| >= 1
    && IsAlnum(g[|g| - 1])
    && (Hyphens(g[..|g| - 1]) || (|g| >= 2 && g[|g| - 2] == '.' && Hyphens(g[..|g| - 2])))
  }

  /** `-?A`: an optional hyphen, then one alphanumeric. */
  ghost predicate TopGroup(g: string) {
    || (|g| == 1 && IsAlnum(g[0]))
    || (|g| == 2 && g[0] == '-' && IsAlnum(g[1]))
  }

  /** `F(\.?C)*`: the local part. */
  ghost predicate LocalRegex(p: string) {
    |p| >= 1 && IsLocalFirstChar(p[0]) && Star(LocalGroup, p[1..])
  }

  /** `A(-*\.?A)*`: the domain up to the dot before the final label. */
  ghost predicate HeadRegex(h: string) {
    |h| >= 1 && IsAlnum(h[0]) && Star(DomainGroup, h[1..])
  }

  /** `L(-?A)+`: the final label. */
  ghost predicate TopRegex(t: string) {
    |t| >= 1 && IsLetter(t[0]) && Plus(TopGroup, t[1..])
  }

  /** `A(-*\.?A)*\.L(-?A)+`: some dot splits the domain into a head and a final label. */
  ghost predicate DomainRegex(dm: string) {
    exists e :: 0 <= e < |dm| && HeadRegex(dm[..e]) && dm[e] == '.' && TopRegex(dm[e + 1..])
  }

  /** The anchored expression accepts `s`: some `@` splits it into a local part and a
      domain. */
  ghost predicate RegexMatches(s: string) {
    exists a :: 0 <= a < |s| && LocalRegex(s[..a]) && s[a] == '@' && DomainRegex(s[a + 1..])
  }

  // ---------------------------------------------------------------------------
  // Deterministic recognizer
  // ---------------------------------------------------------------------------

  /** The rule for position `i` of the local part after its first character: a
      local-part character, or a dot immediately followed by one (so no doubled and no
      trailing dot). */
  predicate LocalStepAt(t: string, i: nat)
    requires i < |t|
  {
    IsLocalChar(t[i]) || (t[i] == '.' && i + 1 < |t| && IsLocalChar(t[i + 1]))
  }

  /** The rule for position `i` of the domain head after its first character: an
      alphanumeric, a hyphen that is not last, or a dot immediately followed by an
      alphanumeric. */
  predicate DomainStepAt(u: string, i: nat)
    requires i < |u|
  {
    || IsAlnum(u[i])
    || (u[i] == '-' && i + 1 < |u|)
    || (u[i] == '.' && i + 1 < |u| && IsAlnum(u[i + 1]))
  }

  /** The rule for position `i` of the final label after its first character: an
      alphanumeric, or a single hyphen immediately followed by an alphanumeric. */
  predicate TopStepAt(v: string, i: nat)
    requires i < |v|
  {
    IsAlnum(v[i]) || (v[i] == '-' && i + 1 < |v| && IsAlnum(v[i + 1]))
  }

  predicate DottedLocalTail(t: string) {
    forall i :: 0 <= i < |t| ==> LocalStepAt(t, i)
  }

  predicate HyphenDotTail(u: string) {
    forall i :: 0 <= i < |u| ==> DomainStepAt(u, i)
  }

  predicate HyphenTail(v: string) {
    forall i :: 0 <= i < |v| ==> TopStepAt(v, i)
  }

  predicate IsLocalPart(p: string) {
    |p| >= 1 && IsLocalFirstChar(p[0]) && DottedLocalTail(p[1..])
  }

  /** The domain up to its last dot. */
  predicate IsDomainHead(h: string) {
    |h| >= 1 && IsAlnum(h[0]) && HyphenDotTail(h[1..])
  }

  /** The final label: a letter and at least one more character. */
  predicate IsTopLabel(t: string) {
    |t| >= 2 && IsLetter(t[0]) && HyphenTail(t[1..])
  }

  predicate IsDomain(d: string) {
    '.' in d && IsDomainHead(d[..LastIndexOf(d, '.')]) && IsTopLabel(d[LastIndexOf(d, '.') + 1..])
  }

  /** `emailRegex.test(s)`. */
  predicate Matches(s: string) {
    '@' in s && IsLocalPart(s[..IndexOf(s, '@')]) && IsDomain(s[IndexOf(s, '@') + 1..])
  }

  // ---------------------------------------------------------------------------
  // Character facts
  // ---------------------------------------------------------------------------

  lemma LocalTailChars(t: string)
    requires DottedLocalTail(t)
    ensures '@' !in t
  {
    forall i | 0 <= i < |t|
      ensures t[i] != '@'
    {
      assert LocalStepAt(t, i);
    }
  }

  lemma HyphenDotTailChars(u: string)
    requires HyphenDotTail(u)
    ensures '@' !in u
  {
    forall i | 0 <= i < |u|
      ensures u[i] != '@'
    {
      assert DomainStepAt(u, i);
    }
  }

  lemma HyphenTailChars(v: string)
    requires HyphenTail(v)
    ensures '@' !in v && '.' !in v
  {
    forall i | 0 <= i < |v|
      ensures v[i] != '@' && v[i] != '.'
    {
      assert TopStepAt(v, i);
    }
  }

  // ---------------------------------------------------------------------------
  // Each starred group agrees with its position-by-position check
  // ---------------------------------------------------------------------------

  /** The step rules look at one position and the next, so they move with a suffix. */
  lemma StepsShift(t: string, k: nat, j: nat)
    requires k + j < |t|
    ensures LocalStepAt(t[k..], j) == LocalStepAt(t, k + j)
    ensures DomainStepAt(t[k..], j) == DomainStepAt(t, k + j)
    ensures TopStepAt(t[k..], j) == TopStepAt(t, k + j)
  {
    assert t[k..][j] == t[k + j];
    if k + j + 1 < |t| {
      assert t[k..][j + 1] == t[k + j + 1];
    }
  }

  lemma {:induction false} LocalStarSound(t: string)
    requires Star(LocalGroup, t)
    ensures DottedLocalTail(t)
    decreases |t|
  {
    if t != [] {
      var k :| 0 < k <= |t| && LocalGroup(t[..k]) && Star(LocalGroup, t[k..]);
      LocalStarSound(t[k..]);
      forall i | 0 <= i < |t|
        ensures LocalStepAt(t, i)
      {
        if i < k {
          assert t[..k][i] == t[i];
          if i + 1 < k {
            assert t[..k][i + 1] == t[i + 1];
          }
        } else {
          StepsShift(t, k, i - k);
        }
      }
    }
  }

  lemma LocalTailSuffix(t: string, k: nat)
    requires k <= |t| && DottedLocalTail(t)
    ensures DottedLocalTail(t[k..])
  {
    forall j | 0 <= j < |t| - k
      ensures LocalStepAt(t[k..], j)
    {
      StepsShift(t, k, j);
    }
  }

  lemma {:induction false} LocalStarComplete(t: string)
    requires DottedLocalTail(t)
    ensures Star(LocalGroup, t)
    decreases |t|
  {
    if t != [] {
      assert LocalStepAt(t, 0);
      var k := if IsLocalChar(t[0]) then 1 else 2;
      assert LocalGroup(t[..k]);
      LocalTailSuffix(t, k);
      LocalStarComplete(t[k..]);
    }
  }

  lemma {:induction false} DomainStarSound(u: string)
    requires Star(DomainGroup, u)
    ensures HyphenDotTail(u)
    decreases |u|
  {
    if u != [] {
      var k :| 0 < k <= |u| && DomainGroup(u[..k]) && Star(DomainGroup, u[k..]);
      DomainStarSound(u[k..]);
      forall i | 0 <= i < |u|
        ensures DomainStepAt(u, i)
      {
        if i < k {
          DomainGroupStep(u[..k], i);
          assert u[..k][i] == u[i];
          if i + 1 < k {
            assert u[..k][i + 1] == u[i + 1];
          }
        } else {
          StepsShift(u, k, i - k);
        }
      }
    }
  }

  /** Inside one domain group every character but the last is a hyphen, or the dot
      just before the closing alphanumeric. */
  lemma DomainGroupStep(g: string, i: nat)
    requires DomainGroup(g) && i < |g|
    ensures || IsAlnum(g[i])
            || (g[i] == '-' && i + 1 < |g|)
            || (g[i] == '.' && i + 1 < |g| && IsAlnum(g[i + 1]))
  {
    if i + 1 < |g| {
      if Hyphens(g[..|g| - 1]) {
        assert g[..|g| - 1][i] == g[i];
      } else if i + 2 < |g| {
        assert g[..|g| - 2][i] == g[i];
      }
    }
  }

  lemma HyphenDotTailSuffix(u: string, k: nat)
    requires k <= |u| && HyphenDotTail(u)
    ensures HyphenDotTail(u[k..])
  {
    forall j | 0 <= j < |u| - k
      ensures DomainStepAt(u[k..], j)
    {
      StepsShift(u, k, j);
    }
  }

  /** A hyphen in front of a domain group still makes a domain group (`-*` absorbs it). */
  lemma HyphenThenDomainGroup(g: string)
    requires DomainGroup(g)
    ensures DomainGroup(['-'] + g)
  {
    var g' := ['-'] + g;
    assert g'[|g'| - 1] == g[|g| - 1];
    if Hyphens(g[..|g| - 1]) {
      assert g'[..|g'| - 1] == ['-'] + g[..|g| - 1];
    } else {
      assert g'[|g'| - 2] == g[|g| - 2];
      assert g'[..|g'| - 2] == ['-'] + g[..|g| - 2];
    }
  }

  /** A group followed by a starred string is a starred string, stated on a cut. */
  lemma StarSplit(atom: string -> bool, s: string, k: nat)
    requires 0 < k <= |s| && atom(s[..k]) && Star(atom, s[k..])
    ensures Star(atom, s)
  {
  }

  /** A group followed by a starred string is a starred string. */
  lemma StarCons(atom: string -> bool, g: string, rest: string)
    requires |g| > 0 && atom(g) && Star(atom, rest)
    ensures Star(atom, g + rest)
  {
    var s := g + rest;
    assert s[..|g|] == g && s[|g|..] == rest;
  }

  /** A leading hyphen joins the first group of a non-empty starred domain string. */
  lemma HyphenThenDomainStar(tail: string)
    requires tail != [] && Star(DomainGroup, tail)
    ensures Star(DomainGroup, ['-'] + tail)
  {
    var k :| 0 < k <= |tail| && DomainGroup(tail[..k]) && Star(DomainGroup, tail[k..]);
    HyphenThenDomainGroup(tail[..k]);
    var u := ['-'] + tail;
    assert u[..k + 1] == ['-'] + tail[..k];
    assert u[k + 1..] == tail[k..];
    StarSplit(DomainGroup, u, k + 1);
  }

  lemma {:induction false} DomainStarComplete(u: string)
    requires HyphenDotTail(u)
    ensures Star(DomainGroup, u)
    decreases |u|
  {
    if u != [] {
      assert DomainStepAt(u, 0);
      var k := if u[0] == '.' then 2 else 1;
      HyphenDotTailSuffix(u, k);
      DomainStarComplete(u[k..]);
      assert u == u[..k] + u[k..];
      if IsAlnum(u[0]) {
        assert DomainGroup(u[..1]) by {
          assert u[..1][..0] == [];
        }
        StarCons(DomainGroup, u[..1], u[1..]);
      } else if u[0] == '.' {
        assert DomainGroup(u[..2]) by {
          assert u[..2][..0] == [];
        }
        StarCons(DomainGroup, u[..2], u[2..]);
      } else {
        assert u[..1] == ['-'];
        HyphenThenDomainStar(u[1..]);
      }
    }
  }

  lemma {:induction false} TopStarSound(v: string)
    requires Star(TopGroup, v)
    ensures HyphenTail(v)
    decreases |v|
  {
    if v != [] {
      var k :| 0 < k <= |v| && TopGroup(v[..k]) && Star(TopGroup, v[k..]);
      TopStarSound(v[k..]);
      forall i | 0 <= i < |v|
        ensures TopStepAt(v, i)
      {
        if i < k {
          assert v[..k][i] == v[i];
          if i + 1 < k {
            assert v[..k][i + 1] == v[i + 1];
          }
        } else {
          StepsShift(v, k, i - k);
        }
      }
    }
  }

  lemma HyphenTailSuffix(v: string, k: nat)
    requires k <= |v| && HyphenTail(v)
    ensures HyphenTail(v[k..])
  {
    forall j | 0 <= j < |v| - k
      ensures TopStepAt(v[k..], j)
    {
      StepsShift(v, k, j);
    }
  }

  lemma {:induction false} TopStarComplete(v: string)
    requires HyphenTail(v)
    ensures Star(TopGroup, v)
    decreases |v|
  {
    if v != [] {
      assert TopStepAt(v, 0);
      var k := if IsAlnum(v[0]) then 1 else 2;
      assert TopGroup(v[..k]);
      HyphenTailSuffix(v, k);
      TopStarComplete(v[k..]);
    }
  }

  /** `(-?A)+` accepts exactly the non-empty strings with a hyphen-tail shape. */
  lemma TopPlusIff(v: string)
    ensures Plus(TopGroup, v) <==> |v| >= 1 && HyphenTail(v)
  {
    if Plus(TopGroup, v) {
      var k :| 0 < k <= |v| && TopGroup(v[..k]) && Star(TopGroup, v[k..]);
      assert Star(TopGroup, v);
      TopStarSound(v);
    }
    if |v| >= 1 && HyphenTail(v) {
      TopStarComplete(v);
    }
  }

  // ---------------------------------------------------------------------------
  // The recognizer decides the expression, piece by piece
  // ---------------------------------------------------------------------------

  lemma LocalRegexIff(p: string)
    ensures LocalRegex(p) <==> IsLocalPart(p)
  {
    if |p| >= 1 {
      if Star(LocalGroup, p[1..]) {
        LocalStarSound(p[1..]);
      }
      if DottedLocalTail(p[1..]) {
        LocalStarComplete(p[1..]);
      }
    }
  }

  lemma HeadRegexIff(h: string)
    ensures HeadRegex(h) <==> IsDomainHead(h)
  {
    if |h| >= 1 {
      if Star(DomainGroup, h[1..]) {
        DomainStarSound(h[1..]);
      }
      if HyphenDotTail(h[1..]) {
        DomainStarComplete(h[1..]);
      }
    }
  }

  lemma TopRegexIff(t: string)
    ensures TopRegex(t) <==> IsTopLabel(t)
  {
    if |t| >= 1 {
      TopPlusIff(t[1..]);
    }
  }

  /** A final label holds neither `@` nor `.`. */
  lemma TopLabelChars(t: string)
    requires IsTopLabel(t)
    ensures '@' !in t && '.' !in t
  {
    HyphenTailChars(t[1..]);
    assert t == [t[0]] + t[1..];
  }

  lemma DomainRegexIff(dm: string)
    ensures DomainRegex(dm) <==> IsDomain(dm)
  {
    if DomainRegex(dm) {
      var e :| 0 <= e < |dm| && HeadRegex(dm[..e]) && dm[e] == '.' && TopRegex(dm[e + 1..]);
      TopRegexIff(dm[e + 1..]);
      TopLabelChars(dm[e + 1..]);
      LastIndexOfUnique(dm, '.', e);
      HeadRegexIff(dm[..e]);
    }
    if IsDomain(dm) {
      var e := LastIndexOf(dm, '.');
      TopRegexIff(dm[e + 1..]);
      HeadRegexIff(dm[..e]);
    }
  }

  /** A local part holds no `@`. */
  lemma LocalPartChars(p: string)
    requires IsLocalPart(p)
    ensures '@' !in p
  {
    LocalTailChars(p[1..]);
    assert p == [p[0]] + p[1..];
  }

  lemma RegexImpliesMatches(s: string)
    requires RegexMatches(s)
    ensures Matches(s)
  {
    var a :| 0 <= a < |s| && LocalRegex(s[..a]) && s[a] == '@' && DomainRegex(s[a + 1..]);
    LocalRegexIff(s[..a]);
    LocalPartChars(s[..a]);
    DomainRegexIff(s[a + 1..]);
    MatchesAt(s, a);
  }

  /** The recognizer accepts a string whose first `@` separates a local part from a
      domain. */
  lemma MatchesAt(s: string, a: nat)
    requires a < |s| && s[a] == '@' && '@' !in s[..a]
    requires IsLocalPart(s[..a]) && IsDomain(s[a + 1..])
    ensures Matches(s)
  {
    IndexOfUnique(s, '@', a);
  }

  lemma MatchesImpliesRegex(s: string)
    requires Matches(s)
    ensures RegexMatches(s)
  {
    var a := IndexOf(s, '@');
    LocalRegexIff(s[..a]);
    DomainRegexIff(s[a + 1..]);
  }

  /** The deterministic recognizer accepts exactly the strings the expression matches. */
  lemma MatchesIsRegex(s: string)
    ensures Matches(s) <==> RegexMatches(s)
  {
    if RegexMatches(s) {
      RegexImpliesMatches(s);
    }
    if Matches(s) {
      MatchesImpliesRegex(s);
    }
  }
}
