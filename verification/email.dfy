/** `isValidEmail`, which exists twice: on the server, where it guards `/ConfirmCard`, and
    in the browser, where the send button's click handler is meant to call it. Both test
    the same regular expression and the same three length bounds (whole address, local
    part, each label of the domain); they differ only in how the tests are chained. */
module Email {
  import opened Strings
  import opened EmailRegex

  const MaxAddressLength: nat := 254
  const MaxLocalLength: nat := 64
  const MaxLabelLength: nat := 63

  /** `domainParts.some(part => part.length > 63)`. */
  predicate SomeLabelTooLong(domainParts: seq<string>) {
    exists k :: 0 <= k < |domainParts| && |domainParts[k]| > MaxLabelLength
  }

  /** What an accepted address looks like, stated without `split`: within the length
      bound, matched by the regular expression, at most 64 characters before the `@`,
      and no run of more than 63 characters without a dot after it. */
  ghost predicate WellFormedAddress(email: string) {
    && |email| <= MaxAddressLength
    && RegexMatches(email)
    && '@' in email
    && IndexOf(email, '@') <= MaxLocalLength
    && NoRunLonger(email[IndexOf(email, '@') + 1..], '.', MaxLabelLength)
  }

  /** An address the recognizer accepts has exactly one `@`. */
  lemma AddressAtCount(s: string)
    requires Matches(s)
    ensures Count(s, '@') == 1
  {
    var a := IndexOf(s, '@');
    var dom := s[a + 1..];
    DomainChars(dom);
    OneOccurrence(s, '@', a);
  }

  lemma OneOccurrence(s: string, c: char, a: nat)
    requires a < |s| && s[a] == c && c !in s[..a] && c !in s[a + 1..]
    ensures Count(s, c) == 1
  {
    assert s == s[..a] + [s[a]] + s[a + 1..];
    assert multiset(s) == multiset(s[..a]) + multiset([s[a]]) + multiset(s[a + 1..]);
    assert multiset(s[..a])[c] == 0 && multiset(s[a + 1..])[c] == 0;
  }

  /** Splitting an accepted address at `@` gives its local part and its domain. */
  lemma AddressSplit(s: string)
    requires Matches(s)
    ensures Split(s, '@') == [s[..IndexOf(s, '@')], s[IndexOf(s, '@') + 1..]]
  {
    var a := IndexOf(s, '@');
    var dom := s[a + 1..];
    AddressAtCount(s);
    DomainChars(dom);
    SplitFirstPieces(s, '@');
    SplitWithoutSeparator(dom, '@');
  }

  /** A domain accepted by the recognizer holds no `@`. */
  lemma DomainChars(d: string)
    requires IsDomain(d)
    ensures '@' !in d
  {
    var e := LastIndexOf(d, '.');
    var head := d[..e];
    HyphenDotTailChars(head[1..]);
    assert head == [head[0]] + head[1..];
    TopLabelChars(d[e + 1..]);
    assert d == head + [d[e]] + d[e + 1..];
  }

  /** The label-length test on the pieces of the domain agrees with the run bound. */
  lemma LabelsWithinBound(domain: string)
    ensures !SomeLabelTooLong(Split(domain, '.')) <==> NoRunLonger(domain, '.', MaxLabelLength)
  {
    SplitPiecesAtMost(domain, '.', MaxLabelLength);
  }

  /** For a string the pattern accepts, the remaining tests of both copies decide
      `WellFormedAddress`: the first piece of the split at `@` is the local part and the
      second is the domain whose labels are measured. */
  lemma AcceptedAddress(email: string)
    requires |email| <= MaxAddressLength && Matches(email)
    ensures Split(email, '@') == [email[..IndexOf(email, '@')], email[IndexOf(email, '@') + 1..]]
    ensures WellFormedAddress(email)
        <==> |email[..IndexOf(email, '@')]| <= MaxLocalLength
             && !SomeLabelTooLong(Split(email[IndexOf(email, '@') + 1..], '.'))
  {
    MatchesIsRegex(email);
    AddressSplit(email);
    LabelsWithinBound(email[IndexOf(email, '@') + 1..]);
  }

  /** Server copy: one test for length and pattern, then the local part, then the labels. */
  function IsValidEmail(email: string): (valid: bool)
    ensures valid <==> WellFormedAddress(email)
  {
    MatchesIsRegex(email);
    if |email| > MaxAddressLength || !Matches(email) then false
    else
      AcceptedAddress(email);
      var parts := Split(email, '@');
      if |parts[0]| > MaxLocalLength then false
      else
        var domainParts := Split(parts[1], '.');
        !SomeLabelTooLong(domainParts)
  }

  /** Browser copy: the same tests as separate early returns. */
  function ClientIsValidEmail(email: string): (valid: bool)
    ensures valid <==> WellFormedAddress(email)
  {
    MatchesIsRegex(email);
    if |email| > MaxAddressLength then false
    else if !Matches(email) then false
    else
      AcceptedAddress(email);
      var parts := Split(email, '@');
      if |parts[0]| > MaxLocalLength then false
      else
        var domainParts := Split(parts[1], '.');
        if SomeLabelTooLong(domainParts) then false
        else true
  }

  /** The browser and the server give the same verdict on every string. */
  lemma ClientAgreesWithServer(email: string)
    ensures ClientIsValidEmail(email) == IsValidEmail(email)
  {
  }

  /** Each early return of the server copy, stated on the pieces the code measures. */
  lemma ServerRejects(email: string)
    ensures |email| > MaxAddressLength ==> !IsValidEmail(email)
    ensures !RegexMatches(email) ==> !IsValidEmail(email)
    ensures |Split(email, '@')[0]| > MaxLocalLength ==> !IsValidEmail(email)
    ensures |Split(email, '@')| >= 2 && SomeLabelTooLong(Split(Split(email, '@')[1], '.'))
        ==> !IsValidEmail(email)
  {
    if IsValidEmail(email) {
      MatchesIsRegex(email);
      AcceptedAddress(email);
    }
  }

  /** The same early returns of the browser copy. */
  lemma ClientRejects(email: string)
    ensures |email| > MaxAddressLength ==> !ClientIsValidEmail(email)
    ensures !RegexMatches(email) ==> !ClientIsValidEmail(email)
    ensures |Split(email, '@')[0]| > MaxLocalLength ==> !ClientIsValidEmail(email)
    ensures |Split(email, '@')| >= 2 && SomeLabelTooLong(Split(Split(email, '@')[1], '.'))
        ==> !ClientIsValidEmail(email)
  {
    ClientAgreesWithServer(email);
    ServerRejects(email);
  }

  lemma ValidImpliesMatches(email: string)
    requires IsValidEmail(email)
    ensures Matches(email)
  {
    MatchesIsRegex(email);
  }

  /** An accepted address has exactly one `@`, and its last dot comes after the `@` and
      starts a final label of at least two characters that begins with a letter. */
  lemma ValidAddressShape(email: string)
    requires IsValidEmail(email)
    ensures Count(email, '@') == 1
    ensures '.' in email && IndexOf(email, '@') < LastIndexOf(email, '.')
    ensures |email| - LastIndexOf(email, '.') - 1 >= 2
    ensures IsLetter(email[LastIndexOf(email, '.') + 1])
  {
    ValidImpliesMatches(email);
    AddressAtCount(email);
    RecognizedTopLabel(email);
  }

  /** The last dot of an accepted address is the last dot of its domain, so it is
      followed by the final label. */
  lemma RecognizedTopLabel(s: string)
    requires Matches(s)
    ensures '.' in s && IndexOf(s, '@') < LastIndexOf(s, '.')
    ensures |s| - LastIndexOf(s, '.') - 1 >= 2 && IsLetter(s[LastIndexOf(s, '.') + 1])
  {
    var a := IndexOf(s, '@');
    var dom := s[a + 1..];
    var e := LastIndexOf(dom, '.');
    assert |dom| - e - 1 >= 2 && IsLetter(dom[e + 1]);
    LastIndexOfSuffix(s, a + 1, '.');
    assert s[a + 1 + e + 1] == dom[e + 1];
  }

  lemma ShortAddressMatches()
    ensures Matches("a@b.co")
  {
    var s := "a@b.co";
    IndexOfUnique(s, '@', 1);
    var dom := s[2..];
    assert dom == "b.co";
    LastIndexOfUnique(dom, '.', 1);
    var top := dom[2..];
    assert top == "co";
    assert TopStepAt(top[1..], 0);
    assert IsTopLabel(top);
    assert IsDomainHead(dom[..1]);
    assert IsLocalPart(s[..1]);
  }

  /** A short well-formed address is accepted. */
  lemma AcceptsShortAddress()
    ensures IsValidEmail("a@b.co")
  {
    var s := "a@b.co";
    ShortAddressMatches();
    MatchesIsRegex(s);
    IndexOfUnique(s, '@', 1);
    assert NoRunLonger(s[2..], '.', MaxLabelLength);
    assert WellFormedAddress(s);
  }

  /** A string without `@` is rejected. */
  lemma RejectsWithoutAt(email: string)
    requires '@' !in email
    ensures !IsValidEmail(email)
  {
  }
}
