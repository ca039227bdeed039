/**
 * The email syntax check of the contact form: the pattern
 * `/^[A-Z0-9._%+-]+@[A-Z0-9.-]+\.[A-Z]{2,}$/i` written out as a `RegExp`
 * pattern, and a structural description of the same language (split at the
 * `@`, find the last `.` of the domain) that is proved to accept exactly the
 * strings the pattern accepts.
 */
module EmailSyntax {

  import opened Wrappers
  import opened RegExp

  // `[A-Z0-9._%+-]`, the characters of the part before the `@`
  const LocalClass: seq<CharRange> := [
    CharRange('A', 'Z'), CharRange('0', '9'), CharRange('.', '.'), CharRange('_', '_'),
    CharRange('%', '%'), CharRange('+', '+'), CharRange('-', '-')]

  // `[A-Z0-9.-]`, the characters of the part after the `@`
  const DomainClass: seq<CharRange> := [
    CharRange('A', 'Z'), CharRange('0', '9'), CharRange('.', '.'), CharRange('-', '-')]

  // `[A-Z]`
  const LetterClass: seq<CharRange> := [CharRange('A', 'Z')]

  // `\.[A-Z]{2,}`
  const TopLevelPattern := Concat(Lit('.'), AtLeast(Class(LetterClass), 2))

  // `[A-Z0-9.-]+\.[A-Z]{2,}`
  const DomainPattern := Concat(AtLeast(Class(DomainClass), 1), TopLevelPattern)

  // `@[A-Z0-9.-]+\.[A-Z]{2,}`
  const AtDomainPattern := Concat(Lit('@'), DomainPattern)

  // `[A-Z0-9._%+-]+@[A-Z0-9.-]+\.[A-Z]{2,}`; `^` and `$` make it span the whole string
  const EmailPattern := Concat(AtLeast(Class(LocalClass), 1), AtDomainPattern)

  // the `i` flag
  const EmailIgnoreCase := true

  /** What `test` of the email regular expression answers for `s`. */
  ghost predicate MatchesEmailRegex(s: string) {
    Matches(EmailPattern, s, EmailIgnoreCase)
  }

  predicate IsLetter(c: char) { IsAsciiUpper(c) || IsAsciiLower(c) }

  predicate IsDigit(c: char) { '0' <= c <= '9' }

  predicate IsLocalChar(c: char) {
    IsLetter(c) || IsDigit(c) || c == '.' || c == '_' || c == '%' || c == '+' || c == '-'
  }

  predicate IsDomainChar(c: char) {
    IsLetter(c) || IsDigit(c) || c == '.' || c == '-'
  }

  // ---------------------------------------------------------------------------
  // The structural description

  function Occurrences(s: string, c: char): (n: nat)
    ensures n <= |s|
    ensures n == 0 <==> c !in s
  {
    if s == [] then 0 else (if s[0] == c then 1 else 0) + Occurrences(s[1..], c)
  }

  function FirstIndex(s: string, c: char): (r: Option<nat>)
    ensures r.None? <==> c !in s
    ensures r.Some? ==> r.value < |s| && s[r.value] == c && c !in s[..r.value]
  {
    if s == [] then None
    else if s[0] == c then Some(0)
    else match FirstIndex(s[1..], c)
      case None => None
      case Some(i) => Some(i + 1)
  }

  function LastIndex(s: string, c: char): (r: Option<nat>)
    ensures r.None? <==> c !in s
    ensures r.Some? ==> r.value < |s| && s[r.value] == c && c !in s[r.value + 1..]
  {
    if s == [] then None
    else if s[|s| - 1] == c then Some(|s| - 1)
    else LastIndex(s[..|s| - 1], c)
  }

  /** The part before the `@`: non-empty, of letters, digits and `._%+-`. */
  predicate LocalPartOk(local: string) {
    |local| > 0 && forall c | c in local :: IsLocalChar(c)
  }

  /**
   * The part after the `@`: letters, digits, `.` and `-`, with a last `.`
   * that has something before it and two or more letters, and nothing else,
   * after it.
   */
  predicate DomainOk(domain: string) {
    (forall c | c in domain :: IsDomainChar(c)) &&
    match LastIndex(domain, '.')
    case None => false
    case Some(dot) => dot > 0 && |domain| - (dot + 1) >= 2 && forall c | c in domain[dot + 1..] :: IsLetter(c)
  }

  /** Exactly one `@`, with an acceptable part before it and after it. */
  predicate IsWellFormedEmail(s: string) {
    Occurrences(s, '@') == 1 &&
    match FirstIndex(s, '@')
    case None => false
    case Some(at) => LocalPartOk(s[..at]) && DomainOk(s[at + 1..])
  }

  // ---------------------------------------------------------------------------
  // The pattern, read piece by piece

  lemma LocalClassChars()
    ensures forall c :: InClass(LocalClass, c, true) <==> IsLocalChar(c)
  {
    forall c ensures InClass(LocalClass, c, true) <==> IsLocalChar(c) {
      if InClass(LocalClass, c, true) {
        var i, m :| 0 <= i < |LocalClass| && LocalClass[i].lo <= m <= LocalClass[i].hi &&
          Canonicalize(m, true) == Canonicalize(c, true);
      }
      if IsLocalChar(c) {
        var m := Canonicalize(c, true);
        var i := if IsLetter(c) then 0 else if IsDigit(c) then 1
          else if c == '.' then 2 else if c == '_' then 3
          else if c == '%' then 4 else if c == '+' then 5 else 6;
        assert LocalClass[i].lo <= m <= LocalClass[i].hi && Canonicalize(m, true) == m;
      }
    }
  }

  lemma DomainClassChars()
    ensures forall c :: InClass(DomainClass, c, true) <==> IsDomainChar(c)
  {
    forall c ensures InClass(DomainClass, c, true) <==> IsDomainChar(c) {
      if InClass(DomainClass, c, true) {
        var i, m :| 0 <= i < |DomainClass| && DomainClass[i].lo <= m <= DomainClass[i].hi &&
          Canonicalize(m, true) == Canonicalize(c, true);
      }
      if IsDomainChar(c) {
        var m := Canonicalize(c, true);
        var i := if IsLetter(c) then 0 else if IsDigit(c) then 1 else if c == '.' then 2 else 3;
        assert DomainClass[i].lo <= m <= DomainClass[i].hi && Canonicalize(m, true) == m;
      }
    }
  }

  lemma LetterClassChars()
    ensures forall c :: InClass(LetterClass, c, true) <==> IsLetter(c)
  {
    forall c ensures InClass(LetterClass, c, true) <==> IsLetter(c) {
      if InClass(LetterClass, c, true) {
        var i, m :| 0 <= i < |LetterClass| && LetterClass[i].lo <= m <= LetterClass[i].hi &&
          Canonicalize(m, true) == Canonicalize(c, true);
      }
      if IsLetter(c) {
        var m := Canonicalize(c, true);
        assert LetterClass[0].lo <= m <= LetterClass[0].hi && Canonicalize(m, true) == m;
      }
    }
  }

  /** `\.[A-Z]{2,}` matches a `.` followed by two or more letters. */
  lemma TopLevelMatch(u: string)
    ensures Matches(TopLevelPattern, u, true) <==>
      |u| >= 3 && u[0] == '.' && forall i :: 1 <= i < |u| ==> IsLetter(u[i])
  {
    ConcatLit('.', AtLeast(Class(LetterClass), 2), u, true);
    if |u| >= 1 {
      RepeatClass(LetterClass, 2, u[1..], true);
      LetterClassChars();
      assert forall i :: 1 <= i < |u| ==> u[i] == u[1..][i - 1];
    }
  }

  /** The domain splits at a `.` with domain characters before it and two or more letters after it. */
  ghost predicate DomainSplit(t: string, dot: int) {
    0 < dot && dot + 3 <= |t| && (forall i :: 0 <= i < dot ==> IsDomainChar(t[i])) &&
    t[dot] == '.' && forall i :: dot < i < |t| ==> IsLetter(t[i])
  }

  ghost predicate DomainShape(t: string) {
    exists dot :: DomainSplit(t, dot)
  }

  lemma DomainPatternMatch(t: string)
    ensures Matches(DomainPattern, t, true) <==> DomainShape(t)
  {
    ConcatRepeatClass(DomainClass, 1, TopLevelPattern, t, true);
    DomainClassChars();
    forall k | 1 <= k <= |t|
      ensures AllInClass(DomainClass, t[..k], true) && Matches(TopLevelPattern, t[k..], true) <==> DomainSplit(t, k)
    {
      TopLevelMatch(t[k..]);
      assert forall i :: 0 <= i < k ==> t[..k][i] == t[i];
      assert forall i :: k <= i < |t| ==> t[k..][i - k] == t[i];
    }
  }

  /** The email splits at an `@` with local characters before it and a split domain after it. */
  ghost predicate EmailSplit(s: string, at: int) {
    0 < at < |s| && (forall i :: 0 <= i < at ==> IsLocalChar(s[i])) && s[at] == '@' &&
    DomainShape(s[at + 1..])
  }

  lemma EmailPatternMatch(s: string)
    ensures MatchesEmailRegex(s) <==> exists at :: EmailSplit(s, at)
  {
    ConcatRepeatClass(LocalClass, 1, AtDomainPattern, s, true);
    LocalClassChars();
    forall k | 1 <= k <= |s|
      ensures AllInClass(LocalClass, s[..k], true) && Matches(AtDomainPattern, s[k..], true) <==> EmailSplit(s, k)
    {
      ConcatLit('@', DomainPattern, s[k..], true);
      if k < |s| {
        DomainPatternMatch(s[k..][1..]);
        assert s[k..][1..] == s[k + 1..];
      }
      assert forall i :: 0 <= i < k ==> s[..k][i] == s[i];
    }
  }

  // ---------------------------------------------------------------------------
  // The pattern and the structural description agree

  lemma {:induction false} OccurrencesSplit(s: string, k: nat, c: char)
    requires k <= |s|
    ensures Occurrences(s, c) == Occurrences(s[..k], c) + Occurrences(s[k..], c)
  {
    if k > 0 {
      OccurrencesSplit(s[1..], k - 1, c);
      assert s[1..][..k - 1] == s[..k][1..];
      assert s[1..][k - 1..] == s[k..];
    }
  }

  /** The split form of the domain is the one found at its last `.`. */
  lemma DomainShapeIsLastDot(t: string)
    ensures DomainShape(t) <==> DomainOk(t)
  {
    if DomainShape(t) {
      var dot :| DomainSplit(t, dot);
      assert forall i :: 0 <= i < |t| ==> IsDomainChar(t[i]);
      var last := LastIndex(t, '.');
      assert t[dot] == '.';
      assert last.Some?;
      assert last.value == dot;
      assert forall i :: dot < i < |t| ==> t[i] == t[dot + 1..][i - dot - 1];
    }
    if DomainOk(t) {
      var dot := LastIndex(t, '.').value;
      assert forall i :: 0 <= i < |t| ==> t[i] in t;
      assert forall i :: dot < i < |t| ==> t[i] == t[dot + 1..][i - dot - 1];
      assert DomainSplit(t, dot);
    }
  }

  /** An address split at an `@` has that `@` as its only one. */
  lemma EmailSplitOnlyAt(s: string, at: int)
    requires EmailSplit(s, at)
    ensures Occurrences(s, '@') == 1 && FirstIndex(s, '@') == Some(at)
  {
    var domain := s[at + 1..];
    var dot :| DomainSplit(domain, dot);
    assert forall i :: 0 <= i < |domain| ==> domain[i] != '@';
    assert forall i :: 0 <= i < at ==> s[..at][i] == s[i];
    OccurrencesSplit(s, at, '@');
    assert s[at..][1..] == domain;
  }

  /** The split form of the whole address is the one found at its only `@`. */
  lemma EmailSplitIsWellFormed(s: string)
    ensures (exists at :: EmailSplit(s, at)) <==> IsWellFormedEmail(s)
  {
    if at :| EmailSplit(s, at) {
      EmailSplitOnlyAt(s, at);
      DomainShapeIsLastDot(s[at + 1..]);
      assert forall i :: 0 <= i < at ==> s[..at][i] == s[i];
    }
    if IsWellFormedEmail(s) {
      var at := FirstIndex(s, '@').value;
      DomainShapeIsLastDot(s[at + 1..]);
      assert forall i :: 0 <= i < at ==> s[..at][i] == s[i] && s[i] in s[..at];
      assert EmailSplit(s, at);
    }
  }

  /**
   * The email regular expression accepts exactly the addresses with one `@`,
   * a non-empty part of letters, digits and `._%+-` before it, and after it
   * letters, digits, `.` and `-` whose last `.` has something before it and
   * two or more letters, and only letters, after it.
   */
  lemma EmailRegexCharacterisation(s: string)
    ensures MatchesEmailRegex(s) <==> IsWellFormedEmail(s)
  {
    EmailPatternMatch(s);
    EmailSplitIsWellFormed(s);
  }

  /** Changing the case of letters never changes whether an address matches. */
  lemma EmailRegexIgnoresCase(s: string, t: string)
    requires EqualIgnoringCase(s, t)
    ensures MatchesEmailRegex(s) <==> MatchesEmailRegex(t)
    ensures IsWellFormedEmail(s) <==> IsWellFormedEmail(t)
  {
    MatchesIgnoresCase(EmailPattern, s, t);
    EmailRegexCharacterisation(s);
    EmailRegexCharacterisation(t);
  }

  /** Addresses the pattern accepts, whatever the case of their letters. */
  lemma AcceptedExamples()
    ensures MatchesEmailRegex("J.D+x@b-c.IO")
    ensures MatchesEmailRegex("a@b.cd")
  {
    EmailPatternMatch("J.D+x@b-c.IO");
    assert DomainSplit("J.D+x@b-c.IO"[6..], 3);
    assert EmailSplit("J.D+x@b-c.IO", 5);
    EmailPatternMatch("a@b.cd");
    assert DomainSplit("a@b.cd"[2..], 1);
    assert EmailSplit("a@b.cd", 1);
  }

  /** A one-letter ending, an empty local part, an empty label before the last `.`. */
  lemma RejectedExamples()
    ensures !MatchesEmailRegex("a@b.c")
    ensures !MatchesEmailRegex("@b.cd")
    ensures !MatchesEmailRegex("a@.cd")
  {
    EmailPatternMatch("a@b.c");
    EmailPatternMatch("@b.cd");
    EmailPatternMatch("a@.cd");
  }

  /** A second `@` is rejected, wherever it stands. */
  lemma RejectedDoubleAt()
    ensures !MatchesEmailRegex("a@@b.cd")
  {
    EmailPatternMatch("a@@b.cd");
    assert !IsLocalChar("a@@b.cd"[1]);
    assert !IsDomainChar("a@@b.cd"[2..][0]);
  }

  /** A blank is not a local-part character. */
  lemma RejectedBlank()
    ensures !MatchesEmailRegex("a b@c.de")
  {
    EmailPatternMatch("a b@c.de");
    assert !IsLocalChar("a b@c.de"[1]);
  }
}
