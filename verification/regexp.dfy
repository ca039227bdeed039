/**
 * The fragment of JavaScript regular expressions that the contact form's
 * email pattern is written in: literal characters, character classes,
 * concatenation and the counted repetition `{min,}` (of which `+` is the
 * case `{1,}`), matched with or without the `i` flag. A pattern between
 * `^` and `$` (without the `m` flag) must match the whole string, so a
 * successful `test` of such a pattern is `Matches(p, s, ignoreCase)`.
 */
module RegExp {

  /** One `lo-hi` item of a character class; a single character `c` is `c-c`. */
  datatype CharRange = CharRange(lo: char, hi: char)

  datatype Pattern =
    | Lit(c: char)                      // a literal character, such as `@` or `\.`
    | Class(ranges: seq<CharRange>)     // `[...]`
    | Concat(left: Pattern, right: Pattern)
    | AtLeast(body: Pattern, min: nat)  // `body{min,}`; `body+` is `body{1,}`

  predicate IsAsciiLower(c: char) { 'a' <= c <= 'z' }

  predicate IsAsciiUpper(c: char) { 'A' <= c <= 'Z' }

  /**
   * The character a pattern compares instead of `c`. Without the `i` flag it
   * is `c` itself; with it (and without the `u` flag) ECMAScript upper-cases
   * `c`, except that a non-ASCII character is never mapped to an ASCII one.
   * Only the ASCII letters are mapped here.
   */
  function Canonicalize(c: char, ignoreCase: bool): (r: char)
    ensures !ignoreCase ==> r == c
    ensures ignoreCase ==> !IsAsciiLower(r)
    ensures ignoreCase && IsAsciiLower(c) ==> r as int - 'A' as int == c as int - 'a' as int
    ensures IsAsciiUpper(r) <==> IsAsciiUpper(c) || (ignoreCase && IsAsciiLower(c))
    ensures !IsAsciiLower(c) ==> r == c
  {
    if ignoreCase && IsAsciiLower(c) then (c as int - ('a' as int - 'A' as int)) as char else c
  }

  /**
   * A character class matches `c` when one of its members has the same
   * canonical character as `c`.
   */
  ghost predicate InClass(ranges: seq<CharRange>, c: char, ignoreCase: bool) {
    exists i, m :: 0 <= i < |ranges| && ranges[i].lo <= m <= ranges[i].hi &&
      Canonicalize(m, ignoreCase) == Canonicalize(c, ignoreCase)
  }

  ghost predicate AllInClass(ranges: seq<CharRange>, s: string, ignoreCase: bool) {
    forall i :: 0 <= i < |s| ==> InClass(ranges, s[i], ignoreCase)
  }

  /**
   * `p` matches exactly the whole of `s`. The backtracking matcher of
   * ECMAScript finds a match whenever one exists, and none of these
   * constructs captures or looks around, so existence is its meaning.
   */
  ghost predicate Matches(p: Pattern, s: string, ignoreCase: bool)
    decreases p, |s|, 0
  {
    match p
    case Lit(c) => |s| == 1 && Canonicalize(c, ignoreCase) == Canonicalize(s[0], ignoreCase)
    case Class(ranges) => |s| == 1 && InClass(ranges, s[0], ignoreCase)
    case Concat(l, r) =>
      exists k :: 0 <= k <= |s| && Matches(l, s[..k], ignoreCase) && Matches(r, s[k..], ignoreCase)
    case AtLeast(body, min) => MatchesRepeat(body, min, s, ignoreCase)
  }

  /**
   * `body{min,}` matches the whole of `s`: the empty string when no more
   * iterations are owed (or `body` matches it), otherwise a non-empty first
   * iteration followed by `body{min-1,}`.
   */
  ghost predicate MatchesRepeat(body: Pattern, min: nat, s: string, ignoreCase: bool)
    decreases body, |s|, 1
  {
    if s == [] then min == 0 || Matches(body, [], ignoreCase)
    else
      exists k :: 0 < k <= |s| && Matches(body, s[..k], ignoreCase) &&
        MatchesRepeat(body, if min == 0 then 0 else min - 1, s[k..], ignoreCase)
  }

  /** `s` and `t` differ at most in the ASCII case of their letters. */
  predicate EqualIgnoringCase(s: string, t: string) {
    |s| == |t| && forall i :: 0 <= i < |s| ==> Canonicalize(s[i], true) == Canonicalize(t[i], true)
  }

  /** Under the `i` flag, no pattern can tell apart two strings that differ only in letter case. */
  lemma {:induction false} MatchesIgnoresCase(p: Pattern, s: string, t: string)
    requires EqualIgnoringCase(s, t)
    ensures Matches(p, s, true) <==> Matches(p, t, true)
    decreases p, |s|, 0
  {
    match p
    case Lit(c) =>
    case Class(ranges) =>
      if |s| == 1 {
        assert Canonicalize(s[0], true) == Canonicalize(t[0], true);
        if InClass(ranges, s[0], true) {
          var i, m :| 0 <= i < |ranges| && ranges[i].lo <= m <= ranges[i].hi &&
            Canonicalize(m, true) == Canonicalize(s[0], true);
          assert InClass(ranges, t[0], true);
        }
        if InClass(ranges, t[0], true) {
          var i, m :| 0 <= i < |ranges| && ranges[i].lo <= m <= ranges[i].hi &&
            Canonicalize(m, true) == Canonicalize(t[0], true);
          assert InClass(ranges, s[0], true);
        }
      }
    case Concat(l, r) =>
      forall k | 0 <= k <= |s|
        ensures Matches(l, s[..k], true) <==> Matches(l, t[..k], true)
        ensures Matches(r, s[k..], true) <==> Matches(r, t[k..], true)
      {
        MatchesIgnoresCase(l, s[..k], t[..k]);
        MatchesIgnoresCase(r, s[k..], t[k..]);
      }
    case AtLeast(body, min) =>
      RepeatIgnoresCase(body, min, s, t);
  }

  lemma {:induction false} RepeatIgnoresCase(body: Pattern, min: nat, s: string, t: string)
    requires EqualIgnoringCase(s, t)
    ensures MatchesRepeat(body, min, s, true) <==> MatchesRepeat(body, min, t, true)
    decreases body, |s|, 1
  {
    if s != [] {
      var rest := if min == 0 then 0 else min - 1;
      forall k | 0 < k <= |s|
        ensures Matches(body, s[..k], true) <==> Matches(body, t[..k], true)
        ensures MatchesRepeat(body, rest, s[k..], true) <==> MatchesRepeat(body, rest, t[k..], true)
      {
        MatchesIgnoresCase(body, s[..k], t[..k]);
        RepeatIgnoresCase(body, rest, s[k..], t[k..]);
      }
    }
  }

  /** `[...]{min,}` matches exactly the strings of at least `min` class members. */
  lemma {:induction false} RepeatClass(ranges: seq<CharRange>, min: nat, s: string, ignoreCase: bool)
    ensures MatchesRepeat(Class(ranges), min, s, ignoreCase) <==> |s| >= min && AllInClass(ranges, s, ignoreCase)
    decreases |s|
  {
    if s != [] {
      var rest := if min == 0 then 0 else min - 1;
      RepeatClass(ranges, rest, s[1..], ignoreCase);
      forall k | 0 < k <= |s| && Matches(Class(ranges), s[..k], ignoreCase)
        ensures k == 1
      {
        assert |s[..k]| == 1;
      }
      if MatchesRepeat(Class(ranges), min, s, ignoreCase) {
        var k :| 0 < k <= |s| && Matches(Class(ranges), s[..k], ignoreCase) &&
          MatchesRepeat(Class(ranges), rest, s[k..], ignoreCase);
        assert k == 1;
        assert InClass(ranges, s[..k][0], ignoreCase);
        forall i | 0 <= i < |s| ensures InClass(ranges, s[i], ignoreCase) {
          if i > 0 { assert s[i] == s[1..][i - 1]; }
        }
      }
      if |s| >= min && AllInClass(ranges, s, ignoreCase) {
        assert AllInClass(ranges, s[1..], ignoreCase) by {
          forall i | 0 <= i < |s[1..]| ensures InClass(ranges, s[1..][i], ignoreCase) {
            assert s[1..][i] == s[i + 1];
          }
        }
        assert s[..1][0] == s[0];
        assert Matches(Class(ranges), s[..1], ignoreCase);
      }
    }
  }

  /** A literal that is not a letter matches only itself, with or without the `i` flag. */
  lemma ConcatLit(c: char, rest: Pattern, s: string, ignoreCase: bool)
    requires !IsAsciiLower(c) && !IsAsciiUpper(c)
    ensures Matches(Concat(Lit(c), rest), s, ignoreCase) <==>
      |s| >= 1 && s[0] == c && Matches(rest, s[1..], ignoreCase)
  {
  }

  /** A concatenation led by `[...]{min,}` splits after at least `min` class members. */
  lemma ConcatRepeatClass(ranges: seq<CharRange>, min: nat, rest: Pattern, s: string, ignoreCase: bool)
    ensures Matches(Concat(AtLeast(Class(ranges), min), rest), s, ignoreCase) <==>
      exists k :: min <= k <= |s| && AllInClass(ranges, s[..k], ignoreCase) && Matches(rest, s[k..], ignoreCase)
  {
    forall k | 0 <= k <= |s|
      ensures Matches(AtLeast(Class(ranges), min), s[..k], ignoreCase) <==>
        k >= min && AllInClass(ranges, s[..k], ignoreCase)
    {
      RepeatClass(ranges, min, s[..k], ignoreCase);
    }
  }
}
