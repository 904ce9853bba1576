/**
 * The two submission validators shared by api/waitlist.js and server.js:
 * the email pattern ^[^\s@]+@[^\s@]+\.[^\s@]+$, the handle pattern
 * ^[A-Za-z0-9_]{3,15}$, the leading-'@' strip, and the ASCII case folding
 * that the anchored case-insensitive handle lookup amounts to.
 */
module Validation {
  import opened Common

  /** JavaScript's \s: the ECMAScript WhiteSpace and LineTerminator characters. */
  predicate IsWhitespace(c: char)
  {
    || c == ' ' || c == '\t' || c == '\n' || c == '\U{B}' || c == '\U{C}' || c == '\r'
    || c == '\U{A0}' || c == '\U{1680}' || ('\U{2000}' <= c <= '\U{200A}')
    || c == '\U{2028}' || c == '\U{2029}' || c == '\U{202F}' || c == '\U{205F}'
    || c == '\U{3000}' || c == '\U{FEFF}'
  }

  /** One character of the class [^\s@]. */
  predicate AddressChar(c: char)
  {
    !IsWhitespace(c) && c != '@'
  }

  predicate AllAddressChars(s: string)
  {
    forall i :: 0 <= i < |s| ==> AddressChar(s[i])
  }

  /** The index of the first '@' in s, if any. */
  function FirstAt(s: string): (r: Option<nat>)
    ensures r.Some? ==> r.value < |s| && s[r.value] == '@'
    ensures r.Some? ==> forall j :: 0 <= j < r.value ==> s[j] != '@'
    ensures r.None? ==> forall j :: 0 <= j < |s| ==> s[j] != '@'
  {
    if s == [] then None
    else if s[0] == '@' then Some(0)
    else match FirstAt(s[1..])
      case None => None
      case Some(k) => Some(k + 1)
  }

  /**
   * The email check, read left to right: the first '@' is not the first
   * character, nothing before or after it is whitespace or another '@', and
   * some '.' after it is neither right after the '@' nor the last character.
   */
  predicate ValidEmail(s: string)
    ensures ValidEmail(s) ==> |s| >= 5 && s[0] != '@' && '@' in s
  {
    match FirstAt(s)
    case None => false
    case Some(at) =>
      && 0 < at
      && AllAddressChars(s[..at])
      && AllAddressChars(s[at + 1..])
      && exists dot :: at + 1 < dot < |s| - 1 && s[dot] == '.'
  }

  /**
   * The regular expression's own structure: s is L '@' X '.' Y for non-empty
   * runs L, X, Y of [^\s@], with the '@' at index at and the '.' at index dot.
   */
  ghost predicate EmailSplit(s: string, at: int, dot: int)
  {
    && 0 < at && at + 1 < dot && dot + 1 < |s|
    && s[at] == '@' && s[dot] == '.'
    && AllAddressChars(s[..at])
    && AllAddressChars(s[at + 1..dot])
    && AllAddressChars(s[dot + 1..])
  }

  ghost predicate MatchesEmailPattern(s: string)
  {
    exists at, dot :: EmailSplit(s, at, dot)
  }

  /** The email check accepts exactly the strings the regular expression matches. */
  lemma ValidEmailIffPattern(s: string)
    ensures ValidEmail(s) <==> MatchesEmailPattern(s)
  {
    if ValidEmail(s) {
      var at := FirstAt(s).value;
      var dot :| at + 1 < dot < |s| - 1 && s[dot] == '.';
      var domain, host, tld := s[at + 1..], s[at + 1..dot], s[dot + 1..];
      assert forall i :: 0 <= i < |host| ==> host[i] == domain[i];
      assert forall i :: 0 <= i < |tld| ==> tld[i] == domain[i + dot - at];
      assert EmailSplit(s, at, dot);
    }
    if MatchesEmailPattern(s) {
      var at, dot :| EmailSplit(s, at, dot);
      var local, domain, host, tld := s[..at], s[at + 1..], s[at + 1..dot], s[dot + 1..];
      assert forall j :: 0 <= j < at ==> s[j] == local[j];
      assert FirstAt(s) == Some(at);
      forall i | 0 <= i < |domain|
        ensures AddressChar(domain[i])
      {
        if i < |host| {
          assert domain[i] == host[i];
        } else if i > |host| {
          assert domain[i] == tld[i - (dot - at)];
        }
      }
      assert ValidEmail(s);
    }
  }

  /** A valid email has exactly one '@', no whitespace, and a non-empty local part. */
  lemma ValidEmailShape(s: string)
    requires ValidEmail(s)
    ensures exists at :: 0 < at < |s| && s[at] == '@'
    ensures forall i, j :: 0 <= i < |s| && 0 <= j < |s| && s[i] == '@' && s[j] == '@' ==> i == j
    ensures forall i :: 0 <= i < |s| ==> !IsWhitespace(s[i])
  {
    var at := FirstAt(s).value;
    forall i | 0 <= i < |s| && i != at
      ensures AddressChar(s[i])
    {
      if i < at {
        assert s[i] == s[..at][i];
      } else {
        assert s[i] == s[at + 1..][i - (at + 1)];
      }
    }
  }

  /** One character of the class [A-Za-z0-9_]. */
  predicate HandleChar(c: char)
  {
    ('A' <= c <= 'Z') || ('a' <= c <= 'z') || ('0' <= c <= '9') || c == '_'
  }

  /** ^[A-Za-z0-9_]{3,15}$ */
  predicate ValidUsername(u: string)
    ensures ValidUsername(u) ==> 3 <= |u| <= 15 && u[0] != '@' && forall i :: 0 <= i < |u| ==> !IsWhitespace(u[i])
  {
    3 <= |u| <= 15 && forall i :: 0 <= i < |u| ==> HandleChar(u[i])
  }

  /** Removes one leading '@', as both handlers do after validation. */
  function StripAt(u: string): (r: string)
    ensures u == r || u == ['@'] + r
    ensures |u| > 0 && u[0] == '@' <==> |r| < |u|
  {
    if |u| > 0 && u[0] == '@' then u[1..] else u
  }

  /** The strip never fires: a username that passed validation cannot start with '@'. */
  lemma StripAtIsIdentityOnValid(u: string)
    requires ValidUsername(u)
    ensures StripAt(u) == u
    ensures ValidUsername(StripAt(u))
  {
    assert !HandleChar('@');
  }

  /** ASCII upper case folded to lower case; every other character is left alone. */
  function FoldCase(c: char): char
  {
    if 'A' <= c <= 'Z' then (c as int + 32) as char else c
  }

  /**
   * The stored handle matches /^handle$/i. For a pattern made of [A-Za-z0-9_]
   * and a stored handle made of the same characters, which are the only
   * handles admission stores, this is equality after ASCII case folding.
   */
  predicate EqualsIgnoreCase(a: string, b: string)
    ensures a == b ==> EqualsIgnoreCase(a, b)
    ensures EqualsIgnoreCase(a, b) ==> |a| == |b|
  {
    |a| == |b| && forall i :: 0 <= i < |a| ==> FoldCase(a[i]) == FoldCase(b[i])
  }

  /** Case-insensitive equality is an equivalence, so "already taken" is symmetric. */
  lemma EqualsIgnoreCaseIsEquivalence(a: string, b: string, c: string)
    ensures EqualsIgnoreCase(a, a)
    ensures EqualsIgnoreCase(a, b) ==> EqualsIgnoreCase(b, a)
    ensures EqualsIgnoreCase(a, b) && EqualsIgnoreCase(b, c) ==> EqualsIgnoreCase(a, c)
  {
  }

  /** x and y are the upper- and lower-case forms of one ASCII letter. */
  predicate CaseVariants(x: char, y: char)
  {
    || ('A' <= x <= 'Z' && y as int == x as int + 32)
    || ('A' <= y <= 'Z' && x as int == y as int + 32)
  }

  /** Two handle characters match under the 'i' flag exactly when they are equal or case variants. */
  lemma FoldCaseOnHandleChars(x: char, y: char)
    requires HandleChar(x) && HandleChar(y)
    ensures FoldCase(x) == FoldCase(y) <==> x == y || CaseVariants(x, y)
  {
  }

  /** Two valid handles collide exactly when they differ only in the case of their letters. */
  lemma EqualsIgnoreCaseOnHandles(a: string, b: string)
    requires ValidUsername(a) && ValidUsername(b)
    ensures EqualsIgnoreCase(a, b) <==>
      |a| == |b| && forall i :: 0 <= i < |a| ==> a[i] == b[i] || CaseVariants(a[i], b[i])
  {
    if |a| == |b| {
      forall i | 0 <= i < |a|
        ensures FoldCase(a[i]) == FoldCase(b[i]) <==> a[i] == b[i] || CaseVariants(a[i], b[i])
      {
        assert HandleChar(a[i]) && HandleChar(b[i]);
        FoldCaseOnHandleChars(a[i], b[i]);
      }
    }
  }
}
