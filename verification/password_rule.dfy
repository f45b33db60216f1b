/** The password rule of the registration form.

    The form tests the password against the JavaScript regular expression
      ^(?=.*[a-z])(?=.*[A-Z])(?=.*\d)(?=.*[@$!%*?&])[A-Za-z\d@$!%*?&]{8,}$
    (no flags). This module states what that pattern accepts in two ways:
    `PatternMatches` follows the pattern's structure (four look-aheads whose
    `.*` cannot cross a line terminator, then an anchored body), and
    `StrongPassword` is the plain character-class rule. They are proved equal,
    and `Test` computes the verdict in one scan.
 */
module PasswordRule {

  /** The character classes the pattern mentions. `Body` is the class of the
      anchored repetition, `[A-Za-z\d@$!%*?&]`. */
  datatype CharClass = Lower | Upper | Digit | Symbol | Body

  const Symbols: string := "@$!%*?&"

  /** Every password needs at least this many characters (the `{8,}`). */
  const MinLength: nat := 8

  predicate InClass(c: char, k: CharClass)
  {
    match k
    case Lower => 'a' <= c <= 'z'
    case Upper => 'A' <= c <= 'Z'
    case Digit => '0' <= c <= '9'   // `\d` is ASCII-only in JavaScript
    case Symbol => c in Symbols
    case Body => 'a' <= c <= 'z' || 'A' <= c <= 'Z' || '0' <= c <= '9' || c in Symbols
  }

  /** The characters JavaScript's `.` refuses to match. */
  predicate IsLineTerminator(c: char)
  {
    c == '\n' || c == '\r' || c == '\U{2028}' || c == '\U{2029}'
  }

  /** `(?=.*[k])` tried at the start of `s`: some character of class `k`
      is reachable without crossing a line terminator. */
  predicate LookaheadFinds(s: string, k: CharClass)
  {
    exists i :: 0 <= i < |s| && InClass(s[i], k) && forall j :: 0 <= j < i ==> !IsLineTerminator(s[j])
  }

  /** `[A-Za-z\d@$!%*?&]{8,}$` tried at the start of `s` (no multiline flag,
      so `$` is the end of the input). */
  predicate BodyMatches(s: string)
  {
    |s| >= MinLength && forall i :: 0 <= i < |s| ==> InClass(s[i], Body)
  }

  /** The pattern's verdict, following its structure. `^` anchors every
      look-ahead and the body at position 0. */
  predicate PatternMatches(s: string)
  {
    && LookaheadFinds(s, Lower)
    && LookaheadFinds(s, Upper)
    && LookaheadFinds(s, Digit)
    && LookaheadFinds(s, Symbol)
    && BodyMatches(s)
  }

  predicate Contains(s: string, k: CharClass)
  {
    exists i :: 0 <= i < |s| && InClass(s[i], k)
  }

  /** The rule as a person would state it: at least eight characters, only
      letters, digits and `@$!%*?&`, and at least one of each of lower case,
      upper case, digit and symbol. */
  predicate StrongPassword(s: string)
  {
    && |s| >= MinLength
    && (forall i :: 0 <= i < |s| ==> InClass(s[i], Body))
    && Contains(s, Lower) && Contains(s, Upper) && Contains(s, Digit) && Contains(s, Symbol)
  }

  /** No character of the body class is a line terminator, so once the body
      matches, each look-ahead is a plain membership test. */
  lemma LookaheadIsContains(s: string, k: CharClass)
    requires forall i :: 0 <= i < |s| ==> InClass(s[i], Body)
    ensures LookaheadFinds(s, k) <==> Contains(s, k)
  {
    if Contains(s, k) {
      var i :| 0 <= i < |s| && InClass(s[i], k);
      assert forall j :: 0 <= j < i ==> InClass(s[j], Body);
      assert forall j :: 0 <= j < i ==> !IsLineTerminator(s[j]);
    }
  }

  /** The pattern accepts exactly the strong passwords. */
  lemma PatternIsCharClassRule(s: string)
    ensures PatternMatches(s) <==> StrongPassword(s)
  {
    if forall i :: 0 <= i < |s| ==> InClass(s[i], Body) {
      LookaheadIsContains(s, Lower);
      LookaheadIsContains(s, Upper);
      LookaheadIsContains(s, Digit);
      LookaheadIsContains(s, Symbol);
    }
  }

  /** `passwordPattern.test(s)`: one left-to-right scan that records which
      classes were seen and whether every character belongs to the body. */
  method Test(s: string) returns (ok: bool)
    ensures ok <==> PatternMatches(s)
  {
    var lower, upper, digit, symbol, allBody := false, false, false, false, true;
    var n := 0;
    while n < |s|
      invariant 0 <= n <= |s|
      invariant lower <==> exists i :: 0 <= i < n && InClass(s[i], Lower)
      invariant upper <==> exists i :: 0 <= i < n && InClass(s[i], Upper)
      invariant digit <==> exists i :: 0 <= i < n && InClass(s[i], Digit)
      invariant symbol <==> exists i :: 0 <= i < n && InClass(s[i], Symbol)
      invariant allBody <==> forall i :: 0 <= i < n ==> InClass(s[i], Body)
    {
      var c := s[n];
      lower := lower || InClass(c, Lower);
      upper := upper || InClass(c, Upper);
      digit := digit || InClass(c, Digit);
      symbol := symbol || InClass(c, Symbol);
      allBody := allBody && InClass(c, Body);
      n := n + 1;
    }
    ok := |s| >= MinLength && allBody && lower && upper && digit && symbol;
    PatternIsCharClassRule(s);
  }

  /** An accepted example: "Abcdef1!" has eight characters, all in
      the body class, with upper case, lower case, digit and symbol. */
  lemma AcceptsExample()
    ensures PatternMatches("Abcdef1!")
  {
    var s := "Abcdef1!";
    assert |s| == 8;
    forall i | 0 <= i < |s|
      ensures InClass(s[i], Body)
    {
      assert s[i] in "Abcdef1!";
    }
    assert InClass(s[1], Lower) && InClass(s[0], Upper) && InClass(s[6], Digit) && InClass(s[7], Symbol);
    PatternIsCharClassRule(s);
  }

  /** A rejected example: "abc" is too short. */
  lemma RejectsExample()
    ensures !PatternMatches("abc")
  {
  }
}
