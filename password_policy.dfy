/**
 * The password-strength regular expression shared by the registration
 * route and the registration page:
 *
 *   ^(?=.*[a-z])(?=.*[A-Z])(?=.*\d)(?=.*[@$!%*?&])[A-Za-z\d@$!%*?&]{8,}$
 *
 * `Matches` follows the expression's structure (four look-aheads, each
 * `.*` followed by one class, then a repeated class anchored at both
 * ends); `MeetsPolicy` is the rule in words.  They agree on every string.
 */
module PasswordPolicy {

  const MIN_LENGTH: nat := 8

  predicate IsLower(c: char) { 'a' <= c <= 'z' }
  predicate IsUpper(c: char) { 'A' <= c <= 'Z' }
  /** `\d` without the `u` flag: ASCII digits only. */
  predicate IsDigit(c: char) { '0' <= c <= '9' }
  predicate IsSpecial(c: char) { c in "@$!%*?&" }

  /** The class `[A-Za-z\d@$!%*?&]`. */
  predicate IsAllowed(c: char) { IsLower(c) || IsUpper(c) || IsDigit(c) || IsSpecial(c) }

  /** The characters `.` does not match (no `s` flag). */
  predicate IsLineTerminator(c: char)
  {
    c == '\n' || c == '\r' || c == '\U{2028}' || c == '\U{2029}'
  }

  datatype CharClass = Lower | Upper | Digit | Special

  predicate InClass(k: CharClass, c: char)
  {
    match k
    case Lower => IsLower(c)
    case Upper => IsUpper(c)
    case Digit => IsDigit(c)
    case Special => IsSpecial(c)
  }

  /** `(?=.*[k])` at the start of s: some run of non-terminators, then a character of class k. */
  predicate LookAhead(s: string, k: CharClass)
  {
    s != [] && (InClass(k, s[0]) || (!IsLineTerminator(s[0]) && LookAhead(s[1..], k)))
  }

  /** `[A-Za-z\d@$!%*?&]{n,}$` at the start of s. */
  predicate RepeatAllowed(s: string, n: nat)
  {
    if s == [] then n == 0
    else IsAllowed(s[0]) && RepeatAllowed(s[1..], if n == 0 then 0 else n - 1)
  }

  /** `passwordRegex.test(s)`. */
  predicate Matches(s: string)
  {
    LookAhead(s, Lower) && LookAhead(s, Upper) && LookAhead(s, Digit) && LookAhead(s, Special)
    && RepeatAllowed(s, MIN_LENGTH)
  }

  ghost predicate AllAllowed(s: string)
  {
    forall i :: 0 <= i < |s| ==> IsAllowed(s[i])
  }

  ghost predicate HasSome(s: string, k: CharClass)
  {
    exists i :: 0 <= i < |s| && InClass(k, s[i])
  }

  /** The policy in words: at least eight allowed characters, with a lower-case letter, an upper-case letter, a digit and a special character among them. */
  ghost predicate MeetsPolicy(s: string)
  {
    |s| >= MIN_LENGTH && AllAllowed(s)
    && HasSome(s, Lower) && HasSome(s, Upper) && HasSome(s, Digit) && HasSome(s, Special)
  }

  lemma {:induction false} RepeatAllowedMeaning(s: string, n: nat)
    ensures RepeatAllowed(s, n) <==> |s| >= n && AllAllowed(s)
  {
    if s != [] {
      RepeatAllowedMeaning(s[1..], if n == 0 then 0 else n - 1);
      assert forall i :: 1 <= i < |s| ==> s[i] == s[1..][i - 1];
    }
  }

  lemma {:induction false} LookAheadMeaning(s: string, k: CharClass)
    ensures LookAhead(s, k) ==> HasSome(s, k)
    ensures AllAllowed(s) ==> (LookAhead(s, k) <==> HasSome(s, k))
  {
    if s != [] {
      LookAheadMeaning(s[1..], k);
      assert forall i :: 1 <= i < |s| ==> s[i] == s[1..][i - 1];
      if LookAhead(s, k) && !InClass(k, s[0]) {
        var i :| 0 <= i < |s[1..]| && InClass(k, s[1..][i]);
        assert InClass(k, s[i + 1]);
      }
      if AllAllowed(s) {
        assert AllAllowed(s[1..]);
        assert !IsLineTerminator(s[0]);
        if HasSome(s, k) {
          var i :| 0 <= i < |s| && InClass(k, s[i]);
          if i > 0 {
            assert InClass(k, s[1..][i - 1]);
          }
        }
      }
    }
  }

  /** The regular expression accepts exactly the strings that meet the policy. */
  lemma RegexIsPolicy(s: string)
    ensures Matches(s) <==> MeetsPolicy(s)
  {
    RepeatAllowedMeaning(s, MIN_LENGTH);
    LookAheadMeaning(s, Lower);
    LookAheadMeaning(s, Upper);
    LookAheadMeaning(s, Digit);
    LookAheadMeaning(s, Special);
  }
}
