/** `PasswordHelper.password_strong?`: the advisory strength test for a new password. */
module PasswordHelper {

  /** The one-character regular expressions the test matches against. */
  datatype CharClass = Upper | Lower | Digit | NonAlphanumeric

  /** `[A-Z]`, `[a-z]`, `[0-9]` and `[^A-Za-z0-9]`: ASCII ranges only. */
  predicate InClass(c: char, cls: CharClass) {
    match cls
    case Upper => 'A' <= c <= 'Z'
    case Lower => 'a' <= c <= 'z'
    case Digit => '0' <= c <= '9'
    case NonAlphanumeric => !('A' <= c <= 'Z' || 'a' <= c <= 'z' || '0' <= c <= '9')
  }

  /** `password.match(/[...]/)`: scans for a character of the class. */
  predicate Matches(p: string, cls: CharClass) {
    p != [] && (InClass(p[0], cls) || Matches(p[1..], cls))
  }

  /** The scan succeeds exactly when some character of the string is in the class. */
  lemma {:induction false} MatchesIffSome(p: string, cls: CharClass)
    ensures Matches(p, cls) <==> exists i :: 0 <= i < |p| && InClass(p[i], cls)
  {
    if p != [] {
      MatchesIffSome(p[1..], cls);
      if exists i :: 0 <= i < |p| && InClass(p[i], cls) {
        var i :| 0 <= i < |p| && InClass(p[i], cls);
        if i > 0 {
          assert InClass(p[1..][i - 1], cls);
        }
      }
    }
  }

  /** The chain of early returns: length first, then upper, lower, digit, special. */
  predicate PasswordStrong(p: string) {
    if |p| < 8 then false
    else if !Matches(p, Upper) then false
    else if !Matches(p, Lower) then false
    else if !Matches(p, Digit) then false
    else if !Matches(p, NonAlphanumeric) then false
    else true
  }

  /** Some character of the string is in the class. */
  ghost predicate Has(p: string, cls: CharClass) {
    exists i :: 0 <= i < |p| && InClass(p[i], cls)
  }

  /**
   * The password is strong exactly when it has at least 8 characters and
   * at least one of each class; as a conjunction this does not depend on
   * the order the code runs the checks in.
   */
  lemma StrongIff(p: string)
    ensures PasswordStrong(p) <==>
      |p| >= 8 && Has(p, Digit) && Has(p, NonAlphanumeric) && Has(p, Lower) && Has(p, Upper)
  {
    MatchesIffSome(p, Upper);
    MatchesIffSome(p, Lower);
    MatchesIffSome(p, Digit);
    MatchesIffSome(p, NonAlphanumeric);
  }

  /** Fewer than 8 characters is never strong. */
  lemma ShortIsWeak(p: string)
    requires |p| < 8
    ensures !PasswordStrong(p)
  {
  }

  /** Without a character of any one class the password is not strong. */
  lemma MissingClassIsWeak(p: string, cls: CharClass)
    requires forall i :: 0 <= i < |p| ==> !InClass(p[i], cls)
    ensures !PasswordStrong(p)
  {
    StrongIff(p);
  }

  /** A character outside ASCII is never a letter or digit of the ASCII ranges: it is special. */
  lemma NonAsciiIsSpecial(c: char)
    requires c as int > 127
    ensures InClass(c, NonAlphanumeric)
  {
  }

  /**
   * Any non-ASCII character, such as a Hangul syllable, satisfies the
   * special-character check wherever it stands in the password.
   */
  lemma {:induction false} NonAsciiSatisfiesSpecial(p: string, i: int)
    requires 0 <= i < |p| && p[i] as int > 127
    ensures Matches(p, NonAlphanumeric)
  {
    NonAsciiIsSpecial(p[i]);
    MatchesIffSome(p, NonAlphanumeric);
  }

  /** For example, "Passw0rd한" is strong: '한' is its special character. */
  lemma HangulCountsAsSpecial()
    ensures PasswordStrong("Passw0rd한")
  {
    var p := "Passw0rd한";
    assert InClass(p[0], Upper) && InClass(p[1], Lower) && InClass(p[5], Digit) && InClass(p[8], NonAlphanumeric);
    StrongIff(p);
  }
}
