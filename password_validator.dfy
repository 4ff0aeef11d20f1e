/** The password policy (utils/PasswordValidator.java): the pattern
    `(?=.*[0-9])(?=.*[a-z])(?=.*[A-Z])(?=.*[@#$%^&+=!]).{8,}` matched against
    the whole password, after a null and length check. */
module Passwords {
  import opened Common
  import opened JavaRegex

  /** The four character classes the lookaheads ask for. */
  datatype CharClass = Digit | Lower | Upper | Special

  predicate InClass(c: char, k: CharClass)
  {
    match k
    case Digit => '0' <= c <= '9'
    case Lower => 'a' <= c <= 'z'
    case Upper => 'A' <= c <= 'Z'
    case Special => c in "@#$%^&+=!"
  }

  /** Some character of `s` is in class `k`. */
  ghost predicate HasClass(s: string, k: CharClass)
  {
    exists i | 0 <= i < |s| :: InClass(s[i], k)
  }

  /** `(?=.*[k])` at the start of the input: some character of class `k`
      is preceded only by characters `.` accepts. */
  ghost predicate LookaheadFinds(s: string, k: CharClass)
  {
    exists i | 0 <= i < |s| :: InClass(s[i], k) && forall j | 0 <= j < i :: !IsLineTerminator(s[j])
  }

  /** `.{n,}` consuming the whole input. */
  ghost predicate DotsAtLeast(s: string, n: nat)
  {
    |s| >= n && forall i | 0 <= i < |s| :: !IsLineTerminator(s[i])
  }

  /** The language of the password pattern under `String.matches`. */
  ghost predicate MatchesPasswordPattern(s: string)
  {
    && LookaheadFinds(s, Digit)
    && LookaheadFinds(s, Lower)
    && LookaheadFinds(s, Upper)
    && LookaheadFinds(s, Special)
    && DotsAtLeast(s, 8)
  }

  /** The scan that decides `HasClass`. */
  function Contains(s: string, k: CharClass): (b: bool)
    ensures b <==> HasClass(s, k)
    decreases |s|
  {
    if s == [] then false
    else
      var rest := Contains(s[1..], k);
      assert rest ==> exists i | 0 <= i < |s| :: InClass(s[i], k) by {
        if rest {
          var i :| 0 <= i < |s[1..]| && InClass(s[1..][i], k);
          assert s[i + 1] == s[1..][i];
        }
      }
      InClass(s[0], k) || rest
  }

  /** `isValidPassword`: false for null, false below eight characters,
      otherwise whether the pattern matches the whole password. */
  function IsValidPassword(password: Option<string>): (ok: bool)
    ensures ok <==> password.Some? && MatchesPasswordPattern(password.value)
  {
    if password.None? || |password.value| < 8 then false
    else
      var s := password.value;
      && NoLineTerminator(s)
      && Contains(s, Digit) && Contains(s, Lower) && Contains(s, Upper) && Contains(s, Special)
  }

  /** A null password and a password under eight characters are rejected. */
  lemma ShortPasswordsRejected(s: string)
    requires |s| < 8
    ensures !IsValidPassword(None) && !IsValidPassword(Some(s))
  {
  }

  /** An accepted password has a digit, a lower-case letter, an upper-case
      letter and one of `@#$%^&+=!`, and is at least eight characters long. */
  lemma AcceptedPasswordHasEveryClass(s: string, k: CharClass)
    requires IsValidPassword(Some(s))
    ensures |s| >= 8
    ensures HasClass(s, k)
  {
  }

  /** A password holding a line terminator is rejected: `.{8,}` cannot cross it. */
  lemma LineTerminatorRejected(s: string, i: nat)
    requires i < |s| && IsLineTerminator(s[i])
    ensures !IsValidPassword(Some(s))
  {
  }

  /** Conversely, every string of at least eight characters without line
      terminators that holds all four classes is accepted. */
  lemma WellFormedPasswordAccepted(s: string)
    requires |s| >= 8
    requires forall i | 0 <= i < |s| :: !IsLineTerminator(s[i])
    requires forall k: CharClass :: HasClass(s, k)
    ensures IsValidPassword(Some(s))
  {
  }

  /** A password meeting every rule is accepted. */
  lemma SamplePasswordAccepted()
    ensures IsValidPassword(Some("Passw0rd!"))
  {
    var s := "Passw0rd!";
    assert InClass(s[5], Digit) && InClass(s[1], Lower) && InClass(s[0], Upper) && InClass(s[8], Special);
    assert forall k: CharClass :: HasClass(s, k);
    WellFormedPasswordAccepted(s);
  }

  /** A password without an upper-case letter is rejected. */
  lemma SampleWithoutUpperRejected()
    ensures !IsValidPassword(Some("password0!"))
  {
    var s := "password0!";
    assert !HasClass(s, Upper) by {
      forall i | 0 <= i < |s| ensures !InClass(s[i], Upper) { }
    }
  }

  /** A trailing newline makes an otherwise valid password invalid. */
  lemma SampleWithNewlineRejected()
    ensures !IsValidPassword(Some("Passw0rd!\n"))
  {
    LineTerminatorRejected("Passw0rd!\n", 9);
  }
}
