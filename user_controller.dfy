/** The account endpoints (controllers/UserController.java): the email
    pattern `^[A-Za-z0-9+_.-]+@(.+)$`, the ordered checks of user creation,
    and the outcome of a login. */
module UserApi {
  import opened Common
  import opened JavaRegex
  import opened Passwords
  import opened Users

  /** The body of an HTTP response. */
  datatype Body = Text(text: string) | UserJson(user: User) | NoBody

  datatype Response = Response(status: nat, body: Body)

  const InvalidEmailMessage: string := "Invalid email format."
  const WeakPasswordMessage: string :=
    "Password must contain at least 8 characters, including uppercase, lowercase, a number, and a special character."
  const EmailTakenMessage: string := "Email is already taken."
  const InvalidCredentialsMessage: string := "Invalid credentials"

  /** The class `[A-Za-z0-9+_.-]` of the local part. */
  predicate IsLocalChar(c: char)
  {
    || 'A' <= c <= 'Z' || 'a' <= c <= 'z' || '0' <= c <= '9'
    || c == '+' || c == '_' || c == '.' || c == '-'
  }

  /** The language of the email pattern under `Matcher.matches`: a non-empty
      run of local characters, an `@` at index `i`, then at least one
      character, none of them a line terminator. */
  ghost predicate SplitsAt(s: string, i: int)
  {
    && 0 < i < |s| - 1
    && s[i] == '@'
    && (forall j | 0 <= j < i :: IsLocalChar(s[j]))
    && (forall j | i < j < |s| :: !IsLineTerminator(s[j]))
  }

  ghost predicate MatchesEmailPattern(s: string)
  {
    exists i :: SplitsAt(s, i)
  }

  /** How many leading characters of `s` the local-part class accepts. */
  function LocalPartLength(s: string): (n: nat)
    ensures n <= |s|
    ensures forall j | 0 <= j < n :: IsLocalChar(s[j])
    ensures n < |s| ==> !IsLocalChar(s[n])
    decreases |s|
  {
    if s == [] || !IsLocalChar(s[0]) then 0
    else 1 + LocalPartLength(s[1..])
  }

  /** `isValidEmail`: false for null, otherwise whether the pattern matches
      the whole address. */
  function IsValidEmail(email: Option<string>): (ok: bool)
    ensures ok <==> email.Some? && MatchesEmailPattern(email.value)
  {
    if email.None? then false
    else
      var s := email.value;
      var n := LocalPartLength(s);
      var ok := 0 < n < |s| - 1 && s[n] == '@' && NoLineTerminator(s[n + 1..]);
      assert ok ==> SplitsAt(s, n) by {
        if ok {
          forall j | n < j < |s| ensures !IsLineTerminator(s[j]) {
            assert s[j] == s[n + 1..][j - n - 1];
          }
        }
      }
      assert MatchesEmailPattern(s) ==> ok by {
        if MatchesEmailPattern(s) {
          var i :| SplitsAt(s, i);
          assert !IsLocalChar(s[i]);
          assert n == i;
          var domain := s[n + 1..];
          forall j | 0 <= j < |domain| ensures !IsLineTerminator(domain[j]) {
            assert domain[j] == s[n + 1 + j];
          }
        }
      }
      ok
  }

  /** The local part cannot hold `@`, so an accepted address splits at its
      first `@`; the domain may hold further ones. */
  lemma EmailSplitsAtFirstAt(s: string)
    requires IsValidEmail(Some(s))
    ensures exists i | 0 < i < |s| - 1 :: s[i] == '@' && '@' !in s[..i]
  {
  }

  /** Three sample addresses: a second `@` in the domain is accepted, an
      empty local part and an empty domain are not. */
  lemma EmailExamples()
    ensures IsValidEmail(Some("a@b@c"))
    ensures !IsValidEmail(Some("@b"))
    ensures !IsValidEmail(Some("a@"))
    ensures !IsValidEmail(None)
  {
  }

  class UserController {
    const userService: UserService

    constructor (userService: UserService)
      ensures this.userService == userService
    {
      this.userService := userService;
    }

    /** `createUser`: the email is checked first, then the password, then
        whether the email is taken; each failure answers 400 with its own
        message and leaves the store alone. Only a request passing all three
        is saved; a row the database refuses answers 500. */
    method CreateUser(user: User) returns (r: Response)
      requires userService.Valid()
      modifies userService
      ensures userService.Valid()
      ensures !IsValidEmail(user.email) ==>
                r == Response(400, Text(InvalidEmailMessage)) && unchanged(userService)
      ensures IsValidEmail(user.email) && !IsValidPassword(user.password) ==>
                r == Response(400, Text(WeakPasswordMessage)) && unchanged(userService)
      ensures IsValidEmail(user.email) && IsValidPassword(user.password)
              && old(userService.ExistsByEmail(user.email.value)) ==>
                r == Response(400, Text(EmailTakenMessage)) && unchanged(userService)
      ensures IsValidEmail(user.email) && IsValidPassword(user.password)
              && !old(userService.ExistsByEmail(user.email.value)) ==>
                if Storable(user) then
                  && r == Response(200, UserJson(user.(id := Some(old(userService.nextId)))))
                  && userService.users == old(userService.users)[user.email.value := r.body.user]
                  && userService.nextId == old(userService.nextId) + 1
                else
                  r == Response(500, NoBody) && unchanged(userService)
      ensures userService.users != old(userService.users) ==> r.status == 200
    {
      if !IsValidEmail(user.email) {
        return Response(400, Text(InvalidEmailMessage));
      }
      if !IsValidPassword(user.password) {
        return Response(400, Text(WeakPasswordMessage));
      }
      if userService.ExistsByEmail(user.email.value) {
        return Response(400, Text(EmailTakenMessage));
      }
      var created := userService.CreateUser(user);
      if created.Failure? {
        // the exception escapes the controller; Spring answers 500
        return Response(500, NoBody);
      }
      r := Response(200, UserJson(created.value));
    }

    /** `login`: 401 with "Invalid credentials" exactly when authentication
        yields null, otherwise 200 with the stored user. */
    method Login(loginRequest: User) returns (r: Response)
      requires userService.Valid()
      ensures var auth := userService.AuthenticateByEmail(loginRequest.email, loginRequest.password);
              && (r.status == 401 <==> auth.None?)
              && (auth.None? ==> r == Response(401, Text(InvalidCredentialsMessage)))
              && (auth.Some? ==> r == Response(200, UserJson(auth.value)))
      ensures r.status == 200 ==>
              && loginRequest.email.Some? && loginRequest.email.value in userService.users
              && userService.users[loginRequest.email.value].password == loginRequest.password
    {
      var loggedInUser := userService.AuthenticateByEmail(loginRequest.email, loginRequest.password);
      if loggedInUser.None? {
        return Response(401, Text(InvalidCredentialsMessage));
      }
      r := Response(200, UserJson(loggedInUser.value));
    }
  }
}
