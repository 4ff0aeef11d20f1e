# Blogging backend core, modelled in Dafny

A model of the logic of a small Spring blogging backend:

- the **live-session registry** (`WebSocketService`): a set of WebSocket
  sessions with add and remove, and `sendMessageToAll`, which tries the text
  on every registered session that reports itself open and swallows each
  per-session failure;
- the **lifecycle handler** (`CustomWebSocketHandler`): connect registers the
  session, an inbound text is echoed to everyone (the sender included), close
  unregisters it;
- the **post write path** (`PostService`): create stamps the post, saves it and
  then broadcasts `"New post was created "` (trailing space as the code writes
  it); edit overwrites title and content; delete removes one post; edit and
  delete fail on a missing id and never broadcast; the per-user listing passes
  a subscription check that always admits;
- the **account checks** (`PasswordValidator`, `UserController`,
  `UserService`): the password and email patterns as predicates on strings,
  the ordered checks of user creation ending in a save, and login by exact
  email and password match.

Files, one module each: `common.dfy` (Option, Result), `websocket_service.dfy`
(`Registry`), `websocket_handler.dfy` (`Handler`), `post_service.dfy`
(`Posts`), `java_regex.dfy` (`JavaRegex`: line terminators, which Java's `.`
refuses), `password_validator.dfy` (`Passwords`), `user_service.dfy`
(`Users`), `user_controller.dfy` (`UserApi`).

How the outside world enters the model:

- The transport is a value `Transport(open, failing)`: the sessions whose
  `isOpen()` answers true, and those whose `sendMessage` would throw. Every
  send is logged in the service's `outbox` as a `SendAttempt(session, text,
  delivered)`, so the contracts can say who was tried, with what, and who was
  reached.
- `LocalDateTime.now()` is the parameter `now` of `CreatePost`.
- A repository `save` that throws is the parameter `saveFails` of
  `CreatePost`; then nothing is stored and nothing is broadcast.
- The post repository is a `map<PostId, Post>`. The user repository is a
  `map<string, User>` keyed by the unique email column; its NOT NULL and
  UNIQUE constraints (`entities/User.java:15-25`) make `save` fail with
  `ConstraintViolation`, which the controller answers with 500 (Spring's
  default for an escaping exception).
- `isValidEmail` and `isValidPassword` are specified by the language their
  pattern accepts under `matches()` (a ghost predicate), and the executable
  scan is proved to decide exactly that language.
- Taking an already used email answers 400 "Email is already taken.", as the
  code does; the endpoint's own API annotation documents 401 for that case.

## Model

| member | source | states |
|---|---|---|
| Registry.WebSocketService.constructor | demo/src/main/java/com/example/demo/services/WebSocketService.java:13 | the registry starts empty and nothing has been sent |
| Registry.WebSocketService.AddSession | demo/src/main/java/com/example/demo/services/WebSocketService.java:15-17 | the new set is the old set plus the session; adding a present session changes nothing |
| Registry.WebSocketService.RemoveSession | demo/src/main/java/com/example/demo/services/WebSocketService.java:19-21 | the session is gone and every other session stays; removing an absent session is a no-op |
| Registry.WebSocketService.SendMessageToAll | demo/src/main/java/com/example/demo/services/WebSocketService.java:23-33 | the registry is unchanged, earlier log entries are kept, and the new entries are one broadcast: the text unchanged, once to each registered open session and to nothing else, delivered unless that session's send fails |
| Registry.BroadcastAttemptsEachOpenSessionOnce | demo/src/main/java/com/example/demo/services/WebSocketService.java:24-28 | a broadcast makes exactly as many attempts as there are registered open sessions |
| Registry.BroadcastReachesAllButFailing | demo/src/main/java/com/example/demo/services/WebSocketService.java:24-32 | the sessions reached are exactly the registered open ones whose send does not fail: one failure never stops the others |
| Registry.BroadcastSkipsClosedAndUnregistered | demo/src/main/java/com/example/demo/services/WebSocketService.java:26-27 | a closed or unregistered session is never tried, and every try carries the message verbatim |
| Registry.MixedOpenBroadcast | demo/src/main/java/com/example/demo/services/WebSocketService.java:23-33 | with A and C open and B closed, a broadcast reaches A and C only, with two attempts |
| Handler.CustomWebSocketHandler.constructor | demo/src/main/java/com/example/demo/configuration/CustomWebSocketHandler.java:12-13 | the handler works on the one injected registry |
| Handler.CustomWebSocketHandler.AfterConnectionEstablished | demo/src/main/java/com/example/demo/configuration/CustomWebSocketHandler.java:16-19 | the connected session is in the registry, which changes as `Step` says for a connect |
| Handler.CustomWebSocketHandler.HandleTextMessage | demo/src/main/java/com/example/demo/configuration/CustomWebSocketHandler.java:22-24 | the registry is unchanged and the text is broadcast verbatim; a registered open sender is tried with its own message |
| Handler.CustomWebSocketHandler.AfterConnectionClosed | demo/src/main/java/com/example/demo/configuration/CustomWebSocketHandler.java:27-30 | the closed session is no longer in the registry, whether or not it was there |
| Handler.ReplayLastOperationWins | demo/src/main/java/com/example/demo/configuration/CustomWebSocketHandler.java:16-30 | after any sequence of events a session is registered iff its last connect/close was a connect, or it had none and was registered before |
| Handler.CloseIsIdempotent | demo/src/main/java/com/example/demo/configuration/CustomWebSocketHandler.java:27-28 | a second close leaves the registry as the first did |
| Handler.MessagesDoNotChangeRegistry | demo/src/main/java/com/example/demo/configuration/CustomWebSocketHandler.java:22-24 | dropping all text-message events from a sequence yields the same registry |
| Handler.EchoReachesSender | demo/src/main/java/com/example/demo/configuration/CustomWebSocketHandler.java:22-23 | when X sends "hello" with X, Y, Z open, all three, X included, receive "hello" |
| Posts.PostService.constructor | demo/src/main/java/com/example/demo/services/PostService.java:27-32 | the service starts over an empty table and the injected broadcaster |
| Posts.PostService.CreatePost | demo/src/main/java/com/example/demo/services/PostService.java:34-46 | on success the returned post is the input with `createdAt = now` and an id (the given one, or one not in use), it is what the table now holds under that id, and exactly one broadcast of "New post was created " follows; a failed save stores and broadcasts nothing |
| Posts.PostService.EditPost | demo/src/main/java/com/example/demo/services/PostService.java:48-64 | a missing id fails with PostNotFound and changes nothing; otherwise only title and content are replaced, id, author and createdAt kept, and nothing is broadcast |
| Posts.PostService.DeletePost | demo/src/main/java/com/example/demo/services/PostService.java:66-77 | succeeds iff the id is stored; removes exactly that entry, every other post untouched; a missing id fails with PostNotFound and nothing is broadcast |
| Posts.PostService.GetUserPostsIfSubscribed | demo/src/main/java/com/example/demo/services/PostService.java:79-96 | the result holds exactly the stored posts whose author is the user: the subscription check (`CheckSubscription`, lines 93-96, folded into this row) admits every user, so the empty-list branch is never taken |
| Posts.UnusedIdExists | demo/src/main/java/com/example/demo/services/PostService.java:38 | a finite table always leaves an id free for `save` to assign |
| Posts.SavedPostIsListed | demo/src/main/java/com/example/demo/services/PostService.java:38-45 | a created post appears under its id in its author's listing, the rest of the listing unchanged |
| Posts.DeletedPostIsUnlisted | demo/src/main/java/com/example/demo/services/PostService.java:66-77 | deleting a post removes it from every author's listing and removes nothing else |
| Posts.EditKeepsListing | demo/src/main/java/com/example/demo/services/PostService.java:57-60 | editing never moves a post into or out of any author's listing |
| JavaRegex.NoLineTerminator | demo/src/main/java/com/example/demo/utils/PasswordValidator.java:6 | true iff no character is one of Java's five line terminators |
| Passwords.Contains | demo/src/main/java/com/example/demo/utils/PasswordValidator.java:6 | true iff some character lies in the given class |
| Passwords.IsValidPassword | demo/src/main/java/com/example/demo/utils/PasswordValidator.java:4-7 | true iff the password is non-null and the whole of it matches the lookahead pattern |
| Passwords.ShortPasswordsRejected | demo/src/main/java/com/example/demo/utils/PasswordValidator.java:5 | null and passwords under eight characters are rejected |
| Passwords.AcceptedPasswordHasEveryClass | demo/src/main/java/com/example/demo/utils/PasswordValidator.java:6 | an accepted password has a digit, a lower-case and an upper-case letter and one of `@#$%^&+=!`, and eight or more characters |
| Passwords.LineTerminatorRejected | demo/src/main/java/com/example/demo/utils/PasswordValidator.java:6 | a password holding a line terminator is rejected |
| Passwords.WellFormedPasswordAccepted | demo/src/main/java/com/example/demo/utils/PasswordValidator.java:5-6 | every string of eight or more characters without line terminators holding all four classes is accepted |
| Passwords.SamplePasswordAccepted | demo/src/main/java/com/example/demo/utils/PasswordValidator.java:6 | "Passw0rd!" is accepted |
| Passwords.SampleWithoutUpperRejected | demo/src/main/java/com/example/demo/utils/PasswordValidator.java:6 | "password0!" is rejected for lack of an upper-case letter |
| Passwords.SampleWithNewlineRejected | demo/src/main/java/com/example/demo/utils/PasswordValidator.java:6 | "Passw0rd!" followed by a newline is rejected |
| UserApi.LocalPartLength | demo/src/main/java/com/example/demo/controllers/UserController.java:30 | the longest prefix in `[A-Za-z0-9+_.-]`: all of it in the class, the next character not |
| UserApi.IsValidEmail | demo/src/main/java/com/example/demo/controllers/UserController.java:83-85 | true iff the email is non-null and is a non-empty local run, `@`, and one or more non-line-terminator characters |
| UserApi.EmailSplitsAtFirstAt | demo/src/main/java/com/example/demo/controllers/UserController.java:30 | an accepted email's local part holds no `@`, so it splits at its first `@` |
| UserApi.EmailExamples | demo/src/main/java/com/example/demo/controllers/UserController.java:30 | "a@b@c" is accepted (further `@` in the domain); "@b", "a@" and null are not |
| UserApi.UserController.constructor | demo/src/main/java/com/example/demo/controllers/UserController.java:25-28 | the controller works on the injected user service |
| UserApi.UserController.CreateUser | demo/src/main/java/com/example/demo/controllers/UserController.java:45-60 | invalid email gives 400 "Invalid email format." before the password is looked at; then an invalid password gives 400 with the password message; then a taken email gives 400 "Email is already taken."; each leaves the store unchanged; only a request passing all three is saved, under the next identity value (which then advances by one), and answered 200 with the saved user; a row the database refuses answers 500 and changes nothing |
| UserApi.UserController.Login | demo/src/main/java/com/example/demo/controllers/UserController.java:73-81 | 401 "Invalid credentials" iff authentication yields null, otherwise 200 with the authenticated user, whose stored password equals the one given |
| Users.UserService.constructor | demo/src/main/java/com/example/demo/services/UserService.java:13-16 | the service starts over an empty users table |
| Users.UserService.ExistsByEmail | demo/src/main/java/com/example/demo/services/UserService.java:19-21 | true iff some stored user has exactly this email |
| Users.UserService.AuthenticateByEmail | demo/src/main/java/com/example/demo/services/UserService.java:29-35 | returns the stored user with this email when its password equals the given one exactly; null iff no stored user has both this email and this password; reads the store only |
| Users.UserService.CreateUser | demo/src/main/java/com/example/demo/services/UserService.java:24-26 | saves the user under the next identity value, which then advances by one, after which the email exists and its credentials authenticate; a row the table's constraints refuse leaves the service entirely unchanged |

## Left out

- `PostService.generatePostsReport`: builds a spreadsheet with Apache POI and writes it to a file; library I/O with no logic of its own.
- Concurrency: the registry is a `Collections.synchronizedSet`; the model runs every add, remove and broadcast sequentially, and `Handler.ReplayLastOperationWins` covers every order in which events can be serialised.
- Registry.WebSocketService.SendMessageToAll: only `sendMessage` may fail; an `isOpen()` that throws (also caught in the source) is not modelled, and broadcast order among sessions is left unspecified.
- The real transport, `TextMessage` framing and `CloseStatus`: a session is an id, its state a `Transport` value.
- `LocalDateTime.now()`: passed in as `now`.
- `PostController`, `SubscriptionController`, `SubscriptionService`, `PostWebSocketController`: exception-to-500 mapping and pass-throughs without logic of their own.
- Posts.PostService.CreatePost: JPA `save` of a post that already has an id is modelled as a write under that id; Hibernate's handling of an id that is not in the table is not modelled.
- Posts.PostService.EditPost and Posts.PostService.DeletePost: a repository that throws during the save or delete itself is not modelled; only the missing-id failure is.
- Users.UserService.CreateUser: a client-supplied user id is ignored (the row is always inserted with the next identity value) rather than merged into an existing row.
- `entities/Post.java` is not part of this model: the post's fields (id, title, content, author id, creation time) are taken from how `PostService` uses them, and title and content are never null in the model.
- Column lengths of the users table: database constraints that no shown code enforces.
- Logging, `System.out`, `printStackTrace`, Swagger annotations.
- String length: Java's `length()` counts UTF-16 units while the model counts Unicode scalar values; `.{8,}` counts code points, so the pattern already decides the eight-character rule and the two agree.
- The Java regex engine itself: the two patterns are specified by the languages they accept.
