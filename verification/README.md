# Authentication and password-reset controller, modelled in Dafny

The server registers users by email. It logs them in through a local
strategy whose identity field is the email, guards one protected page, and
lets users reset a forgotten password through a token mailed to them that
lives one hour. This project models that controller as a pure state machine
and proves what it promises.

- **`Email`** (`email.dfy`) is `validateEmail`: the pattern
  `^\w+([\.-]?\w+)*@\w+([\.-]?\w+)*(\.\w{2,3})+$` matched against the lower-cased
  input. It is written as a hand-made recogniser over `seq<char>`:
  - `Runs` reads word characters joined by single `.` or `-`;
  - `Host` is a run followed by `.` and a final label of 2–3 word characters.

  Three things are proved about it:
  - It is the same language as the pattern, with each group written out as a
    predicate (`AcceptsIsRegex`).
  - It matches a structural description, in both directions
    (`AcceptedShape`, `ShapeAccepted`).
  - Lower-casing never changes the verdict on ASCII text.
- **`Hex`** (`hex.dfy`) is the token encoding `buffer.toString("hex")`, with
  its decoder, a round-trip proof and injectivity.
- **`Users`** (`users.dfy`) is the User schema and its invariants:
  - `username` and `email` are required;
  - `email` is unique;
  - the reset token and its expiry are set and cleared together;
  - a stored token is 40 hex digits.

  It also holds the `findOne` lookups (first match in insertion order) and the
  local strategy's verdict, `Authenticate`.
- **`Controller`** (`controller.dfy`) has one pure transition per route:
  - the home, signup and login pages, which only render;
  - signup;
  - login, driven by the strategy's outcome `AuthOk | WrongPassword | UnknownUser | AuthError`;
  - logout;
  - the `isLoggedIn` gate;
  - reset request, taking the 20 random bytes as input;
  - reset-form lookup;
  - reset completion;
  - the reset-request page.

  `Serve` runs the read-once flash middleware before the route. The session
  is stored only when the answer is sent, so a request that is never
  answered leaves the stored session as it was.
- **`Properties`** (`properties.dfy`) relates routes and requests:
  - the fixed order of the checks, stated against an independent "first
    failing check" reference;
  - signup then login;
  - the one-hour, strictly bounded, single-use token;
  - the read-once flash, and the flash a request that is never answered
    leaves in place;
  - the queued messages that a render empties and that a completed reset
    never stores;
  - the gate before and after logout;
  - the store invariant over any run of requests.

`app.js` and `index.js` hold the same controller. The table cites `app.js`;
the `index.js` counterparts are:

| handler | `app.js` | `index.js` |
|---|---|---|
| flash middleware | 54-59 | 55-60 |
| signup | 103-147 | 108-149 |
| login | 154-209 | 161-209 |
| logout | 212-215 | 214-217 |
| reset request | 222-287 | 229-294 |
| reset-form lookup | 289-306 | 299-317 |
| reset completion | 308-368 | 322-380 |
| `isLoggedIn` | 374-379 | 385-388 |
| page renders | 78-92, 150-152, 218-220 | 84-103, 154-156, 222-224 |
| `validateEmail` | 95-101 | 393-397 |

Each pair applies the same pattern to the same lower-cased input and makes
the same checks in the same order. That is why one member models both files,
and why the two validators agree on every input.

Outcomes the source does not handle are explicit values, not invented
recoveries:
- `NoResponse`: signup when registration fails for any reason other than
  "user exists", so the request is never answered.
- `Crash`: reset completion with matching passwords when no user holds the
  token live, which dereferences the missing user. The exception is not
  caught, so the process ends and the in-memory session store with it; the
  browser is left with an empty session (`Controller.NoSession`).
- `ErrorHandler`: `next(err)`.

A completed reset ends the process as well. The record is written, the
browser is sent to the login page and the confirmation is mailed. Then the
final callback of the waterfall redirects a second time, after the answer
was already sent, and that call throws. The "password changed" message is
queued after the answer went out, so it is never stored and never shown
(`Properties.ChangedNoticeLost`).

The flash library wraps every render: the view receives all queued
messages and the queue is emptied. So the "email has been sent" message
reaches the reset-request page only when no other page is rendered first
(`Properties.MailSentShown`, `Properties.RenderDropsNotices`).

The source ignores the error from setting a new password. So when the hashing
library refuses the new password, the token is still spent, the old
credential stays, and the browser is still sent to the login page
(`Properties.SubmitResetIgnoresHashError`).

## Model

| member | source | states |
|---|---|---|
| `Email.LowerChar` | app.js:97 | lower-casing one character keeps it a word character, separator, `@` or `.` exactly when it was one, and leaves no upper-case letter |
| `Email.ToLower` | app.js:97 | `toLowerCase` on ASCII: same length, each character lower-cased in place |
| `Email.HostAt` | app.js:96 | the host is accepted iff at some split it is a word run, a `.`, then a 2–3 character word label |
| `Email.Accepts` | app.js:96 | the recogniser: the first `@` splits the input into a word run and a host that is a run, `.` and a 2–3 word-character label (a definition; its characterisation is `Email.AcceptsAt`) |
| `Email.AcceptsAt` | app.js:96 | accepted iff some `@` splits the input into a word-run local part and an accepted host |
| `Email.ValidateEmail` | app.js:95-101 | on ASCII input, testing the lower-cased input gives the same verdict as testing the input itself |
| `Email.SameClassesAccepts` | app.js:97 | two strings with the same character classes position by position get the same verdict |
| `Email.RunsIsJoined` | app.js:96 | the recogniser's run is exactly a non-empty sequence of word characters in which every `.` or `-` sits between two word characters |
| `Email.AcceptsIsRegex` | app.js:96 | the recogniser accepts exactly the strings the pattern matches, with each group of the pattern a separate predicate |
| `Email.AcceptedShape` | app.js:96 | every accepted address is local part, `@`, host; both are joined word runs, and the host is a joined run, `.`, and a 2–3 word-character label |
| `Email.ShapeAccepted` | app.js:96 | conversely, every address of that shape is accepted |
| `Email.OneAt` | app.js:96 | an accepted address contains exactly one `@` |
| `Email.RejectsWithoutAt` | app.js:95-101 | a string with no `@` is rejected |
| `Email.RejectsEmptyLocalPart` | app.js:95-101 | a string starting with `@` is rejected |
| `Email.RejectsBadTopLabel` | app.js:95-101 | a string whose text after its last `.` is not 2–3 word characters is rejected |
| `Email.ExampleShortAddress` | app.js:95-101 | `a@b.co` is accepted |
| `Email.ExampleDottedAddress` | app.js:95-101 | `a.b-c@d.e.org` is accepted |
| `Email.ExampleNoAt` | app.js:95-101 | `not-an-email` is rejected |
| `Email.ExampleEmptyLocalPart` | app.js:95-101 | `@missing-local.com` is rejected |
| `Email.ExampleShortTopLabel` | app.js:95-101 | `a@b.c` is rejected (one-character final label) |
| `Email.ExampleLongTopLabel` | app.js:95-101 | `a@b.info` is rejected (four-character final label) |
| `Hex.Encode` | app.js:228 | the hex text has two characters per byte, all lower-case hex digits |
| `Hex.Decode` | app.js:228 | a decoded byte string is half as long as the text |
| `Hex.DecodeEncode` | app.js:227-230 | decoding the encoding gives back the bytes |
| `Hex.EncodeInjective` | app.js:227-230 | different bytes give different tokens |
| `Users.ValidStore` | models/user.js:7-20 | the schema declares username and email required and email unique; the store invariant adds that token and expiry are set together and a token is 40 hex digits, which the routes maintain (app.js:244-245, 321-322) (a definition, kept by `Properties.RunPreserves`) |
| `Users.TokenLive` | app.js:291-294 | the token filter: the stored token equals the one presented and its expiry is strictly later than now (a definition) |
| `Users.FirstWhere` | app.js:235 | `findOne` returns the position of a matching record with no match before it, or nothing when no record matches |
| `Users.KeyedByEmail` | models/user.js:12-16 | with the unique index, looking up a user's email finds that user |
| `Users.UpdateKeepsUnique` | models/user.js:12-16 | rewriting a record without changing its email keeps emails unique |
| `Users.Authenticate` | app.js:65-67 | the strategy reports an unknown user iff no record has the email, and success only for the email given, when some record with it has a credential the verifier accepts; it never reports an error itself |
| `Users.AuthenticateKeyed` | models/user.js:22-26 | in a store with unique emails, authenticating a user's email succeeds or reports a wrong password according to that user's credential alone |
| `Users.AuthenticateOk` | models/user.js:22-26 | in a store with unique emails, authentication succeeds iff some user holds the email and the verifier accepts their credential |
| `Controller.Rendered` | app.js:51 | a render hands the view every queued message and empties the queue; nothing else changes |
| `Controller.SignUp` | app.js:103-147 | signup never authenticates the session, sends no mail, either leaves the users alone or appends one record after them, and keeps the store valid; when it never answers, nothing changes |
| `Controller.AppendValid` | models/user.js:7-20 | adding a complete record under an unused email keeps the store valid |
| `Controller.LogIn` | app.js:154-209 | login never changes the users; the session's user changes only on success, to the strategy's user, with a redirect to the protected page |
| `Controller.LogOut` | app.js:212-215 | logout clears the session's user, keeps the users and redirects home |
| `Controller.Gate` | app.js:374-379 | the protected page is rendered iff the session has a user, and the render empties the queued messages; otherwise the browser is sent to the login page and nothing changes |
| `Controller.Issue` | app.js:244-245 | a reset request keeps the account and credential, pairs token and expiry, and leaves the token live exactly until now + 3600000 |
| `Controller.RequestReset` | app.js:222-287 | a reset request leaves session user, usernames and emails alone, keeps the store valid (paired 40-digit token and expiry), and always returns to the reset page |
| `Controller.ShowResetForm` | app.js:289-306 | the form is rendered iff some record holds the token with a later expiry, and the render empties the queued messages; otherwise the "invalid or has expired" flash is set and the browser goes back to the reset page |
| `Controller.Complete` | app.js:320-322 | a completed record keeps its account, takes the new credential when one was derived and the old one otherwise, and no token is live on it at any time |
| `Controller.SubmitReset` | app.js:308-368 | completion keeps usernames, emails and store validity; any result other than the redirect to the login page leaves the users unchanged; matching passwords end the process and lose the session; mismatched ones set the "must match" flash and go back |
| `Controller.ShowResetPasswordPage` | app.js:218-220 | the page shows the queued success notices and empties the queue |
| `Controller.TakeFlash` | app.js:54-59 | the middleware hands the stored flash to the response and deletes it, keeping the rest of the session |
| `Controller.Route` | app.js:75-366 | a rendered page leaves no queued message, a request never answered changes nothing, a crash loses the session, and no route moves the clock |
| `Controller.Serve` | app.js:54-59 | a rendered answer is handed the flash the session held; any other answer is handed none, so a redirect or an error answer takes the flash out unseen; a request never answered stores nothing; a crash loses the session; after a render no flash or message is left; the store stays valid and no account is removed or has its email or username rewritten |
| `Properties.FirstFailure` | app.js:109-123 | the ordered-checks reference: no failure iff no check fails; otherwise the failure of a failing check with none failing before it |
| `Properties.SignUpOrder` | app.js:109-142 | the first of mismatch, invalid email, taken email that fails decides the flash and the redirect to the signup form, and the users stay as they were |
| `Properties.SignUpSucceeds` | app.js:125-145 | signup redirects to the login page iff every check passes, the password can be hashed and a username is given; it then adds exactly that one record and leaves the session as it was |
| `Properties.SignUpTaken` | app.js:129-142 | an email already registered gets the "taken" flash and adds no record |
| `Properties.UsernameMayRepeat` | models/user.js:8-11 | a new account may reuse another account's username |
| `Properties.LogInOrder` | app.js:155-207 | an authentication error is passed on first; then the first of mismatch, invalid email, wrong password, unknown email decides the flash; otherwise the session becomes the strategy's user |
| `Properties.LogInReachesSecret` | app.js:164-207 | login reaches the protected page iff passwords agree, the email is valid and the strategy succeeded |
| `Properties.LogInWithStore` | app.js:154-209 | with the strategy deciding from the store, login succeeds iff passwords agree, the email is valid and its one holder's credential verifies; the session then holds that email |
| `Properties.SignUpThenLogIn` | app.js:129-145 | right after a successful signup, logging in with the same password succeeds as that email |
| `Properties.RequestResetUnknown` | app.js:235-242 | a reset request for an unregistered email writes no token and no expiry, sends no mail and sets the "no account" flash |
| `Properties.RequestResetKnown` | app.js:244-249 | for a registered email the record gets the 40-character hex token of the bytes and the expiry now + 3600000, nothing else changes, and the link is mailed to that address |
| `Properties.UnheldRejected` | app.js:289-302 | a token no record holds is refused by the form lookup with the "invalid or has expired" flash |
| `Properties.MailSentShown` | app.js:270-284 | after a reset request for a registered email, the reset page the browser is sent to shows the "email has been sent" message after those queued before |
| `Properties.SecondRequestRetiresFirst` | app.js:244-249 | after a second request for the same email, the first token is refused at any later time |
| `Properties.TokenLifetime` | app.js:289-305 | after a request, the form is offered iff strictly less than 3600000 ms have passed; from then on it is refused with the expiry flash |
| `Properties.ExpiredAfterOneSecond` | app.js:289-302 | one second after the hour, the token is refused |
| `Properties.SubmitResetCompletes` | app.js:319-366 | completion with matching passwords stores the new credential and clears both token and expiry in one write, mails the confirmation and redirects to the login page; no other record changes, and the session is lost when the process ends |
| `Properties.ChangedNoticeLost` | app.js:313-366 | after a reset submission with matching passwords, whatever the token, the browser is logged out and the reset page shows no message |
| `Properties.TokenSingleUse` | app.js:313-328 | after a completed reset, the same token is refused by the form, and a second submission finds no user |
| `Properties.SubmitResetMismatch` | app.js:329-335 | mismatched passwords change no record, whatever the token, and go back with the "must match" flash |
| `Properties.SubmitResetWithoutUser` | app.js:313-320 | matching passwords with no record holding the token live crash the handler: no record changes and the session is lost |
| `Properties.SubmitResetIgnoresHashError` | app.js:320-327 | when hashing refuses the new password, the old credential stays, token and expiry are still cleared, and the browser is still sent to the login page |
| `Properties.ServeGate` | app.js:83-85 | a request for the protected page is answered with the page iff the session is authenticated, otherwise with a redirect to the login page |
| `Properties.LogOutThenGate` | app.js:212-215 | after logout, the protected page redirects to the login page |
| `Properties.LogInThenGate` | app.js:202-207 | after a successful login, the protected page is shown |
| `Properties.FlashReadOnce` | app.js:54-59 | a page rendered next is handed the stored flash, and the request after it gets none |
| `Properties.FlashLostOnRedirect` | app.js:54-59 | a request that sets no flash and answers with a redirect hands the stored flash to no view and leaves none behind |
| `Properties.FlashSurvivesHang` | app.js:129-142 | a signup that is never answered stores nothing, so a page rendered next is still handed the flash it found |
| `Properties.RenderDropsNotices` | app.js:218-219 | after any rendered page, the reset page shows no message |
| `Properties.RunPreserves` | models/user.js:7-20 | over any sequence of requests, the store stays valid, no account is lost, no email or username is rewritten and the clock never goes back |

## Left out

- HTTP plumbing is not modelled: Express bootstrap, body parsing, static files and `app.listen`.
- Templates are left out: a rendered view is a value, and what a template does with the messages handed to it is not modelled. The `error` queue that GET /signup/ reads is never written by this controller.
- Passport is assumed to be a version before 0.6: `req.logout()` is called without a callback, and `req.logIn` does not regenerate the session.
- The running time of the pattern is not modelled. On a long run of word characters with no `@` the backtracking matcher takes exponential time; the model computes the same verdict only.
- A crash ends the process. The model assumes it is started again with an empty session store, and does not model the time the server is down.
- MongoDB is replaced by a sequence of records. `findOne` returns the first match in insertion order. A failing `save` or lookup is not modelled.
- The passport and passport-local-mongoose internals (`register`, `authenticate`, `setPassword`, salting and hashing) are left out:
  - the strategy's verdict is an input, with `Users.Authenticate` as the reference;
  - the credential a password hashes to is an input (`derived`), with None for a refused password;
  - the strings the source compares errors against become variants.
- Passport's "missing credentials" failure, which the source does not handle, is not one of the modelled strategy outcomes.
- A `req.logIn` error is left out. So is a session whose user can no longer be deserialized; no route deletes users.
- `crypto.randomBytes` is left out: the 20 bytes are an input, and an error from it is not modelled.
- Mail delivery is left out: a sent mail is recorded as a value. The host name from the request headers in the link, and delivery errors, are not modelled.
- The `next(err)` paths of the reset request are not modelled, because save, random and mail errors are not modelled. The same goes for the `next` that index.js:289 calls but the handler at index.js:229 never declares.
- The second redirect after a completed reset, from the final callback at app.js:364-366, throws because the redirect to the login page was already sent. The model records the first redirect, which is the one the browser receives, and the end of the process that follows. It assumes the mail library does not catch an exception thrown from its callback.
- `async.waterfall` sequencing and concurrent requests on the same user are left out.
- `toLowerCase` is modelled on ASCII only. Unicode case folding is not modelled. For example, JavaScript lower-cases the Kelvin sign U+212A to `k`, so the source accepts "\u212A@b.co" while the model rejects it.
- Form fields are strings. Missing or non-string fields (`undefined`, arrays) are not modelled.
- Document ids and the "Password reset" and confirmation mail texts are not modelled.
- Flash and notice wording is not modelled: each message the handlers write is a variant (`Controller.Failure`, `Controller.Notice`). The "password changed" message has no variant, because it is queued after the answer went out and never stored.
- Properties.SecondRequestRetiresFirst: assumes no record held the first token before it was issued. Two draws of 20 random bytes can collide; the source does not rule that out.
- Properties.TokenLifetime: assumes the new token was held by no record before. Otherwise another record holding it could keep the form open.
- Properties.ExpiredAfterOneSecond: makes the same freshness assumption as `TokenLifetime`.
- Properties.TokenSingleUse: assumes the token is held by exactly one record. Tokens are random and are not checked for uniqueness.
- Properties.SubmitResetCompletes: makes the same single-holder assumption as `TokenSingleUse`.
- Properties.SubmitResetIgnoresHashError: makes the same single-holder assumption as `TokenSingleUse`.
