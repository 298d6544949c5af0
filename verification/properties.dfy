/** What the controller promises across routes and requests: the order of
    its checks, the life of a reset token, the one-shot flash and the gate. */
module Properties {

  import opened Maybe
  import opened Users
  import opened Controller
  import Email
  import Hex

  // ---------------------------------------------------------------------------
  // Ordered checks: an independent statement of "the first failing check wins".

  datatype Check = Check(fails: bool, failure: Failure)

  function FirstFailure(checks: seq<Check>): (r: Option<Failure>)
    ensures r.None? <==> forall i :: 0 <= i < |checks| ==> !checks[i].fails
    ensures r.Some? ==> exists i :: 0 <= i < |checks| && checks[i].fails && checks[i].failure == r.value &&
                                    forall j :: 0 <= j < i ==> !checks[j].fails
  {
    if checks == [] then None
    else if checks[0].fails then Some(checks[0].failure)
    else
      var r := FirstFailure(checks[1..]);
      assert r.Some? ==> exists i :: 0 <= i < |checks[1..]| && checks[1..][i].fails && checks[1..][i].failure == r.value &&
                                     forall j :: 0 <= j < i ==> !checks[1..][j].fails;
      assert forall i :: 0 <= i < |checks[1..]| ==> checks[1..][i] == checks[i + 1];
      r
  }

  /** Some user already holds the address (the unique index would refuse it). */
  ghost predicate Registered(users: Store, email: string) {
    exists i :: 0 <= i < |users| && users[i].email == email
  }

  lemma RegisteredFound(users: Store, email: string)
    ensures FindByEmail(users, email).Some? <==> Registered(users, email)
  {
    if FindByEmail(users, email).None? {
      assert forall i :: 0 <= i < |users| ==> !HasEmail(users[i], email);
    }
  }

  /** The checks of POST /signup/, in the order the handler makes them. */
  ghost function SignUpChecks(users: Store, email: string, password: string, confirm: string): seq<Check> {
    [Check(password != confirm, PasswordMismatch),
     Check(!Email.ValidateEmail(email), InvalidEmail),
     Check(Registered(users, email), EmailTaken)]
  }

  /** Signup: the first failing check decides the flash and the redirect back
      to the form, and leaves the users alone; when every check passes the
      handler registers the user or, when the record cannot be stored, sends
      no response. */
  lemma {:induction false} SignUpOrder(s: State, username: string, email: string, password: string,
                                       confirm: string, derived: Option<Credential>)
    ensures var r := SignUp(s, username, email, password, confirm, derived);
            var f := FirstFailure(SignUpChecks(s.users, email, password, confirm));
            (f.Some? ==> r.response == Redirect(Signup) && r.state.users == s.users &&
                         r.state.session == s.session.(flash := Some(ErrorFlash(f.value)))) &&
            (f.None? ==> r.response != Redirect(Signup) && r.state.session == s.session)
  {
    RegisteredFound(s.users, email);
    var cs := SignUpChecks(s.users, email, password, confirm);
    assert cs[0].fails == (password != confirm) && cs[1].fails == !Email.ValidateEmail(email);
    assert cs[2].fails == Registered(s.users, email);
  }

  /** Signup succeeds exactly when the passwords agree, the address is valid
      and free, the password could be hashed and a username is given; it then
      adds that one user, redirects to the login page and leaves the session
      unauthenticated as it was. */
  lemma SignUpSucceeds(s: State, username: string, email: string, password: string,
                       confirm: string, derived: Option<Credential>)
    ensures var r := SignUp(s, username, email, password, confirm, derived);
            r.response == Redirect(Login) <==>
              password == confirm && Email.ValidateEmail(email) && !Registered(s.users, email) &&
              derived.Some? && username != ""
    ensures var r := SignUp(s, username, email, password, confirm, derived);
            r.response == Redirect(Login) ==>
              r.state.users == s.users + [User(username, email, derived.value, None, None)] &&
              r.state.session == s.session
    ensures var r := SignUp(s, username, email, password, confirm, derived);
            r.response != Redirect(Login) ==> r.state.users == s.users
  {
    RegisteredFound(s.users, email);
  }

  /** An address already registered is refused with the "taken" flash, and
      the existing record stays as it was. */
  lemma SignUpTaken(s: State, i: nat, username: string, password: string, derived: Option<Credential>)
    requires i < |s.users|
    requires Email.ValidateEmail(s.users[i].email)
    ensures var r := SignUp(s, username, s.users[i].email, password, password, derived);
            r.response == Redirect(Signup) && r.state.session.flash == Some(ErrorFlash(EmailTaken)) &&
            r.state.users == s.users
  {
    RegisteredFound(s.users, s.users[i].email);
  }

  /** Only the email is an identity: a second account may reuse a username. */
  lemma UsernameMayRepeat(s: State, i: nat, email: string, password: string, c: Credential)
    requires ValidStore(s.users) && i < |s.users|
    requires Email.ValidateEmail(email) && !Registered(s.users, email)
    ensures var r := SignUp(s, s.users[i].username, email, password, password, Some(c));
            r.response == Redirect(Login) && ValidStore(r.state.users) &&
            r.state.users[i].username == r.state.users[|s.users|].username
  {
    SignUpSucceeds(s, s.users[i].username, email, password, password, Some(c));
  }

  /** The checks of POST /login after the strategy reported no error. */
  function LogInChecks(email: string, password: string, confirm: string, auth: AuthResult): seq<Check> {
    [Check(password != confirm, PasswordMismatch),
     Check(!Email.ValidateEmail(email), InvalidEmail),
     Check(auth.WrongPassword?, IncorrectPassword),
     Check(auth.UnknownUser?, UnknownEmail)]
  }

  /** Login: an authentication error is passed on before anything else;
      otherwise the first failing check decides the flash and the redirect
      back, and only when every check passes does the session become
      authenticated, as the user the strategy reported. */
  lemma {:induction false} LogInOrder(s: State, email: string, password: string, confirm: string,
                                      auth: AuthResult)
    ensures var r := LogIn(s, email, password, confirm, auth);
            auth.AuthError? ==> r.response == ErrorHandler && r.state == s
    ensures var r := LogIn(s, email, password, confirm, auth);
            var f := FirstFailure(LogInChecks(email, password, confirm, auth));
            !auth.AuthError? && f.Some? ==>
              r.response == Redirect(Login) && r.state == s.(session := s.session.(flash := Some(ErrorFlash(f.value))))
    ensures var r := LogIn(s, email, password, confirm, auth);
            var f := FirstFailure(LogInChecks(email, password, confirm, auth));
            !auth.AuthError? && f.None? ==>
              auth.AuthOk? && r.response == Redirect(Secret) &&
              r.state == s.(session := s.session.(user := Some(auth.user)))
  {
    var cs := LogInChecks(email, password, confirm, auth);
    assert cs[0].fails == (password != confirm) && cs[1].fails == !Email.ValidateEmail(email);
    assert cs[2].fails == auth.WrongPassword? && cs[3].fails == auth.UnknownUser?;
  }

  /** Against a store with the unique index, with the strategy's verdict
      taken from the stored credential, login reaches the protected page
      exactly when the passwords agree, the address is valid and the one user
      holding it has a credential that verifies. */
  lemma LogInWithStore(s: State, email: string, password: string, confirm: string,
                       verify: (Credential, string) -> bool)
    requires UniqueEmails(s.users)
    ensures var r := LogIn(s, email, password, confirm, Authenticate(s.users, email, password, verify));
            r.response == Redirect(Secret) <==>
              password == confirm && Email.ValidateEmail(email) &&
              exists i :: 0 <= i < |s.users| && s.users[i].email == email && verify(s.users[i].credential, password)
    ensures var r := LogIn(s, email, password, confirm, Authenticate(s.users, email, password, verify));
            r.response == Redirect(Secret) ==> r.state.session.user == Some(email)
  {
    var auth := Authenticate(s.users, email, password, verify);
    LogInReachesSecret(s, email, password, confirm, auth);
    AuthenticateOk(s.users, email, password, verify);
  }

  /** Login reaches the protected page exactly when the passwords agree, the
      address is valid and the strategy accepted the user. */
  lemma LogInReachesSecret(s: State, email: string, password: string, confirm: string, auth: AuthResult)
    ensures LogIn(s, email, password, confirm, auth).response == Redirect(Secret) <==>
            password == confirm && Email.ValidateEmail(email) && auth.AuthOk?
  {
  }

  /** A user who has just signed up can log in with the same password, and
      the session is then theirs. */
  lemma SignUpThenLogIn(s: State, username: string, email: string, password: string, c: Credential,
                        verify: (Credential, string) -> bool)
    requires ValidStore(s.users)
    requires Email.ValidateEmail(email) && !Registered(s.users, email) && username != ""
    requires verify(c, password)
    ensures var s1 := SignUp(s, username, email, password, password, Some(c)).state;
            var r := LogIn(s1, email, password, password, Authenticate(s1.users, email, password, verify));
            r.response == Redirect(Secret) && r.state.session.user == Some(email)
  {
    SignUpSucceeds(s, username, email, password, password, Some(c));
    var s1 := SignUp(s, username, email, password, password, Some(c)).state;
    assert s1.users[|s.users|].email == email;
    AuthenticateKeyed(s1.users, |s.users|, password, verify);
  }

  // ---------------------------------------------------------------------------
  // The reset token.

  /** A request for an address nobody holds writes no token and no expiry. */
  lemma RequestResetUnknown(s: State, email: string, bytes: seq<Hex.byte>)
    requires |bytes| == Hex.TokenBytes
    requires !Registered(s.users, email)
    ensures var r := RequestReset(s, email, bytes);
            r.state.users == s.users && r.mail == None &&
            r.state.session.flash == Some(ErrorFlash(NoAccount))
  {
    RegisteredFound(s.users, email);
  }

  /** A request for the holder of an address gives that record the 40-digit
      hex encoding of the bytes, valid for one hour from now, replacing any
      earlier pair; it mails the token to the address, queues the notice, and
      touches no other field and no other record. */
  lemma RequestResetKnown(s: State, i: nat, bytes: seq<Hex.byte>)
    requires UniqueEmails(s.users) && i < |s.users|
    requires |bytes| == Hex.TokenBytes
    ensures var r := RequestReset(s, s.users[i].email, bytes);
            var u := r.state.users[i];
            |u.resetToken.value| == 40 && u.resetToken == Some(Hex.Encode(bytes)) &&
            u.resetExpires == Some(s.now + 3600000) &&
            u.credential == s.users[i].credential && u.email == s.users[i].email &&
            u.username == s.users[i].username &&
            (forall j :: 0 <= j < |s.users| && j != i ==> r.state.users[j] == s.users[j]) &&
            r.mail == Some(ResetLink(s.users[i].email, Hex.Encode(bytes))) &&
            r.state.session.notices == s.session.notices + [MailSent(s.users[i].email)]
  {
    KeyedByEmail(s.users, i);
  }

  /** A token nobody holds. Tokens come from fresh random bytes. */
  ghost predicate Unheld(users: Store, token: string) {
    forall j :: 0 <= j < |users| ==> users[j].resetToken != Some(token)
  }

  /** Form lookup fails for a token nobody holds. */
  lemma UnheldRejected(s: State, token: string)
    requires Unheld(s.users, token)
    ensures var r := ShowResetForm(s, token);
            r.response == Redirect(ResetPassword) && r.state.session.flash == Some(ErrorFlash(InvalidOrExpiredToken))
  {
  }

  /** The store after a request for the holder of an address. */
  lemma RequestResetStore(s: State, i: nat, bytes: seq<Hex.byte>)
    requires UniqueEmails(s.users) && i < |s.users|
    requires |bytes| == Hex.TokenBytes
    ensures var r := RequestReset(s, s.users[i].email, bytes);
            r.state.users == s.users[i := Issue(s.users[i], Hex.Encode(bytes), s.now)] &&
            UniqueEmails(r.state.users) && r.state.now == s.now
  {
    KeyedByEmail(s.users, i);
    UpdateKeepsUnique(s.users, i, Issue(s.users[i], Hex.Encode(bytes), s.now));
  }

  /** A second request for the same address, with different bytes, retires
      the first token: at any later time its link is refused. */
  lemma SecondRequestRetiresFirst(s: State, i: nat, b1: seq<Hex.byte>, b2: seq<Hex.byte>, dt1: nat, dt2: nat)
    requires UniqueEmails(s.users) && i < |s.users|
    requires |b1| == Hex.TokenBytes && |b2| == Hex.TokenBytes && b1 != b2
    requires Unheld(s.users, Hex.Encode(b1))
    ensures var s1 := RequestReset(s, s.users[i].email, b1).state;
            var s2 := RequestReset(Elapse(s1, dt1), s.users[i].email, b2).state;
            var r := ShowResetForm(Elapse(s2, dt2), Hex.Encode(b1));
            r.response == Redirect(ResetPassword) && r.state.session.flash == Some(ErrorFlash(InvalidOrExpiredToken))
  {
    var email := s.users[i].email;
    var s1 := Elapse(RequestReset(s, email, b1).state, dt1);
    var s2 := RequestReset(s1, email, b2).state;
    ReissuedStore(s, i, b1, b2, dt1);
    UnheldRejected(Elapse(s2, dt2), Hex.Encode(b1));
  }

  /** After two requests for the same address with different bytes, no
      record holds the first token. */
  lemma ReissuedStore(s: State, i: nat, b1: seq<Hex.byte>, b2: seq<Hex.byte>, dt1: nat)
    requires UniqueEmails(s.users) && i < |s.users|
    requires |b1| == Hex.TokenBytes && |b2| == Hex.TokenBytes && b1 != b2
    requires Unheld(s.users, Hex.Encode(b1))
    ensures var s1 := Elapse(RequestReset(s, s.users[i].email, b1).state, dt1);
            Unheld(RequestReset(s1, s.users[i].email, b2).state.users, Hex.Encode(b1))
  {
    var email := s.users[i].email;
    var t1 := Hex.Encode(b1);
    RequestResetStore(s, i, b1);
    var s1 := Elapse(RequestReset(s, email, b1).state, dt1);
    assert s1.users[i].email == email;
    RequestResetStore(s1, i, b2);
    if Hex.Encode(b2) == t1 {
      Hex.EncodeInjective(b1, b2);
    }
    Reissued(s.users, i, t1, Hex.Encode(b2), s.now, s1.now);
  }

  /** Issuing a second token to the same record leaves the first one held
      by nobody. */
  lemma Reissued(users: Store, i: nat, t1: string, t2: string, now1: nat, now2: nat)
    requires i < |users| && Unheld(users, t1) && t1 != t2
    ensures var once := users[i := Issue(users[i], t1, now1)];
            Unheld(once[i := Issue(once[i], t2, now2)], t1)
  {
    var once := users[i := Issue(users[i], t1, now1)];
    var twice := once[i := Issue(once[i], t2, now2)];
    assert forall j :: 0 <= j < |twice| && j != i ==> twice[j] == users[j];
  }

  /** A token is live for strictly less than an hour: the form is offered
      while less than an hour has passed since the request and refused from
      the hour on. */
  lemma TokenLifetime(s: State, i: nat, bytes: seq<Hex.byte>, dt: nat)
    requires UniqueEmails(s.users) && i < |s.users|
    requires |bytes| == Hex.TokenBytes
    requires Unheld(s.users, Hex.Encode(bytes))
    ensures var s1 := RequestReset(s, s.users[i].email, bytes).state;
            var r := ShowResetForm(Elapse(s1, dt), Hex.Encode(bytes));
            (r.response == Render(ResetForm(Hex.Encode(bytes))) <==> dt < 3600000) &&
            (dt >= 3600000 ==> r.state.session.flash == Some(ErrorFlash(InvalidOrExpiredToken)))
  {
    var token := Hex.Encode(bytes);
    RequestResetStore(s, i, bytes);
    var s1 := Elapse(RequestReset(s, s.users[i].email, bytes).state, dt);
    IssuedLive(s.users, i, token, s.now, s1.now);
  }

  /** After issuing a fresh token to one record, some record holds it live
      exactly until the hour is up. */
  lemma IssuedLive(users: Store, i: nat, token: string, now: nat, t: nat)
    requires i < |users| && Unheld(users, token)
    ensures var issued := users[i := Issue(users[i], token, now)];
            (exists j :: 0 <= j < |issued| && TokenLive(issued[j], token, t)) <==> t < now + ResetLifetime
  {
    var issued := users[i := Issue(users[i], token, now)];
    assert forall j :: 0 <= j < |issued| && j != i ==> issued[j] == users[j];
    assert TokenLive(issued[i], token, t) <==> t < now + ResetLifetime;
  }

  /** One second after the hour the link is refused. */
  lemma ExpiredAfterOneSecond(s: State, i: nat, bytes: seq<Hex.byte>)
    requires UniqueEmails(s.users) && i < |s.users|
    requires |bytes| == Hex.TokenBytes
    requires Unheld(s.users, Hex.Encode(bytes))
    ensures var s1 := RequestReset(s, s.users[i].email, bytes).state;
            ShowResetForm(Elapse(s1, 3600000 + 1000), Hex.Encode(bytes)).response == Redirect(ResetPassword)
  {
    TokenLifetime(s, i, bytes, 3600000 + 1000);
  }

  /** The token is held by exactly one record, and is live there. */
  ghost predicate OnlyHolder(users: Store, i: nat, token: string, now: nat) {
    i < |users| && TokenLive(users[i], token, now) &&
    forall j :: 0 <= j < |users| && j != i ==> users[j].resetToken != Some(token)
  }

  /** Completing a reset with matching passwords stores the new credential
      and clears both token and expiry in the same write, mails the
      confirmation and redirects to the login page; no other record changes,
      and the process ending afterwards takes the session with it. */
  lemma SubmitResetCompletes(s: State, i: nat, token: string, password: string, c: Credential)
    requires OnlyHolder(s.users, i, token, s.now)
    ensures var r := SubmitReset(s, token, password, password, Some(c));
            var u := r.state.users[i];
            u.credential == c && u.resetToken == None && u.resetExpires == None &&
            u.email == s.users[i].email && u.username == s.users[i].username &&
            (forall j :: 0 <= j < |s.users| && j != i ==> r.state.users[j] == s.users[j]) &&
            r.response == Redirect(Login) &&
            r.mail == Some(ResetConfirmation(s.users[i].email, s.users[i].username)) &&
            r.state.session == NoSession
  {
    assert FindByToken(s.users, token, s.now) == Some(i);
  }

  /** No message follows a reset submission with matching passwords, whatever
      the token: the process ends either way, so the browser is logged out
      and the reset-request page shows no message. */
  lemma ChangedNoticeLost(s: State, token: string, password: string, derived: Option<Credential>)
    ensures var s1 := Serve(s, ResetSubmitPost(token, password, password, derived)).outcome.state;
            s1.session.user == None &&
            Serve(s1, ResetPasswordGet).outcome.response == Render(ResetPasswordView([]))
  {
  }

  /** A token works once: after a completed reset the form is refused and a
      second submission with matching passwords finds no user. */
  lemma TokenSingleUse(s: State, i: nat, token: string, password: string, c: Credential,
                       again: string, d: Option<Credential>)
    requires OnlyHolder(s.users, i, token, s.now)
    ensures var s1 := SubmitReset(s, token, password, password, Some(c)).state;
            ShowResetForm(s1, token).response == Redirect(ResetPassword) &&
            SubmitReset(s1, token, again, again, d).response == Crash
  {
    SubmitResetCompletes(s, i, token, password, c);
    var s1 := SubmitReset(s, token, password, password, Some(c)).state;
    assert Unheld(s1.users, token);
    UnheldRejected(s1, token);
  }

  /** Mismatched passwords change no record, whatever the token, and send the
      browser back with the "must match" flash. */
  lemma SubmitResetMismatch(s: State, token: string, password: string, confirm: string,
                            derived: Option<Credential>)
    requires password != confirm
    ensures var r := SubmitReset(s, token, password, confirm, derived);
            r.state.users == s.users && r.response == Redirect(Back) && r.mail == None &&
            r.state.session.flash == Some(ErrorFlash(ResetMismatch))
  {
  }

  /** Matching passwords with a token that is unknown or expired reach the
      missing user: the handler throws. */
  lemma SubmitResetWithoutUser(s: State, token: string, password: string, derived: Option<Credential>)
    requires forall j :: 0 <= j < |s.users| ==> !TokenLive(s.users[j], token, s.now)
    ensures SubmitReset(s, token, password, password, derived) == Outcome(s.(session := NoSession), Crash, None)
  {
  }

  /** The error of setting the password is ignored: when hashing refuses the
      new password the token is still spent, the old credential stays, and
      the browser is still sent to the login page. */
  lemma SubmitResetIgnoresHashError(s: State, i: nat, token: string, password: string)
    requires OnlyHolder(s.users, i, token, s.now)
    ensures var r := SubmitReset(s, token, password, password, None);
            r.state.users[i].credential == s.users[i].credential &&
            r.state.users[i].resetToken == None &&
            r.state.users[i].resetExpires == None &&
            r.response == Redirect(Login) && r.state.session == NoSession
  {
    assert FindByToken(s.users, token, s.now) == Some(i);
  }

  // ---------------------------------------------------------------------------
  // The one-shot flash and the gate.

  /** Pages that always render and never set a flash. */
  predicate Page(req: Request) {
    req.HomeGet? || req.SignUpGet? || req.LogInGet? || req.ResetPasswordGet?
  }

  /** Routes that never set a flash. */
  predicate Quiet(req: Request) {
    Page(req) || req.LogOutGet? || req.SecretGet?
  }

  /** A flash reaches the next page only: a page rendered after it is handed
      the flash, and the request after that gets none. */
  lemma FlashReadOnce(s: State, q: Request, next: Request)
    requires Page(q) && WellFormed(next)
    ensures Serve(s, q).shown == s.session.flash
    ensures Serve(Serve(s, q).outcome.state, next).shown == None
  {
  }

  /** A redirect consumes the flash unseen: a request that sets no flash and
      answers with a redirect hands no flash to a view, and leaves none for
      the request after. */
  lemma FlashLostOnRedirect(s: State, q: Request, next: Request)
    requires Quiet(q) && WellFormed(next) && Serve(s, q).outcome.response.Redirect?
    ensures Serve(s, q).shown == None
    ensures Serve(s, q).outcome.state.session.flash == None
    ensures Serve(Serve(s, q).outcome.state, next).shown == None
  {
  }

  /** A signup that is never answered stores nothing: the flash it found is
      still there for the next request. */
  lemma FlashSurvivesHang(s: State, username: string, email: string, password: string, q: Request)
    requires Email.ValidateEmail(email) && !Registered(s.users, email) && Page(q)
    ensures var r := Serve(s, SignUpPost(username, email, password, password, None));
            r.outcome.response == NoResponse && r.outcome.state == s && r.shown == None &&
            Serve(r.outcome.state, q).shown == s.session.flash
  {
    RegisteredFound(s.users, email);
  }

  /** The queued messages reach the reset-request page only if no other page
      is rendered first. */
  lemma RenderDropsNotices(s: State, req: Request)
    requires WellFormed(req) && Serve(s, req).outcome.response.Render?
    ensures Serve(Serve(s, req).outcome.state, ResetPasswordGet).outcome.response == Render(ResetPasswordView([]))
  {
  }

  /** After a reset request for a registered address, the reset-request page
      the browser is sent to shows the "email has been sent" message after
      any that were queued before. */
  lemma MailSentShown(s: State, i: nat, bytes: seq<Hex.byte>)
    requires UniqueEmails(s.users) && i < |s.users|
    requires |bytes| == Hex.TokenBytes
    ensures var r := Serve(s, ResetRequestPost(s.users[i].email, bytes));
            r.outcome.response == Redirect(ResetPassword) &&
            Serve(r.outcome.state, ResetPasswordGet).outcome.response ==
              Render(ResetPasswordView(s.session.notices + [MailSent(s.users[i].email)]))
  {
    RequestResetKnown(s.(session := s.session.(flash := None)), i, bytes);
  }

  /** After logging out, the protected page sends the browser to the login
      page. */
  lemma LogOutThenGate(s: State)
    ensures var s1 := Serve(s, LogOutGet).outcome.state;
            Serve(s1, SecretGet).outcome.response == Redirect(Login)
  {
    ServeGate(Serve(s, LogOutGet).outcome.state);
  }

  /** The protected page is shown exactly to an authenticated session; any
      other request for it is sent to the login page. */
  lemma ServeGate(s: State)
    ensures Serve(s, SecretGet).outcome.response ==
            if s.session.user.Some? then Render(SecretView) else Redirect(Login)
  {
  }

  /** After a successful login, the protected page is shown. */
  lemma LogInThenGate(s: State, email: string, password: string, user: string)
    requires Email.ValidateEmail(email)
    ensures var s1 := Serve(s, LogInPost(email, password, password, AuthOk(user))).outcome.state;
            s1.session.user == Some(user) &&
            Serve(s1, SecretGet).outcome.response == Render(SecretView)
  {
    var s0 := s.(session := s.session.(flash := None));
    ServeLogIn(s, email, password, password, AuthOk(user));
    LogInAccepts(s0, email, password, user);
    ServeGate(Serve(s, LogInPost(email, password, password, AuthOk(user))).outcome.state);
  }

  lemma ServeLogIn(s: State, email: string, password: string, confirm: string, auth: AuthResult)
    ensures Serve(s, LogInPost(email, password, confirm, auth)).outcome ==
            LogIn(s.(session := s.session.(flash := None)), email, password, confirm, auth)
  {
  }

  lemma LogInAccepts(s: State, email: string, password: string, user: string)
    requires Email.ValidateEmail(email)
    ensures LogIn(s, email, password, password, AuthOk(user)).state.session.user == Some(user)
  {
  }

  // ---------------------------------------------------------------------------
  // Runs of requests.

  /** A sequence of requests, each after some time has passed. */
  function Run(s: State, reqs: seq<(nat, Request)>): State
    requires forall k :: 0 <= k < |reqs| ==> WellFormed(reqs[k].1)
    decreases |reqs|
  {
    if reqs == [] then s
    else Run(Serve(Elapse(s, reqs[0].0), reqs[0].1).outcome.state, reqs[1..])
  }

  /** Over any run the store keeps its invariant, never loses an account and
      never rewrites an email or a username, and the clock never goes back. */
  lemma {:induction false} RunPreserves(s: State, reqs: seq<(nat, Request)>)
    requires forall k :: 0 <= k < |reqs| ==> WellFormed(reqs[k].1)
    requires ValidStore(s.users)
    decreases |reqs|
    ensures var t := Run(s, reqs);
            ValidStore(t.users) && |t.users| >= |s.users| && t.now >= s.now &&
            forall j :: 0 <= j < |s.users| ==> SameAccount(t.users[j], s.users[j])
  {
    if reqs != [] {
      var s1 := Serve(Elapse(s, reqs[0].0), reqs[0].1).outcome.state;
      RunPreserves(s1, reqs[1..]);
    }
  }
}
