/** The authentication and password-reset controller as a pure state
    machine: every route is a transition from the server state and the
    request's inputs to the next state, the response and the mail sent. */
module Controller {

  import opened Maybe
  import opened Users
  import Email
  import Hex

  /** One hour in milliseconds: the lifetime of a reset token. */
  const ResetLifetime: nat := 3600000

  /** The error messages put in the one-shot session flash, one variant per
      message the handlers write. */
  datatype Failure =
    | PasswordMismatch
    | InvalidEmail
    | EmailTaken
    | IncorrectPassword
    | UnknownEmail
    | NoAccount
    | InvalidOrExpiredToken
    | ResetMismatch

  /** `req.session.sessionFlash = { type: "error", message: … }` */
  datatype Flash = ErrorFlash(failure: Failure)

  /** The `success` messages queued with `req.flash`. The reset-request page
      shows them; every render takes all queued messages out of the session.
      Only the reset request's "email has been sent" message is ever stored:
      the completed reset queues its message after the answer went out. */
  datatype Notice = MailSent(to: string)

  /** The session: the authenticated user's email (what the user is
      serialized to), the one-shot flash, and the queued notices. */
  datatype Session = Session(user: Option<string>, flash: Option<Flash>, notices: seq<Notice>)

  datatype State = State(users: Store, session: Session, now: nat)

  /** The session a browser has once the process holding the in-memory
      session store has ended: a fresh process knows none of its sessions. */
  const NoSession := Session(None, None, [])

  datatype Path = Home | Secret | Signup | Login | ResetPassword | Back

  datatype View =
    | HomeView
    | SignupView
    | LoginView
    | SecretView
    | ResetForm(token: string)
    | ResetPasswordView(notices: seq<Notice>)

  /** `ErrorHandler` is `next(err)`; `NoResponse` is a handler that never
      answers; `Crash` is an exception thrown inside a callback before any
      answer, which ends the process. */
  datatype Response = Redirect(to: Path) | Render(view: View) | ErrorHandler | NoResponse | Crash

  datatype Mail = ResetLink(to: string, token: string) | ResetConfirmation(to: string, username: string)

  datatype Outcome = Outcome(state: State, response: Response, mail: Option<Mail>)

  function WithFlash(s: State, f: Failure): State {
    s.(session := s.session.(flash := Some(ErrorFlash(f))))
  }

  function WithNotice(s: State, n: Notice): State {
    s.(session := s.session.(notices := s.session.notices + [n]))
  }

  /** The fields no route ever rewrites. */
  predicate SameAccount(u: User, v: User) {
    u.username == v.username && u.email == v.email
  }

  /** The user a successful registration stores. */
  function NewUser(username: string, email: string, credential: Credential): User {
    User(username, email, credential, None, None)
  }

  /** `res.render` as the flash library wraps it: the view receives every
      queued message, and the queue is emptied. Nothing else changes. */
  function Rendered(s: State, v: View): (r: Outcome)
    ensures r.response == Render(v) && r.mail == None
    ensures r.state == s.(session := s.session.(notices := []))
  {
    Outcome(s.(session := s.session.(notices := [])), Render(v), None)
  }

  /** POST /signup/. `derived` is what hashing the password produced, or
      None when the hashing library refused it; the register call then
      fails with an error other than "user exists". */
  function SignUp(s: State, username: string, email: string, password: string,
                  confirm: string, derived: Option<Credential>): (r: Outcome)
    ensures r.state.session.user == s.session.user
    ensures r.state.now == s.now && r.mail == None
    ensures r.state.users == s.users ||
            (|r.state.users| == |s.users| + 1 && r.state.users[..|s.users|] == s.users)
    ensures ValidStore(s.users) ==> ValidStore(r.state.users)
    ensures r.response in {Redirect(Signup), Redirect(Login), NoResponse}
    ensures r.response == NoResponse ==> r.state == s
  {
    if password != confirm then Outcome(WithFlash(s, PasswordMismatch), Redirect(Signup), None)
    else if !Email.ValidateEmail(email) then Outcome(WithFlash(s, InvalidEmail), Redirect(Signup), None)
    else if FindByEmail(s.users, email).Some? then Outcome(WithFlash(s, EmailTaken), Redirect(Signup), None)
    else if derived.None? || username == "" then Outcome(s, NoResponse, None)
    else
      var u := NewUser(username, email, derived.value);
      EmailNotEmpty(email);
      AppendValid(s.users, u);
      Outcome(s.(users := s.users + [u]), Redirect(Login), None)
  }

  /** Adding a complete record under an email nobody has keeps the store
      valid. */
  lemma AppendValid(users: Store, u: User)
    requires Required(u) && ResetPaired(u) && TokenShape(u)
    requires FindByEmail(users, u.email).None?
    ensures ValidStore(users) ==> ValidStore(users + [u])
  {
    assert forall j :: 0 <= j < |users| ==> !HasEmail(users[j], u.email);
  }

  /** An accepted email is never the empty string. */
  lemma EmailNotEmpty(email: string)
    requires Email.ValidateEmail(email)
    ensures email != ""
  {
    var at := Email.SplitAt(email);
  }

  /** POST /login. `auth` is what the local strategy reported. */
  function LogIn(s: State, email: string, password: string, confirm: string,
                 auth: AuthResult): (r: Outcome)
    ensures r.state.users == s.users && r.state.now == s.now && r.mail == None
    ensures r.state.session.user != s.session.user ==>
              auth.AuthOk? && r.state.session.user == Some(auth.user) && r.response == Redirect(Secret)
    ensures r.response == Redirect(Secret) ==> auth.AuthOk? && r.state.session.user == Some(auth.user)
    ensures r.response in {ErrorHandler, Redirect(Login), Redirect(Secret)}
  {
    if auth.AuthError? then Outcome(s, ErrorHandler, None)
    else if password != confirm then Outcome(WithFlash(s, PasswordMismatch), Redirect(Login), None)
    else if !Email.ValidateEmail(email) then Outcome(WithFlash(s, InvalidEmail), Redirect(Login), None)
    else if auth.WrongPassword? then Outcome(WithFlash(s, IncorrectPassword), Redirect(Login), None)
    else if auth.UnknownUser? then Outcome(WithFlash(s, UnknownEmail), Redirect(Login), None)
    else Outcome(s.(session := s.session.(user := Some(auth.user))), Redirect(Secret), None)
  }

  /** GET /logout/ */
  function LogOut(s: State): (r: Outcome)
    ensures r.state.session.user == None
    ensures r.state.users == s.users && r.state.now == s.now
    ensures r.response == Redirect(Home)
  {
    Outcome(s.(session := s.session.(user := None)), Redirect(Home), None)
  }

  /** `isLoggedIn` in front of GET /secret/. */
  function Gate(s: State): (r: Outcome)
    ensures r.mail == None
    ensures r.response == Render(SecretView) <==> s.session.user.Some?
    ensures r.response == Render(SecretView) ==> r.state == s.(session := s.session.(notices := []))
    ensures r.response != Render(SecretView) ==> r.response == Redirect(Login) && r.state == s
  {
    if s.session.user.Some? then Rendered(s, SecretView)
    else Outcome(s, Redirect(Login), None)
  }

  /** The record after a reset request: a fresh token that lives one hour. */
  function Issue(u: User, token: string, now: nat): (r: User)
    ensures SameAccount(r, u) && r.credential == u.credential && ResetPaired(r)
    ensures r.resetToken == Some(token)
    ensures forall t: nat :: TokenLive(r, token, t) <==> t < now + ResetLifetime
  {
    u.(resetToken := Some(token), resetExpires := Some(now + ResetLifetime))
  }

  /** POST /reset-password/. `bytes` are the 20 random bytes drawn for the
      token. */
  function RequestReset(s: State, email: string, bytes: seq<Hex.byte>): (r: Outcome)
    requires |bytes| == Hex.TokenBytes
    ensures r.state.session.user == s.session.user && r.state.now == s.now
    ensures |r.state.users| == |s.users|
    ensures forall j :: 0 <= j < |s.users| ==> SameAccount(r.state.users[j], s.users[j])
    ensures ValidStore(s.users) ==> ValidStore(r.state.users)
    ensures r.response == Redirect(ResetPassword)
  {
    match FindByEmail(s.users, email)
    case None => Outcome(WithFlash(s, NoAccount), Redirect(ResetPassword), None)
    case Some(i) =>
      var token := Hex.Encode(bytes);
      var u := s.users[i];
      var users := s.users[i := Issue(u, token, s.now)];
      assert ValidStore(s.users) ==> ValidStore(users) by {
        if ValidStore(s.users) {
          forall j | 0 <= j < |users|
            ensures Required(users[j]) && ResetPaired(users[j]) && TokenShape(users[j])
          {
          }
        }
      }
      Outcome(WithNotice(s.(users := users), MailSent(u.email)), Redirect(ResetPassword), Some(ResetLink(u.email, token)))
  }

  /** GET /reset/:token/ */
  function ShowResetForm(s: State, token: string): (r: Outcome)
    ensures r.state.users == s.users && r.state.session.user == s.session.user && r.mail == None
    ensures r.response == Render(ResetForm(token)) <==>
              exists i :: 0 <= i < |s.users| && TokenLive(s.users[i], token, s.now)
    ensures r.response == Render(ResetForm(token)) ==> r.state == s.(session := s.session.(notices := []))
    ensures r.response != Render(ResetForm(token)) ==>
              r.response == Redirect(ResetPassword) && r.state == WithFlash(s, InvalidOrExpiredToken)
  {
    match FindByToken(s.users, token, s.now)
    case None => Outcome(WithFlash(s, InvalidOrExpiredToken), Redirect(ResetPassword), None)
    case Some(_) => Rendered(s, ResetForm(token))
  }

  /** The record after a completed reset: the new credential when the
      hashing library produced one (its error is ignored), and no token. */
  function Complete(u: User, derived: Option<Credential>): (r: User)
    ensures SameAccount(r, u) && ResetPaired(r)
    ensures forall t: string, now: nat :: !TokenLive(r, t, now)
    ensures derived.Some? ==> r.credential == derived.value
    ensures derived.None? ==> r.credential == u.credential
  {
    u.(credential := if derived.Some? then derived.value else u.credential,
       resetToken := None, resetExpires := None)
  }

  /** POST /reset/:token/. With matching passwords and no live token the
      handler dereferences the missing user and the process ends. With a
      live token the record is written, the browser is sent to the login
      page and the confirmation is mailed; the final callback's second
      redirect then throws, because the answer was already sent, and the
      process ends too. Either way the in-memory sessions are gone, and the
      "password changed" message, queued after the answer went out, is never
      stored. */
  function SubmitReset(s: State, token: string, password: string, confirm: string,
                       derived: Option<Credential>): (r: Outcome)
    ensures r.state.now == s.now
    ensures |r.state.users| == |s.users|
    ensures forall j :: 0 <= j < |s.users| ==> SameAccount(r.state.users[j], s.users[j])
    ensures ValidStore(s.users) ==> ValidStore(r.state.users)
    ensures r.response in {Redirect(Login), Redirect(Back), Crash}
    ensures r.response == Redirect(Login) || r.state.users == s.users
    ensures password == confirm ==> r.state.session == NoSession && r.response != Redirect(Back)
    ensures password != confirm ==> r.response == Redirect(Back) && r.state == WithFlash(s, ResetMismatch)
  {
    if password == confirm then
      match FindByToken(s.users, token, s.now)
      case None => Outcome(s.(session := NoSession), Crash, None)
      case Some(i) =>
        var u := s.users[i];
        var users := s.users[i := Complete(u, derived)];
        assert ValidStore(s.users) ==> ValidStore(users) by {
          if ValidStore(s.users) {
            forall j | 0 <= j < |users|
              ensures Required(users[j]) && ResetPaired(users[j]) && TokenShape(users[j])
            {
            }
          }
        }
        Outcome(s.(users := users, session := NoSession), Redirect(Login),
                Some(ResetConfirmation(u.email, u.username)))
    else Outcome(WithFlash(s, ResetMismatch), Redirect(Back), None)
  }

  /** GET /reset-password/: shows the queued notices; the render empties
      the queue. */
  function ShowResetPasswordPage(s: State): (r: Outcome)
    ensures r.response == Render(ResetPasswordView(s.session.notices))
    ensures r.state == s.(session := s.session.(notices := []))
  {
    Rendered(s, ResetPasswordView(s.session.notices))
  }

  /** The flash middleware that runs before every route: the stored flash
      goes to the response and is deleted from the session. */
  function TakeFlash(session: Session): (r: (Option<Flash>, Session))
    ensures r.0 == session.flash && r.1.flash == None
    ensures r.1.user == session.user && r.1.notices == session.notices
  {
    (session.flash, session.(flash := None))
  }

  datatype Request =
    | HomeGet
    | SignUpGet
    | LogInGet
    | SignUpPost(username: string, email: string, password: string, confirm: string, derived: Option<Credential>)
    | LogInPost(email: string, password: string, confirm: string, auth: AuthResult)
    | LogOutGet
    | SecretGet
    | ResetRequestPost(email: string, bytes: seq<Hex.byte>)
    | ResetPasswordGet
    | ResetFormGet(token: string)
    | ResetSubmitPost(token: string, password: string, confirm: string, derived: Option<Credential>)

  predicate WellFormed(req: Request) {
    req.ResetRequestPost? ==> |req.bytes| == Hex.TokenBytes
  }

  /** The flash handed to the view (the answer is a render; a redirect or an
      error answer takes the flash out of the session unseen) and the
      route's outcome. */
  datatype Served = Served(shown: Option<Flash>, outcome: Outcome)

  /** The route table. A rendered page leaves no queued message; a request
      that is never answered changes nothing; a crash loses the session. */
  function Route(s: State, req: Request): (r: Outcome)
    requires WellFormed(req)
    ensures r.response.Render? ==> r.state.session == s.session.(notices := [])
    ensures r.response == NoResponse ==> r.state == s
    ensures r.response == Crash ==> r.state.session == NoSession
    ensures r.state.now == s.now
  {
    match req
    case HomeGet => Rendered(s, HomeView)
    case SignUpGet => Rendered(s, SignupView)
    case LogInGet => Rendered(s, LoginView)
    case SignUpPost(username, email, password, confirm, derived) => SignUp(s, username, email, password, confirm, derived)
    case LogInPost(email, password, confirm, auth) => LogIn(s, email, password, confirm, auth)
    case LogOutGet => LogOut(s)
    case SecretGet => Gate(s)
    case ResetRequestPost(email, bytes) => RequestReset(s, email, bytes)
    case ResetPasswordGet => ShowResetPasswordPage(s)
    case ResetFormGet(token) => ShowResetForm(s, token)
    case ResetSubmitPost(token, password, confirm, derived) => SubmitReset(s, token, password, confirm, derived)
  }

  /** One request: the flash middleware, then the route. The session is
      stored when the answer is sent, so a request never answered leaves the
      stored session, flash included, as it was. */
  function Serve(s: State, req: Request): (r: Served)
    requires WellFormed(req)
    ensures r.outcome.response.Render? ==> r.shown == s.session.flash
    ensures !r.outcome.response.Render? ==> r.shown == None
    ensures r.outcome.response == NoResponse ==> r.outcome.state == s && r.shown == None
    ensures r.outcome.response == Crash ==> r.outcome.state.session == NoSession && r.shown == None
    ensures r.outcome.response.Render? ==> r.outcome.state.session.flash == None && r.outcome.state.session.notices == []
    ensures r.outcome.state.now == s.now
    ensures ValidStore(s.users) ==> ValidStore(r.outcome.state.users)
    ensures |r.outcome.state.users| >= |s.users|
    ensures forall j :: 0 <= j < |s.users| ==> SameAccount(r.outcome.state.users[j], s.users[j])
  {
    var (shown, session) := TakeFlash(s.session);
    var o := Route(s.(session := session), req);
    if o.response == NoResponse then Served(None, o.(state := s))
    else if o.response.Render? then Served(shown, o)
    else Served(None, o)
  }

  /** Time passing between requests. */
  function Elapse(s: State, dt: nat): State {
    s.(now := s.now + dt)
  }
}
