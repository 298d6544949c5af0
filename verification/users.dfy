/** The User collection: the schema of the user record and the lookups the
    controller makes against it. The collection is a sequence in insertion
    order, so a `findOne` that several documents match returns the first. */
module Users {

  import opened Maybe
  import Hex

  /** Salted password material produced by the hashing library; the
      controller only stores it and hands it back to the verifier. */
  datatype Credential = Credential(salt: string, hash: string)

  datatype User = User(
    username: string,
    email: string,
    credential: Credential,
    resetToken: Option<string>,
    resetExpires: Option<nat>)

  type Store = seq<User>

  /** `username` and `email` are required: a missing or empty string fails
      validation, so no stored record has one. */
  predicate Required(u: User) {
    u.username != "" && u.email != ""
  }

  /** The token and its expiry are written together and cleared together. */
  predicate ResetPaired(u: User) {
    u.resetToken.Some? <==> u.resetExpires.Some?
  }

  /** A stored token is the hex encoding of the random bytes. */
  predicate TokenShape(u: User) {
    u.resetToken.Some? ==>
      |u.resetToken.value| == 2 * Hex.TokenBytes &&
      forall i :: 0 <= i < |u.resetToken.value| ==> Hex.IsHexDigit(u.resetToken.value[i])
  }

  /** The unique index on `email`. */
  predicate UniqueEmails(users: Store) {
    forall i, j :: 0 <= i < j < |users| ==> users[i].email != users[j].email
  }

  predicate ValidStore(users: Store) {
    UniqueEmails(users) &&
    forall i :: 0 <= i < |users| ==> Required(users[i]) && ResetPaired(users[i]) && TokenShape(users[i])
  }

  /** The filter `{ email: email }`. */
  predicate HasEmail(u: User, email: string) {
    u.email == email
  }

  /** The filter `{ resetPasswordToken: token, resetPasswordExpires: { $gt: now } }`:
      equal token and an expiry strictly later than now. */
  predicate TokenLive(u: User, token: string, now: nat) {
    u.resetToken == Some(token) && u.resetExpires.Some? && u.resetExpires.value > now
  }

  /** `findOne`: the position of the first user satisfying `p`. */
  function FirstWhere(users: Store, p: User -> bool): (r: Option<nat>)
    ensures r.Some? ==> r.value < |users| && p(users[r.value])
    ensures r.Some? ==> forall j :: 0 <= j < r.value ==> !p(users[j])
    ensures r.None? ==> forall j :: 0 <= j < |users| ==> !p(users[j])
  {
    if users == [] then None
    else if p(users[0]) then Some(0)
    else
      match FirstWhere(users[1..], p)
      case None => None
      case Some(k) => Some(k + 1)
  }

  function FindByEmail(users: Store, email: string): Option<nat> {
    FirstWhere(users, u => HasEmail(u, email))
  }

  function FindByToken(users: Store, token: string, now: nat): Option<nat> {
    FirstWhere(users, u => TokenLive(u, token, now))
  }

  /** With the unique index, a lookup by email finds exactly the user that
      has it: the collection is keyed by email. */
  lemma KeyedByEmail(users: Store, i: nat)
    requires UniqueEmails(users)
    requires i < |users|
    ensures FindByEmail(users, users[i].email) == Some(i)
  {
  }

  /** The outcomes the local strategy reports to the login route. */
  datatype AuthResult = AuthOk(user: string) | WrongPassword | UnknownUser | AuthError

  /** The strategy with `usernameField: "email"`: look the user up by email,
      then ask the password verifier about the stored credential. */
  function Authenticate(users: Store, email: string, password: string,
                        verify: (Credential, string) -> bool): (r: AuthResult)
    ensures r.UnknownUser? <==> forall i :: 0 <= i < |users| ==> users[i].email != email
    ensures r.AuthOk? ==> r.user == email
    ensures r.AuthOk? ==> exists i :: 0 <= i < |users| && users[i].email == email &&
                                       verify(users[i].credential, password)
    ensures !r.AuthError?
  {
    match FindByEmail(users, email)
    case None => UnknownUser
    case Some(i) => if verify(users[i].credential, password) then AuthOk(users[i].email) else WrongPassword
  }

  /** In a store with the unique index, authentication succeeds exactly
      when the one user with that email has a credential that verifies. */
  lemma AuthenticateKeyed(users: Store, i: nat, password: string,
                          verify: (Credential, string) -> bool)
    requires UniqueEmails(users)
    requires i < |users|
    ensures Authenticate(users, users[i].email, password, verify) ==
            (if verify(users[i].credential, password) then AuthOk(users[i].email) else WrongPassword)
  {
    KeyedByEmail(users, i);
  }

  /** In a store with the unique index, authentication accepts exactly when
      some user holds the email and the verifier accepts their credential. */
  lemma AuthenticateOk(users: Store, email: string, password: string,
                       verify: (Credential, string) -> bool)
    requires UniqueEmails(users)
    ensures Authenticate(users, email, password, verify).AuthOk? <==>
            exists i :: 0 <= i < |users| && users[i].email == email && verify(users[i].credential, password)
  {
    if i :| 0 <= i < |users| && users[i].email == email && verify(users[i].credential, password) {
      AuthenticateKeyed(users, i, password, verify);
    }
  }

  /** Rewriting a record without changing its email keeps the index. */
  lemma UpdateKeepsUnique(users: Store, i: nat, u: User)
    requires UniqueEmails(users) && i < |users| && u.email == users[i].email
    ensures UniqueEmails(users[i := u])
  {
    var updated := users[i := u];
    forall a, b | 0 <= a < b < |updated|
      ensures updated[a].email != updated[b].email
    {
      assert updated[a].email == users[a].email && updated[b].email == users[b].email;
    }
  }
}
