/** The account handlers: register, login, profile and the two password-reset steps, over the
    `users` table. bcrypt and its random salt, the clock and JWT signing are outside the
    controller and reach it as inputs. */
module AuthController {
  import opened Http

  /** The random salt of `bcrypt.genSalt(10)`. */
  type Salt = nat

  /** A row of `users`. */
  datatype User = User(id: nat, name: string, email: string, passwordHash: string, createdAt: Timestamp)

  /** The two bcrypt operations the controller calls: `hash(password, salt)` and
      `compare(password, hash)`. */
  datatype Bcrypt = Bcrypt(hash: (string, Salt) -> string, compare: (string, string) -> bool)

  /** What bcrypt promises: a password matches every hash made from it, whatever the salt. */
  ghost predicate Sound(bcrypt: Bcrypt) {
    forall password, salt :: bcrypt.compare(password, bcrypt.hash(password, salt))
  }

  /** The claims `{ id, email }` signed into a JWT. */
  datatype Claims = Claims(id: nat, email: string)

  /** A signed token; the secret and the expiry are not modelled. */
  datatype Token = Jwt(claims: Claims)

  /** `jwt.sign({ id, email }, …)`: the token carries exactly the claims it was signed with. */
  function Sign(claims: Claims): (token: Token)
    ensures token.claims == claims
  {
    Jwt(claims)
  }

  /** The user as register and login return it: no password hash, no creation time. */
  datatype UserView = UserView(id: nat, name: string, email: string)

  /** The user as getProfile returns it: `SELECT id, name, email, created_at`. */
  datatype ProfileView = ProfileView(id: nat, name: string, email: string, createdAt: Timestamp)

  /** The handler-specific part of a JSON reply. */
  datatype Payload =
    | NoPayload
    | Session(token: Token, user: UserView)
    | Profile(profile: ProfileView)

  const UserExists: Response<Payload> :=
    Json(400, false, Some("User already exists with this email"), NoPayload)
  const InvalidCredentials: Response<Payload> :=
    Json(400, false, Some("Invalid credentials"), NoPayload)
  const UserNotFound: Response<Payload> :=
    Json(404, false, Some("User not found"), NoPayload)
  const ResetLinkNotice: Response<Payload> :=
    Json(200, true, Some("If your email is registered, you will receive a password reset link."), NoPayload)
  const InvalidResetRequest: Response<Payload> :=
    Json(400, false, Some("Invalid reset request"), NoPayload)
  const PasswordResetDone: Response<Payload> :=
    Json(200, true, Some("Password reset successfully. You can now login with your new password."), NoPayload)

  /** The token and user view that register and login send for `user`. */
  function SessionFor(user: User): (session: Payload)
    ensures session.Session?
    ensures session.token.claims == Claims(user.id, user.email)
    ensures session.user.id == user.id && session.user.name == user.name && session.user.email == user.email
  {
    Session(Sign(Claims(user.id, user.email)), UserView(user.id, user.name, user.email))
  }

  /** The `UNIQUE` constraint on `users.email`. */
  ghost predicate UniqueEmails(users: map<nat, User>) {
    forall a, b :: a in users && b in users && users[a].email == users[b].email ==> a == b
  }

  predicate HasEmail(users: map<nat, User>, email: string) {
    exists k :: k in users && users[k].email == email
  }

  /** `SELECT * FROM users WHERE email = $1`: the key of the one user with that email. */
  function FindByEmail(users: map<nat, User>, email: string): (found: Option<nat>)
    requires UniqueEmails(users)
    ensures found.None? <==> !HasEmail(users, email)
    ensures found.Some? ==> found.value in users && users[found.value].email == email
  {
    if HasEmail(users, email) then
      var k :| k in users && users[k].email == email;
      Some(k)
    else
      None
  }

  /** `login`: succeeds exactly when a user has that email and the password matches the
      stored hash; every failure is the same reply. */
  function Login(users: map<nat, User>, email: string, password: string, bcrypt: Bcrypt): (resp: Response<Payload>)
    requires UniqueEmails(users)
    ensures resp.Json?
    ensures resp.success <==>
      exists k :: k in users && users[k].email == email && bcrypt.compare(password, users[k].passwordHash)
    ensures !resp.success ==> resp == InvalidCredentials
    ensures resp.success ==>
      exists k :: k in users && users[k].email == email &&
        resp == Json(200, true, Some("Login successful"), SessionFor(users[k]))
  {
    match FindByEmail(users, email)
    case None => InvalidCredentials
    case Some(k) =>
      var user := users[k];
      if !bcrypt.compare(password, user.passwordHash) then InvalidCredentials
      else Json(200, true, Some("Login successful"), SessionFor(user))
  }

  /** `getProfile`: the caller's id, name, email and creation time, or 404 when the id
      carried by the token no longer names a user. */
  function GetProfile(users: map<nat, User>, userId: nat): (resp: Response<Payload>)
    ensures userId !in users <==> resp == UserNotFound
    ensures userId in users ==>
      resp.Json? && resp.status == 200 && resp.success && resp.payload.Profile? &&
      var view := resp.payload.profile;
      view.id == users[userId].id && view.name == users[userId].name &&
      view.email == users[userId].email && view.createdAt == users[userId].createdAt
  {
    if userId !in users then UserNotFound
    else
      var user := users[userId];
      Json(200, true, None, Profile(ProfileView(user.id, user.name, user.email, user.createdAt)))
  }

  /** `requestPasswordReset`: the same reply whether or not the email is registered. */
  function RequestPasswordReset(users: map<nat, User>, email: string): (resp: Response<Payload>)
    requires UniqueEmails(users)
    ensures resp == ResetLinkNotice
  {
    match FindByEmail(users, email)
    case None => ResetLinkNotice
    case Some(_) => ResetLinkNotice
  }

  /** `UPDATE users SET password_hash = $1 WHERE email = $2`. */
  function SetPasswordHash(users: map<nat, User>, email: string, hash: string): (updated: map<nat, User>)
    ensures updated.Keys == users.Keys
    ensures forall k :: k in users ==> updated[k].(passwordHash := users[k].passwordHash) == users[k]
    ensures forall k :: k in users && users[k].email == email ==> updated[k].passwordHash == hash
    ensures forall k :: k in users && users[k].email != email ==> updated[k] == users[k]
  {
    map k | k in users :: if users[k].email == email then users[k].(passwordHash := hash) else users[k]
  }

  /** With unique emails, the update by email rewrites the hash of one user and nothing else. */
  lemma SetPasswordHashChangesOneUser(users: map<nat, User>, k: nat, hash: string)
    requires UniqueEmails(users) && k in users
    ensures SetPasswordHash(users, users[k].email, hash) == users[k := users[k].(passwordHash := hash)]
  {
    var updated := SetPasswordHash(users, users[k].email, hash);
    var expected := users[k := users[k].(passwordHash := hash)];
    assert updated.Keys == expected.Keys;
    forall j | j in updated ensures updated[j] == expected[j] {
      if j != k {
        assert users[j].email != users[k].email;
      }
    }
  }

  /** A registered user can log in with the password they registered with. */
  lemma LoginAfterRegister(users: map<nat, User>, id: nat, name: string, email: string,
                           password: string, bcrypt: Bcrypt, salt: Salt, now: Timestamp)
    requires UniqueEmails(users) && !HasEmail(users, email) && id !in users && Sound(bcrypt)
    ensures var user := User(id, name, email, bcrypt.hash(password, salt), now);
      var after := users[id := user];
      UniqueEmails(after) &&
      Login(after, email, password, bcrypt) == Json(200, true, Some("Login successful"), SessionFor(user))
  {
    var user := User(id, name, email, bcrypt.hash(password, salt), now);
    var after := users[id := user];
    assert forall b :: b in users ==> users[b].email != email;
    assert UniqueEmails(after);
    assert after[id].email == email;
    assert FindByEmail(after, email) == Some(id);
    assert bcrypt.compare(password, bcrypt.hash(password, salt));
  }

  /** After a reset, the new password logs in. */
  lemma LoginAfterReset(users: map<nat, User>, email: string, newPassword: string,
                        bcrypt: Bcrypt, salt: Salt)
    requires UniqueEmails(users) && HasEmail(users, email) && Sound(bcrypt)
    ensures var after := SetPasswordHash(users, email, bcrypt.hash(newPassword, salt));
      UniqueEmails(after) && Login(after, email, newPassword, bcrypt).success
  {
    var k :| k in users && users[k].email == email;
    var hash := bcrypt.hash(newPassword, salt);
    SetPasswordHashChangesOneUser(users, k, hash);
    var after := SetPasswordHash(users, email, hash);
    assert after[k].passwordHash == hash && bcrypt.compare(newPassword, hash);
  }

  /** The `users` table with its id sequence (`SERIAL`, starting at 1). */
  class UserStore {
    var users: map<nat, User>
    var nextId: nat

    /** Emails are unique, every row sits under its own id, and the sequence is past every
        id in use. */
    ghost predicate Valid()
      reads this
    {
      UniqueEmails(users) && forall k :: k in users ==> users[k].id == k && k < nextId
    }

    constructor ()
      ensures Valid() && users == map[] && nextId == 1
    {
      users := map[];
      nextId := 1;
    }

    /** `register`: rejects a taken email with no change; otherwise stores one new user
        under the next id with the bcrypt hash of the password, and returns a token and
        the user without the hash. */
    method Register(name: string, email: string, password: string, bcrypt: Bcrypt, salt: Salt,
                    now: Timestamp) returns (resp: Response<Payload>)
      requires Valid()
      modifies this
      ensures Valid()
      ensures HasEmail(old(users), email) ==>
        users == old(users) && nextId == old(nextId) && resp == UserExists
      ensures !HasEmail(old(users), email) ==>
        var user := User(old(nextId), name, email, bcrypt.hash(password, salt), now);
        && old(nextId) !in old(users)
        && users == old(users)[old(nextId) := user]
        && nextId == old(nextId) + 1
        && resp == Json(201, true, Some("User registered successfully"), SessionFor(user))
    {
      var existing := FindByEmail(users, email);
      if existing.Some? {
        resp := UserExists;
        return;
      }
      var hashed := bcrypt.hash(password, salt);
      var user := User(nextId, name, email, hashed, now);
      users := users[nextId := user];
      nextId := nextId + 1;
      resp := Json(201, true, Some("User registered successfully"), SessionFor(user));
    }

    /** `resetPassword`: an unknown email is rejected with no change; otherwise the user with
        that email gets the bcrypt hash of the new password. The reset token plays no part. */
    method ResetPassword(email: string, token: string, newPassword: string, bcrypt: Bcrypt,
                         salt: Salt) returns (resp: Response<Payload>)
      requires Valid()
      modifies this
      ensures Valid() && nextId == old(nextId)
      ensures !HasEmail(old(users), email) ==> users == old(users) && resp == InvalidResetRequest
      ensures HasEmail(old(users), email) ==>
        && users == SetPasswordHash(old(users), email, bcrypt.hash(newPassword, salt))
        && resp == PasswordResetDone
    {
      var existing := FindByEmail(users, email);
      if existing.None? {
        resp := InvalidResetRequest;
        return;
      }
      var hashed := bcrypt.hash(newPassword, salt);
      SetPasswordHashChangesOneUser(users, existing.value, hashed);
      users := SetPasswordHash(users, email, hashed);
      resp := PasswordResetDone;
    }
  }
}
