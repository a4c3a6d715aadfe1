/**
 * The refresh-token session logic of backend/src/services/auth.service.ts.
 *
 * The user table is a map from id to row; email is unique across rows. The
 * one field the session operations touch is the stored refresh token:
 * register and login overwrite it with the token they issue, logout clears
 * it, and refresh only reads it. bcrypt and the JWT signers and verifier are
 * foreign code, so they are the fields of a `Crypto` value handed to every
 * operation: fixed but otherwise arbitrary functions. The salt bcrypt draws
 * and the clock the signers read are explicit parameters.
 */
module AuthService {
  import opened Types

  /** A user row. `refreshToken` is null until a token is issued and after logout. */
  datatype User = User(id: int, email: string, passwordHash: string, name: string, refreshToken: Option<string>, createdAt: int)

  /**
   * The user object a session call returns: never the password hash.
   * Registration selects createdAt as well; login does not.
   */
  datatype PublicUser = PublicUser(id: int, email: string, name: string, createdAt: Option<int>)

  /** The answer to a successful register or login. */
  datatype Session = Session(user: PublicUser, accessToken: string, refreshToken: string)

  /**
   * The errors the operations throw. The first four carry the messages
   * 'Email already registered', 'Invalid credentials', the verifier's own
   * message, and 'Invalid refresh token'; `UserNotFound` is the store's
   * failure when logout names a missing row.
   */
  datatype AuthError = EmailAlreadyRegistered | InvalidCredentials | InvalidToken | InvalidRefreshToken | UserNotFound

  /**
   * The foreign primitives. `hash` is bcrypt.hash with cost 10 and the salt
   * it draws; `compare` is bcrypt.compare(password, hash); the signers take
   * the payload and the issue time; `verifyRefresh` takes the token and the
   * current time and gives the payload, or None where jsonwebtoken throws.
   */
  datatype Crypto = Crypto(
    hash: (string, nat) -> string,
    compare: (string, string) -> bool,
    signAccess: (Payload, int) -> string,
    signRefresh: (Payload, int) -> string,
    verifyRefresh: (string, int) -> Option<Payload>)

  /** The unique index on email. */
  ghost predicate EmailsUnique(users: map<int, User>) {
    forall a, b :: a in users && b in users && users[a].email == users[b].email ==> a == b
  }

  /** findUnique({ where: { email } }): the row with this email, if any. */
  function FindByEmail(users: map<int, User>, email: string): (r: Option<User>)
    requires EmailsUnique(users)
    ensures r.Some? <==> exists id :: id in users && users[id].email == email
    ensures r.Some? ==> r.value.email == email && exists id :: id in users && users[id] == r.value
  {
    if exists id :: id in users && users[id].email == email then
      var id :| id in users && users[id].email == email;
      Some(users[id])
    else
      None
  }

  /** update({ where: { id }, data: { refreshToken } }): the one field write. */
  function WithToken(users: map<int, User>, id: int, token: Option<string>): (r: map<int, User>)
    requires id in users
    ensures r.Keys == users.Keys
    ensures r[id] == users[id].(refreshToken := token)
    ensures forall other :: other in users && other != id ==> r[other] == users[other]
  {
    users[id := users[id].(refreshToken := token)]
  }

  /** Rewriting a token leaves every email where it was, so the unique index still holds. */
  lemma WithTokenKeepsEmails(users: map<int, User>, id: int, token: Option<string>)
    requires id in users && EmailsUnique(users)
    ensures EmailsUnique(WithToken(users, id, token))
  {
    var r := WithToken(users, id, token);
    forall a, b | a in r && b in r && r[a].email == r[b].email ensures a == b {
      assert r[a].email == users[a].email && r[b].email == users[b].email;
    }
  }

  /**
   * The credential check of loginUser: an unknown email and a wrong password
   * fail with the very same error, so a caller cannot tell them apart.
   */
  function CheckCredentials(users: map<int, User>, c: Crypto, email: string, password: string): (r: Result<User, AuthError>)
    requires EmailsUnique(users)
    ensures r.Err? ==> r.error == InvalidCredentials
    ensures FindByEmail(users, email).None? ==> r == Err(InvalidCredentials)
    ensures r.Ok? <==> FindByEmail(users, email).Some? && c.compare(password, FindByEmail(users, email).value.passwordHash)
    ensures r.Ok? ==> r.value == FindByEmail(users, email).value
  {
    match FindByEmail(users, email)
    case None => Err(InvalidCredentials)
    case Some(u) => if c.compare(password, u.passwordHash) then Ok(u) else Err(InvalidCredentials)
  }

  /**
   * refreshAccessToken: a new access token for the token's user, issued only
   * when that user exists and the stored refresh token equals the presented
   * one exactly. Being a function of the table, it changes nothing: the
   * stored refresh token is not rotated.
   */
  function Refresh(users: map<int, User>, c: Crypto, token: string, now: int): (r: Result<string, AuthError>)
    ensures c.verifyRefresh(token, now).None? ==> r == Err(InvalidToken)
    ensures r.Ok? <==>
      && c.verifyRefresh(token, now).Some?
      && c.verifyRefresh(token, now).value.id in users
      && users[c.verifyRefresh(token, now).value.id].refreshToken == Some(token)
    ensures r.Ok? ==>
      var u := users[c.verifyRefresh(token, now).value.id];
      r.value == c.signAccess(Payload(u.id, u.email), now)
    ensures r.Err? && c.verifyRefresh(token, now).Some? ==> r.error == InvalidRefreshToken
  {
    match c.verifyRefresh(token, now)
    case None => Err(InvalidToken)
    case Some(payload) =>
      if payload.id !in users || users[payload.id].refreshToken != Some(token) then
        Err(InvalidRefreshToken)
      else
        var u := users[payload.id];
        Ok(c.signAccess(Payload(u.id, u.email), now))
  }

  /** After logout no token refreshes for that user, whatever the verifier accepts. */
  lemma RefreshFailsAfterLogout(users: map<int, User>, id: int, c: Crypto, token: string, now: int)
    requires id in users
    ensures var after := WithToken(users, id, None);
      c.verifyRefresh(token, now) == Some(Payload(id, users[id].email)) ==>
        Refresh(after, c, token, now) == Err(InvalidRefreshToken)
    ensures Refresh(WithToken(users, id, None), c, token, now).Ok? ==>
      c.verifyRefresh(token, now).value.id != id
  {
  }

  /**
   * After a token is stored for a user, that token refreshes (when the
   * verifier accepts it for the user) and any different token the verifier
   * accepts for the user is rejected. Rejection of the previous token needs
   * it to differ from the new one, which the signer does not guarantee.
   */
  lemma OnlyStoredTokenRefreshes(users: map<int, User>, id: int, issued: string, other: string, c: Crypto, now: int)
    requires id in users && users[id].id == id
    requires c.verifyRefresh(issued, now).Some? && c.verifyRefresh(issued, now).value.id == id
    requires c.verifyRefresh(other, now).Some? && c.verifyRefresh(other, now).value.id == id
    requires other != issued
    ensures var after := WithToken(users, id, Some(issued));
      && Refresh(after, c, issued, now) == Ok(c.signAccess(Payload(id, users[id].email), now))
      && Refresh(after, c, other, now) == Err(InvalidRefreshToken)
  {
    var after := WithToken(users, id, Some(issued));
    assert after[id].id == id && after[id].email == users[id].email;
  }

  /** The user table, updated in place by registration, login and logout. */
  class UserStore {
    var users: map<int, User>
    var nextId: int

    /** Rows are keyed by their id, ids are below the next one handed out, emails are unique. */
    ghost predicate Valid()
      reads this
    {
      && (forall id :: id in users ==> users[id].id == id && id < nextId)
      && EmailsUnique(users)
    }

    constructor ()
      ensures Valid() && users == map[] && nextId == 1
    {
      users := map[];
      nextId := 1;
    }

    /**
     * registerUser: a taken email is refused and nothing is written.
     * Otherwise a row with a fresh id and the password's hash (never the
     * password) is created, a token pair is issued, and the refresh token
     * is then written to that row.
     */
    method Register(email: string, password: string, name: string, salt: nat, now: int, c: Crypto)
      returns (r: Result<Session, AuthError>)
      requires Valid()
      modifies this
      ensures Valid()
      ensures FindByEmail(old(users), email).Some? ==>
        r == Err(EmailAlreadyRegistered) && users == old(users) && nextId == old(nextId)
      ensures FindByEmail(old(users), email).None? ==>
        var id := old(nextId);
        var p := Payload(id, email);
        && id !in old(users)
        && r == Ok(Session(PublicUser(id, email, name, Some(now)), c.signAccess(p, now), c.signRefresh(p, now)))
        && users == old(users)[id := User(id, email, c.hash(password, salt), name, Some(r.value.refreshToken), now)]
        && nextId == old(nextId) + 1
    {
      var existing := FindByEmail(users, email);
      if existing.Some? {
        r := Err(EmailAlreadyRegistered);
        return;
      }
      var hashed := c.hash(password, salt);
      var id := nextId;
      assert id !in users;
      users := users[id := User(id, email, hashed, name, None, now)];
      nextId := nextId + 1;
      var p := Payload(id, email);
      var accessToken := c.signAccess(p, now);
      var refreshToken := c.signRefresh(p, now);
      WithTokenKeepsEmails(users, id, Some(refreshToken));
      users := WithToken(users, id, Some(refreshToken));
      r := Ok(Session(PublicUser(id, email, name, Some(now)), accessToken, refreshToken));
    }

    /**
     * loginUser: bad credentials are refused and nothing is written.
     * Otherwise a token pair is issued and the stored refresh token is
     * overwritten with the newly issued one.
     */
    method Login(email: string, password: string, now: int, c: Crypto) returns (r: Result<Session, AuthError>)
      requires Valid()
      modifies this
      ensures Valid() && nextId == old(nextId)
      ensures CheckCredentials(old(users), c, email, password).Err? ==>
        r == Err(InvalidCredentials) && users == old(users)
      ensures CheckCredentials(old(users), c, email, password).Ok? ==>
        var u := CheckCredentials(old(users), c, email, password).value;
        var p := Payload(u.id, u.email);
        && u.id in old(users)
        && r == Ok(Session(PublicUser(u.id, u.email, u.name, None), c.signAccess(p, now), c.signRefresh(p, now)))
        && users == WithToken(old(users), u.id, Some(r.value.refreshToken))
    {
      var checked := CheckCredentials(users, c, email, password);
      if checked.Err? {
        r := Err(InvalidCredentials);
        return;
      }
      var u := checked.value;
      var p := Payload(u.id, u.email);
      var accessToken := c.signAccess(p, now);
      var refreshToken := c.signRefresh(p, now);
      WithTokenKeepsEmails(users, u.id, Some(refreshToken));
      users := WithToken(users, u.id, Some(refreshToken));
      r := Ok(Session(PublicUser(u.id, u.email, u.name, None), accessToken, refreshToken));
    }

    /** logoutUser: clears the stored refresh token; a missing row makes the write fail. */
    method Logout(userId: int) returns (r: Result<(), AuthError>)
      requires Valid()
      modifies this
      ensures Valid() && nextId == old(nextId)
      ensures userId !in old(users) ==> r == Err(UserNotFound) && users == old(users)
      ensures userId in old(users) ==> r == Ok(()) && users == WithToken(old(users), userId, None)
    {
      if userId !in users {
        r := Err(UserNotFound);
        return;
      }
      WithTokenKeepsEmails(users, userId, None);
      users := WithToken(users, userId, None);
      r := Ok(());
    }
  }
}
