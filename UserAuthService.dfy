/** `Auth` of the user authentication service
    (0x03-user_authentication_service/auth.py): registration, password
    checks, one session id per user row, and reset tokens, all kept in the
    user table. Salts (`bcrypt.gensalt`) and ids (`uuid.uuid4`) are
    parameters; each id handed in is one no row holds yet. */
module UserAuthService {
  import opened Wrappers
  import opened Bcrypt
  import opened UserTable
  import Utf8

  /** The `ValueError` the service raises, with its message. */
  datatype ValueError = ValueError(message: string)

  /** `_hash_password`: the bcrypt hash of the password's UTF-8 octets. */
  function HashPassword(password: string, salt: nat): (h: Hash)
    ensures h.salt == salt
  {
    HashPw(Utf8.Encode(password), salt)
  }

  /** The hash of a password accepts exactly that password. */
  lemma HashPasswordAcceptsExactly(password: string, candidate: string, salt: nat)
    ensures CheckPw(Utf8.Encode(candidate), HashPassword(password, salt)) <==> candidate == password
  {
    CheckPwExactly(Utf8.Encode(password), Utf8.Encode(candidate), salt);
    if Utf8.Encode(candidate) == Utf8.Encode(password) {
      Utf8.EncodeInjective(candidate, password);
    }
  }

  /** The two writes of `update_password` on row `k` (the hash, then the
      reset token) land on that row alone and keep the table well-formed. */
  lemma PasswordWrites(users: seq<User>, k: nat, hashed: Hash)
    requires WellFormed(users) && k < |users|
    ensures var id := users[k].id;
            var mid := users[k := users[k].(hashedPassword := hashed)];
            UpdateUser(users, id, HashedPassword(hashed)) == Some(mid) &&
            UpdateUser(mid, id, ResetToken(None)) ==
              Some(users[k := users[k].(hashedPassword := hashed, resetToken := None)]) &&
            WellFormed(users[k := users[k].(hashedPassword := hashed, resetToken := None)])
  {
    var id := users[k].id;
    var mid := users[k := users[k].(hashedPassword := hashed)];
    FindById(users, id);
    SetWellFormed(users, k, HashedPassword(hashed));
    FindById(mid, id);
    SetWellFormed(mid, k, ResetToken(None));
    assert mid[k := Apply(mid[k], ResetToken(None))] == users[k := users[k].(hashedPassword := hashed, resetToken := None)];
  }

  /** Once row `k`'s reset token is cleared, the token it held finds nobody. */
  lemma TokenCleared(users: seq<User>, k: nat, hashed: Hash, token: string)
    requires WellFormed(users) && k < |users| && users[k].resetToken == Some(token)
    ensures FindUserBy(users[k := users[k].(hashedPassword := hashed, resetToken := None)], ByResetToken(token)).None?
  {
  }

  class Auth {
    /** The rows of `self._db`. */
    var users: seq<User>

    ghost predicate Valid()
      reads this
    {
      WellFormed(users)
    }

    constructor ()
      ensures Valid() && users == []
    {
      users := [];
    }

    /** `register_user`: a `ValueError` for an email already registered;
        otherwise a new row with that email and the password's hash. */
    method RegisterUser(email: string, password: string, salt: nat) returns (r: Result<User, ValueError>)
      requires Valid()
      modifies this
      ensures Valid()
      ensures FindUserBy(old(users), ByEmail(email)).Some? ==>
                r == Failure(ValueError("User " + email + " already exists")) && users == old(users)
      ensures FindUserBy(old(users), ByEmail(email)).None? ==>
                r == Success(User(|old(users)| + 1, email, HashPassword(password, salt), None, None)) &&
                users == old(users) + [r.value]
      ensures r.Success? ==> forall candidate :: ValidLogin(email, candidate) <==> candidate == password
    {
      var found := FindUserBy(users, ByEmail(email));
      if found.Some? {
        return Failure(ValueError("User " + email + " already exists"));
      }
      var hashed := HashPassword(password, salt);
      AddUserWellFormed(users, email, hashed);
      users := AddUser(users, email, hashed);
      r := Success(users[|users| - 1]);
      FindUnique(users, ByEmail(email), |users| - 1);
      forall candidate
        ensures ValidLogin(email, candidate) <==> candidate == password
      {
        HashPasswordAcceptsExactly(password, candidate, salt);
      }
    }

    /** `valid_login`: `false` for an unknown email; otherwise whether the
        password checks against the stored hash. */
    function ValidLogin(email: string, password: string): (r: bool)
      reads this
      ensures FindUserBy(users, ByEmail(email)).None? ==> !r
      ensures r ==> exists k :: 0 <= k < |users| && users[k].email == email &&
                                CheckPw(Utf8.Encode(password), users[k].hashedPassword)
    {
      match FindUserBy(users, ByEmail(email))
      case None => false
      case Some(k) => CheckPw(Utf8.Encode(password), users[k].hashedPassword)
    }

    /** With emails unique, the login check consults the one row holding the
        email: it succeeds exactly when the password checks against that
        row's hash. */
    lemma ValidLoginExactly(email: string, password: string, k: nat)
      requires Valid() && k < |users| && users[k].email == email
      ensures ValidLogin(email, password) <==> CheckPw(Utf8.Encode(password), users[k].hashedPassword)
    {
      FindUnique(users, ByEmail(email), k);
    }

    /** `create_session`: `None` for an unknown email; otherwise the fresh id
        becomes that user's session id, and the id now finds that user. */
    method CreateSession(email: string, freshId: string) returns (r: Option<string>)
      requires Valid() && FreshSession(users, freshId)
      modifies this
      ensures Valid()
      ensures FindUserBy(old(users), ByEmail(email)).None? ==> r.None? && users == old(users)
      ensures FindUserBy(old(users), ByEmail(email)).Some? ==>
                var k := FindUserBy(old(users), ByEmail(email)).value;
                r == Some(freshId) && users == old(users)[k := old(users)[k].(sessionId := Some(freshId))]
      ensures r.Some? ==> GetUserFromSessionId(r).Some? && GetUserFromSessionId(r).value.email == email
    {
      var found := FindUserBy(users, ByEmail(email));
      if found.None? {
        return None;
      }
      var k := found.value;
      SetWellFormed(users, k, SessionId(Some(freshId)));
      FindById(users, users[k].id);
      users := UpdateUser(users, users[k].id, SessionId(Some(freshId))).value;
      FindUnique(users, BySessionId(freshId), k);
      return Some(freshId);
    }

    /** `get_user_from_session_id`: the user holding the session id, or
        `None` for a missing id or one no user holds. */
    function GetUserFromSessionId(sessionId: Option<string>): (r: Option<User>)
      reads this
      ensures sessionId.None? ==> r.None?
      ensures r.Some? ==> r.value in users && r.value.sessionId == sessionId
      ensures sessionId.Some? && r.None? ==> forall j :: 0 <= j < |users| ==> users[j].sessionId != sessionId
    {
      if sessionId.None? then None
      else match FindUserBy(users, BySessionId(sessionId.value))
        case None => None
        case Some(k) => Some(users[k])
    }

    /** `destroy_session`: the user with that id loses its session id, so the
        old id finds nobody; an unknown id changes nothing. */
    method DestroySession(userId: nat)
      requires Valid()
      modifies this
      ensures Valid()
      ensures 1 <= userId <= |old(users)| ==>
                users == old(users)[userId - 1 := old(users)[userId - 1].(sessionId := None)]
      ensures !(1 <= userId <= |old(users)|) ==> users == old(users)
      ensures 1 <= userId <= |old(users)| ==> GetUserFromSessionId(old(users)[userId - 1].sessionId).None?
    {
      FindById(users, userId);
      var updated := UpdateUser(users, userId, SessionId(None));
      if updated.None? {
        return;
      }
      SetWellFormed(users, userId - 1, SessionId(None));
      users := updated.value;
    }

    /** `get_reset_password_token`: a `ValueError` for an unknown email;
        otherwise the fresh token replaces that user's reset token, so an
        earlier token finds nobody any more. */
    method GetResetPasswordToken(email: string, freshToken: string) returns (r: Result<string, ValueError>)
      requires Valid() && FreshToken(users, freshToken)
      modifies this
      ensures Valid()
      ensures FindUserBy(old(users), ByEmail(email)).None? ==> r == Failure(ValueError("")) && users == old(users)
      ensures FindUserBy(old(users), ByEmail(email)).Some? ==>
                var k := FindUserBy(old(users), ByEmail(email)).value;
                r == Success(freshToken) && users == old(users)[k := old(users)[k].(resetToken := Some(freshToken))] &&
                (old(users)[k].resetToken.Some? ==> FindUserBy(users, ByResetToken(old(users)[k].resetToken.value)).None?)
      ensures r.Success? ==> FindUserBy(users, ByResetToken(freshToken)).Some?
    {
      var found := FindUserBy(users, ByEmail(email));
      if found.None? {
        return Failure(ValueError(""));
      }
      var k := found.value;
      SetWellFormed(users, k, ResetToken(Some(freshToken)));
      users := users[k := users[k].(resetToken := Some(freshToken))];
      FindUnique(users, ByResetToken(freshToken), k);
      return Success(freshToken);
    }

    /** `update_password`: a `ValueError` for a token no user holds;
        otherwise that user's hash becomes the new password's, then its reset
        token is cleared, so the token cannot be used twice. */
    method UpdatePassword(resetToken: string, password: string, salt: nat) returns (r: Result<(), ValueError>)
      requires Valid()
      modifies this
      ensures Valid()
      ensures FindUserBy(old(users), ByResetToken(resetToken)).None? ==> r == Failure(ValueError("")) && users == old(users)
      ensures FindUserBy(old(users), ByResetToken(resetToken)).Some? ==>
                var k := FindUserBy(old(users), ByResetToken(resetToken)).value;
                r == Success(()) &&
                users == old(users)[k := old(users)[k].(hashedPassword := HashPassword(password, salt), resetToken := None)] &&
                forall candidate :: ValidLogin(users[k].email, candidate) <==> candidate == password
      ensures FindUserBy(users, ByResetToken(resetToken)).None?
    {
      var found := FindUserBy(users, ByResetToken(resetToken));
      if found.None? {
        return Failure(ValueError(""));
      }
      var k := found.value;
      var id := users[k].id;
      var hashed := HashPassword(password, salt);
      ghost var before := users;
      PasswordWrites(users, k, hashed);
      users := UpdateUser(users, id, HashedPassword(hashed)).value;
      users := UpdateUser(users, id, ResetToken(None)).value;
      TokenCleared(before, k, hashed, resetToken);
      FindUnique(users, ByEmail(users[k].email), k);
      forall candidate
        ensures ValidLogin(users[k].email, candidate) <==> candidate == password
      {
        HashPasswordAcceptsExactly(password, candidate, salt);
      }
      return Success(());
    }
  }

  // The integration run of 0x03-user_authentication_service/main.py,
  // replayed against a fresh service through the calls the Flask views make.

  const Email: string := "guillaume@holberton.io"
  const Passwd: string := "b4l0u"
  const NewPasswd: string := "t4rt1fl3tt3"

  /** A fresh service in which one user has registered. */
  method RegisteredService(email: string, password: string, salt: nat) returns (auth: Auth)
    ensures fresh(auth) && auth.Valid()
    ensures auth.users == [User(1, email, HashPassword(password, salt), None, None)]
  {
    auth := new Auth();
    var r := auth.RegisterUser(email, password, salt);
  }

  /** Lines 90-91 and the password check of line 93: after registering,
      only the registered password logs in. */
  method RegisterLoginScenario(salt: nat) returns (registered: bool, wrongLogin: bool, login: bool)
    ensures registered && !wrongLogin && login
  {
    var auth := new Auth();
    var r := auth.RegisterUser(Email, Passwd, salt);
    registered := r.Success?;
    wrongLogin := auth.ValidLogin(Email, NewPasswd);
    login := auth.ValidLogin(Email, Passwd);
  }

  /** Lines 92-95: no profile without a cookie; after logging in the session
      id finds the user, and after logging out it finds nobody. */
  method SessionScenario(salt: nat, sessionId: string)
    returns (unlogged: Option<User>, session: Option<string>, profile: Option<User>, afterLogout: Option<User>)
    ensures unlogged.None?
    ensures session == Some(sessionId) && profile.Some? && profile.value.email == Email
    ensures afterLogout.None?
  {
    var auth := RegisteredService(Email, Passwd, salt);
    ghost var row := auth.users[0];
    unlogged := auth.GetUserFromSessionId(None);
    assert FreshSession(auth.users, sessionId);
    session := auth.CreateSession(Email, sessionId);
    assert auth.users == [row.(sessionId := Some(sessionId))];
    profile := auth.GetUserFromSessionId(session);
    auth.DestroySession(profile.value.id);
    afterLogout := auth.GetUserFromSessionId(session);
  }

  /** Lines 96-98, for a registered user: ask for a reset token, set the new
      password with it, and log in with the new password only; the spent
      token is then refused. */
  method PasswordResetScenario(salt: nat, newSalt: nat, token: string)
    returns (reset: Result<string, ValueError>, updated: Result<(), ValueError>,
             newLogin: bool, oldLogin: bool, reuse: Result<(), ValueError>)
    ensures reset == Success(token) && updated == Success(())
    ensures newLogin && !oldLogin
    ensures reuse == Failure(ValueError(""))
  {
    var auth := RegisteredService(Email, Passwd, salt);
    ghost var row := auth.users[0];
    reset := auth.GetResetPasswordToken(Email, token);
    assert auth.users == [row.(resetToken := Some(token))];
    updated := auth.UpdatePassword(token, NewPasswd, newSalt);
    assert auth.users == [row.(hashedPassword := HashPassword(NewPasswd, newSalt), resetToken := None)];
    newLogin := auth.ValidLogin(Email, NewPasswd);
    oldLogin := auth.ValidLogin(Email, Passwd);
    reuse := auth.UpdatePassword(token, NewPasswd, newSalt);
  }

  /** Asking for a second reset token makes the first one useless: with
      the first the password update fails, with the second it succeeds. */
  method TokenReissueScenario(email: string, password: string, newPassword: string, salt: nat, newSalt: nat,
                              first: string, second: string)
    returns (withFirst: Result<(), ValueError>, withSecond: Result<(), ValueError>, newLogin: bool)
    requires first != second
    ensures withFirst == Failure(ValueError(""))
    ensures withSecond == Success(())
    ensures newLogin
  {
    var auth := RegisteredService(email, password, salt);
    ghost var row := auth.users[0];
    var t1 := auth.GetResetPasswordToken(email, first);
    assert auth.users == [row.(resetToken := Some(first))];
    var t2 := auth.GetResetPasswordToken(email, second);
    assert auth.users == [row.(resetToken := Some(second))];
    withFirst := auth.UpdatePassword(first, newPassword, newSalt);
    withSecond := auth.UpdatePassword(second, newPassword, newSalt);
    newLogin := auth.ValidLogin(email, newPassword);
  }
}
