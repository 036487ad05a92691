/** The user table behind `Auth._db` (0x03-user_authentication_service):
    rows in insertion order, `find_user_by` as the first row matching one
    column, `update_user` as an overwrite of one column of the row with a
    given id, and `add_user` as an append under the next id. */
module UserTable {
  import opened Wrappers
  import opened Bcrypt

  datatype User = User(id: nat, email: string, hashedPassword: Hash,
                       sessionId: Option<string>, resetToken: Option<string>)

  /** The keyword argument of one `find_user_by` call. */
  datatype Query = ById(id: nat) | ByEmail(email: string) | BySessionId(sessionId: string) | ByResetToken(token: string)

  predicate Matches(u: User, q: Query)
  {
    match q
    case ById(id) => u.id == id
    case ByEmail(email) => u.email == email
    case BySessionId(sid) => u.sessionId == Some(sid)
    case ByResetToken(token) => u.resetToken == Some(token)
  }

  /** `find_user_by`: the index of the first matching row; `None` is
      `NoResultFound`. */
  function FindUserBy(users: seq<User>, q: Query): (r: Option<nat>)
    ensures r.Some? ==> r.value < |users| && Matches(users[r.value], q)
    ensures r.Some? ==> forall j :: 0 <= j < r.value ==> !Matches(users[j], q)
    ensures r.None? ==> forall j :: 0 <= j < |users| ==> !Matches(users[j], q)
  {
    if |users| == 0 then None
    else if Matches(users[0], q) then Some(0)
    else match FindUserBy(users[1..], q)
      case None => None
      case Some(k) => Some(k + 1)
  }

  /** One column written by `update_user`. */
  datatype Field = SessionId(sessionId: Option<string>) | ResetToken(token: Option<string>) | HashedPassword(hash: Hash)

  function Apply(u: User, f: Field): (r: User)
    ensures r.id == u.id && r.email == u.email
  {
    match f
    case SessionId(sid) => u.(sessionId := sid)
    case ResetToken(token) => u.(resetToken := token)
    case HashedPassword(h) => u.(hashedPassword := h)
  }

  /** `update_user(user_id, **field)`: `None` when no row has that id;
      otherwise the table with that one row's column overwritten. */
  function UpdateUser(users: seq<User>, id: nat, f: Field): (r: Option<seq<User>>)
    ensures r.None? <==> forall j :: 0 <= j < |users| ==> users[j].id != id
    ensures r.Some? ==> |r.value| == |users|
    ensures r.Some? ==> exists k :: 0 <= k < |users| && users[k].id == id &&
                                    r.value[k] == Apply(users[k], f) &&
                                    forall j :: 0 <= j < |users| && j != k ==> r.value[j] == users[j]
  {
    match FindUserBy(users, ById(id))
    case None => None
    case Some(k) => Some(users[k := Apply(users[k], f)])
  }

  /** `add_user`: a new row under the next id, with no session and no
      reset token. */
  function AddUser(users: seq<User>, email: string, hashedPassword: Hash): (r: seq<User>)
    ensures |r| == |users| + 1 && r[..|users|] == users
    ensures r[|users|] == User(|users| + 1, email, hashedPassword, None, None)
  {
    users + [User(|users| + 1, email, hashedPassword, None, None)]
  }

  /** The shape every table reached through `Auth` keeps: ids count up from
      1 in row order, and no email, session id or reset token is held by two
      rows. */
  predicate WellFormed(users: seq<User>)
  {
    (forall i :: 0 <= i < |users| ==> users[i].id == i + 1) &&
    (forall i, j :: 0 <= i < j < |users| ==> users[i].email != users[j].email) &&
    (forall i, j :: 0 <= i < j < |users| && users[i].sessionId.Some? ==> users[i].sessionId != users[j].sessionId) &&
    (forall i, j :: 0 <= i < j < |users| && users[i].resetToken.Some? ==> users[i].resetToken != users[j].resetToken)
  }

  /** In a well-formed table the row matching a query on a unique column is
      the only one. */
  lemma FindUnique(users: seq<User>, q: Query, k: nat)
    requires WellFormed(users)
    requires k < |users| && Matches(users[k], q)
    ensures FindUserBy(users, q) == Some(k)
  {
    var r := FindUserBy(users, q);
    assert r.Some?;
  }

  /** The row with id `id` is row `id - 1`. */
  lemma FindById(users: seq<User>, id: nat)
    requires WellFormed(users)
    ensures FindUserBy(users, ById(id)) == if 1 <= id <= |users| then Some(id - 1) else None
  {
    if 1 <= id <= |users| {
      FindUnique(users, ById(id), id - 1);
    }
  }

  /** A session id is fresh for a table when no row holds it. */
  predicate FreshSession(users: seq<User>, sid: string)
  {
    forall i :: 0 <= i < |users| ==> users[i].sessionId != Some(sid)
  }

  predicate FreshToken(users: seq<User>, token: string)
  {
    forall i :: 0 <= i < |users| ==> users[i].resetToken != Some(token)
  }

  /** Appending a row with a new email keeps the table well-formed. */
  lemma AddUserWellFormed(users: seq<User>, email: string, hashedPassword: Hash)
    requires WellFormed(users)
    requires FindUserBy(users, ByEmail(email)).None?
    ensures WellFormed(AddUser(users, email, hashedPassword))
  {
  }

  /** Overwriting one row's column with nothing, with a fresh session id or
      token, or with a hash keeps the table well-formed. */
  lemma SetWellFormed(users: seq<User>, k: nat, f: Field)
    requires WellFormed(users) && k < |users|
    requires f.SessionId? && f.sessionId.Some? ==> FreshSession(users, f.sessionId.value)
    requires f.ResetToken? && f.token.Some? ==> FreshToken(users, f.token.value)
    ensures WellFormed(users[k := Apply(users[k], f)])
  {
    var r := users[k := Apply(users[k], f)];
    forall i, j | 0 <= i < j < |r| && r[i].sessionId.Some?
      ensures r[i].sessionId != r[j].sessionId
    {
      if i == k || j == k {
        if f.SessionId? {
          assert users[i].sessionId != users[j].sessionId || i == k || j == k;
        }
      }
    }
  }
}
