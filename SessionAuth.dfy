/** `SessionAuth` (0x02-Session_authentication/api/v1/auth/session_auth.py):
    an in-memory store from session id to user id, filled by logging in and
    emptied by logging out. The session id comes from `uuid.uuid4()`; here
    it is a parameter the caller promises is not in use yet. */
module SessionAuth {
  import opened Wrappers
  import BaseAuth

  class SessionAuth {
    /** `user_id_by_session_id`. */
    var userIdBySessionId: map<string, string>

    constructor ()
      ensures userIdBySessionId == map[]
    {
      userIdBySessionId := map[];
    }

    /** `create_session`: `None` for a missing user id; otherwise the fresh
        id is bound to the user id and handed back. */
    method CreateSession(userId: Option<string>, freshId: string) returns (r: Option<string>)
      requires userId.Some? ==> freshId !in userIdBySessionId
      modifies this
      ensures userId.None? ==> r.None? && userIdBySessionId == old(userIdBySessionId)
      ensures userId.Some? ==> r == Some(freshId)
      ensures userId.Some? ==> userIdBySessionId == old(userIdBySessionId)[freshId := userId.value]
      ensures userId.Some? ==> |userIdBySessionId| == |old(userIdBySessionId)| + 1
      ensures UserIdForSessionId(r) == userId
    {
      if userId.None? {
        return None;
      }
      userIdBySessionId := userIdBySessionId[freshId := userId.value];
      return Some(freshId);
    }

    /** `user_id_for_session_id`: the user id bound to a session id, or
        `None` for a missing or unknown id. */
    function UserIdForSessionId(sessionId: Option<string>): (r: Option<string>)
      reads this
      ensures r.Some? <==> sessionId.Some? && sessionId.value in userIdBySessionId
      ensures r.Some? ==> r.value == userIdBySessionId[sessionId.value]
    {
      if sessionId.None? then None
      else if sessionId.value in userIdBySessionId then Some(userIdBySessionId[sessionId.value])
      else None
    }

    /** `current_user`: session cookie, then user id, then the user with that
        id. `usersById` stands for `User.get`, which finds nothing for a
        missing id. */
    function CurrentUser<User>(request: Option<BaseAuth.Request>, sessionName: Option<string>,
                               usersById: map<string, User>): (r: Option<User>)
      reads this
      ensures BaseAuth.SessionCookie(request, sessionName).None? ==> r.None?
      ensures UserIdForSessionId(BaseAuth.SessionCookie(request, sessionName)).None? ==> r.None?
      ensures r.Some? <==>
        (var uid := UserIdForSessionId(BaseAuth.SessionCookie(request, sessionName));
         uid.Some? && uid.value in usersById)
      ensures r.Some? ==>
        r.value == usersById[userIdBySessionId[BaseAuth.SessionCookie(request, sessionName).value]]
    {
      var sessionId := BaseAuth.SessionCookie(request, sessionName);
      var userId := UserIdForSessionId(sessionId);
      if userId.Some? && userId.value in usersById then Some(usersById[userId.value]) else None
    }

    /** `destroy_session`: forgets the session named by the request's cookie;
        `false`, with the store untouched, when there is no request, no
        cookie or no such session. */
    method DestroySession(request: Option<BaseAuth.Request>, sessionName: Option<string>) returns (ok: bool)
      modifies this
      ensures ok <==> BaseAuth.SessionCookie(request, sessionName).Some? &&
                      BaseAuth.SessionCookie(request, sessionName).value in old(userIdBySessionId)
      ensures ok ==> userIdBySessionId ==
                     old(userIdBySessionId) - {BaseAuth.SessionCookie(request, sessionName).value}
      ensures !ok ==> userIdBySessionId == old(userIdBySessionId)
      ensures UserIdForSessionId(BaseAuth.SessionCookie(request, sessionName)).None?
    {
      if request.None? {
        return false;
      }
      var sessionId := BaseAuth.SessionCookie(request, sessionName);
      if sessionId.None? {
        return false;
      }
      if UserIdForSessionId(sessionId).None? {
        return false;
      }
      userIdBySessionId := userIdBySessionId - {sessionId.value};
      return true;
    }
  }

  /** Log in, look the session up, log out, look it up again: a fresh store
      answers `Some(userId)`, then `true`, then `None`; a second logout with
      the same cookie fails. */
  method LoginLogoutScenario(userId: string, freshId: string, sessionName: string)
    returns (created: Option<string>, before: Option<string>, destroyed: bool, after: Option<string>, again: bool)
    ensures created == Some(freshId)
    ensures before == Some(userId)
    ensures destroyed
    ensures after.None?
    ensures !again
  {
    var store := new SessionAuth();
    created := store.CreateSession(Some(userId), freshId);
    before := store.UserIdForSessionId(created);
    var request := BaseAuth.Request("/", map[], map[sessionName := freshId]);
    destroyed := store.DestroySession(Some(request), Some(sessionName));
    after := store.UserIdForSessionId(created);
    again := store.DestroySession(Some(request), Some(sessionName));
  }
}
