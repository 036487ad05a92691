/** The base `Auth` class of the session-authentication API
    (0x02-Session_authentication/api/v1/auth/auth.py): the decision whether a
    request path needs authentication, given the router's list of excluded
    paths, and the two getters that pull credential material out of a request. */
module BaseAuth {
  import opened Wrappers

  /** The parts of an inbound HTTP request this core looks at. */
  datatype Request = Request(path: string, headers: map<string, string>, cookies: map<string, string>)

  /** The header carrying Basic credentials. */
  const AuthorizationKey: string := "Authorization"

  // ---------------------------------------------------------------------
  // Glob matching, as `fnmatch` does it: `*` matches any run of characters
  // (slashes included), `?` matches exactly one character, every other
  // character matches itself.
  // ---------------------------------------------------------------------

  /** `GlobMatch(pat, s)` holds when the whole of `s` matches the pattern
      `pat`. Without a `*` the pattern fixes the length of what it matches. */
  function GlobMatch(pat: string, s: string): (r: bool)
    ensures r && '*' !in pat ==> |s| == |pat|
    decreases |pat| + |s|
  {
    if |pat| == 0 then |s| == 0
    else if pat[0] == '*' then GlobMatch(pat[1..], s) || (|s| > 0 && GlobMatch(pat, s[1..]))
    else if pat[0] == '?' then |s| > 0 && GlobMatch(pat[1..], s[1..])
    else |s| > 0 && s[0] == pat[0] && GlobMatch(pat[1..], s[1..])
  }

  /** A pattern with neither `*` nor `?`. */
  predicate WildcardFree(pat: string)
  {
    '*' !in pat && '?' !in pat
  }

  /** A wildcard-free pattern matches exactly the identical string. */
  lemma {:induction false} WildcardFreeMatchesOnlyItself(pat: string, s: string)
    requires WildcardFree(pat)
    ensures GlobMatch(pat, s) <==> pat == s
    decreases |pat| + |s|
  {
    if |pat| > 0 && |s| > 0 {
      WildcardFreeMatchesOnlyItself(pat[1..], s[1..]);
      assert pat == [pat[0]] + pat[1..];
      assert s == [s[0]] + s[1..];
    }
  }

  /** A `*` matches every string, slashes included. */
  lemma {:induction false} StarMatchesAnything(s: string)
    ensures GlobMatch("*", s)
    decreases |s|
  {
    if |s| > 0 {
      StarMatchesAnything(s[1..]);
    }
  }

  /** A literal prefix followed by `*` matches exactly the strings that start
      with that prefix (the `/api/v1/stat*` form of an exclusion). */
  lemma {:induction false} PrefixStarMatchesExtensions(prefix: string, s: string)
    requires WildcardFree(prefix)
    ensures GlobMatch(prefix + "*", s) <==> prefix <= s
    decreases |prefix|
  {
    if |prefix| == 0 {
      assert prefix + "*" == "*";
      StarMatchesAnything(s);
    } else {
      assert (prefix + "*")[1..] == prefix[1..] + "*";
      if |s| > 0 {
        PrefixStarMatchesExtensions(prefix[1..], s[1..]);
      }
    }
  }

  /** The `for excluded_path in excluded_paths: if fnmatch(...)` search with
      its early return: it succeeds exactly when some entry of the list
      matches the path as a glob. */
  function AnyGlobMatch(path: string, excluded: seq<string>): (r: bool)
    ensures r <==> exists e :: e in excluded && GlobMatch(e, path)
  {
    if |excluded| == 0 then false
    else if GlobMatch(excluded[0], path) then
      assert excluded[0] in excluded;
      true
    else
      var rest := excluded[1..];
      assert forall e :: e in excluded <==> e == excluded[0] || e in rest;
      AnyGlobMatch(path, rest)
  }

  /** Python's `path[:-1]`: the path without its last character, whichever
      character that is ("" stays ""). */
  function DropLast(path: string): (r: string)
    ensures |path| > 0 ==> r + [path[|path| - 1]] == path
    ensures |path| == 0 ==> r == path
  {
    if |path| == 0 then path else path[..|path| - 1]
  }

  /** The literal test of lines 18-19: the list holds the path itself, the
      path with a slash appended, or an entry that is the path less exactly
      one final character. */
  function LiteralHit(path: string, excluded: seq<string>): (r: bool)
    ensures r <==> path in excluded || path + "/" in excluded ||
                   exists e :: e in excluded && |e| + 1 == |path| && e <= path
  {
    assert |path| > 0 ==> |DropLast(path)| + 1 == |path| && DropLast(path) <= path;
    assert forall e :: e in excluded && |e| + 1 == |path| && e <= path ==> e == DropLast(path);
    path in excluded || DropLast(path) in excluded || path + "/" in excluded
  }

  /** `require_auth`: `true` when the request must be authenticated. */
  function RequireAuth(path: Option<string>, excluded: Option<seq<string>>): (r: bool)
    ensures path.None? || excluded.None? || excluded == Some([]) ==> r
    ensures path.Some? && excluded.Some? && LiteralHit(path.value, excluded.value) ==> !r
    ensures path.Some? && excluded.Some? && (exists e :: e in excluded.value && GlobMatch(e, path.value)) ==> !r
  {
    if path.None? || excluded.None? || excluded.value == [] then true
    else if LiteralHit(path.value, excluded.value) then false
    else !AnyGlobMatch(path.value, excluded.value)
  }

  /** `require_auth` returns `true` exactly when the inputs are missing or
      empty, or else neither the literal test nor any glob matched. */
  lemma RequireAuthExactly(path: Option<string>, excluded: Option<seq<string>>)
    ensures RequireAuth(path, excluded) <==>
      path.None? || excluded.None? || excluded == Some([]) ||
      (!LiteralHit(path.value, excluded.value) &&
       forall e :: e in excluded.value ==> !GlobMatch(e, path.value))
  {
  }

  /** Two exclusion lists with the same entries, in any order and with any
      repetition. */
  ghost predicate SameEntries(xs: seq<string>, ys: seq<string>)
  {
    forall e :: e in xs <==> e in ys
  }

  /** Reordering or duplicating entries of the exclusion list changes nothing:
      only which entries occur matters. */
  lemma ExclusionOrderIrrelevant(path: Option<string>, xs: seq<string>, ys: seq<string>)
    requires SameEntries(xs, ys)
    ensures RequireAuth(path, Some(xs)) == RequireAuth(path, Some(ys))
  {
    if xs != [] { assert xs[0] in ys; }
    if ys != [] { assert ys[0] in xs; }
    RequireAuthExactly(path, Some(xs));
    RequireAuthExactly(path, Some(ys));
  }

  /** When no entry has a wildcard, the glob search hits exactly when the
      path itself is in the list. */
  lemma WildcardFreeListGlobIsMembership(path: string, excluded: seq<string>)
    requires forall e :: e in excluded ==> WildcardFree(e)
    ensures AnyGlobMatch(path, excluded) <==> path in excluded
  {
    if AnyGlobMatch(path, excluded) {
      var e :| e in excluded && GlobMatch(e, path);
      WildcardFreeMatchesOnlyItself(e, path);
    }
    if path in excluded {
      WildcardFreeMatchesOnlyItself(path, path);
    }
  }

  // With the single exclusion "/status/" followed by a star, "/status/" and
  // everything below it are exempt, "/status" and "/other" are not.
  lemma StatusExampleBelow(rest: string)
    ensures !RequireAuth(Some("/status/" + rest), Some(["/status/*"]))
  {
    PrefixStarMatchesExtensions("/status/", "/status/" + rest);
    assert "/status/" + "*" == "/status/*";
    assert GlobMatch("/status/*", "/status/" + rest);
    assert "/status/*" in ["/status/*"];
  }

  lemma StatusExampleBare()
    ensures RequireAuth(Some("/status"), Some(["/status/*"]))
  {
    PrefixStarMatchesExtensions("/status/", "/status");
    assert "/status/" + "*" == "/status/*";
    assert !LiteralHit("/status", ["/status/*"]);
    assert ["/status/*"][1..] == [];
  }

  lemma StatusExampleOther()
    ensures RequireAuth(Some("/other"), Some(["/status/*"]))
  {
    PrefixStarMatchesExtensions("/status/", "/other");
    assert "/status/" + "*" == "/status/*";
    assert !LiteralHit("/other", ["/status/*"]);
    assert ["/status/*"][1..] == [];
  }

  /** `path[:-1]` drops the last character whatever it is: `/statusX` is
      exempt under an exclusion of `/status`, and so is `/status/` under an
      exclusion of `/status` (the intended trailing-slash tolerance). */
  lemma DropLastIsNotOnlyForSlash()
    ensures !RequireAuth(Some("/statusX"), Some(["/status"]))
    ensures !RequireAuth(Some("/status/"), Some(["/status"]))
  {
    assert DropLast("/statusX") == "/status";
    assert DropLast("/status/") == "/status";
  }

  /** `authorization_header`: the `Authorization` header's value, or `None`
      for a missing request or a missing header. */
  function AuthorizationHeader(request: Option<Request>): (r: Option<string>)
    ensures r.Some? <==> request.Some? && AuthorizationKey in request.value.headers
    ensures r.Some? ==> r.value == request.value.headers[AuthorizationKey]
  {
    if request.None? then None
    else if AuthorizationKey !in request.value.headers then None
    else Some(request.value.headers[AuthorizationKey])
  }

  /** `session_cookie`: the cookie stored under the configured session name.
      The name comes from the deployment configuration and may itself be
      unset, in which case no cookie is found. */
  function SessionCookie(request: Option<Request>, sessionName: Option<string>): (r: Option<string>)
    ensures r.Some? <==> request.Some? && sessionName.Some? && sessionName.value in request.value.cookies
    ensures r.Some? ==> r.value == request.value.cookies[sessionName.value]
  {
    if request.None? then None
    else if sessionName.None? then None
    else if sessionName.value in request.value.cookies then Some(request.value.cookies[sessionName.value])
    else None
  }

  /** The base class's `current_user` authenticates nobody. */
  function CurrentUser<User>(request: Option<Request>): (r: Option<User>)
    ensures r.None?
  {
    None
  }
}
