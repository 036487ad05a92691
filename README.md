# Authentication core of alx-backend-user-data, modelled in Dafny

This project models the authentication logic of the `alx-backend-user-data`
repository and proves properties of that model. It covers four pieces:

- **Path exclusion** (`BaseAuth`, from
  `0x02-Session_authentication/api/v1/auth/auth.py`). `require_auth` decides
  whether a request path needs authentication. Three literal spellings of the
  path are looked up in the router's exclusion list, then every entry is tried
  as an `fnmatch` glob. The file also holds the getters for the
  `Authorization` header and the session cookie, and the base `current_user`,
  which returns nobody.
- **Basic authentication** (`BasicAuth`, from
  `0x01_Basic_authentication/api/v1/auth/basic_auth.py`). This is a chain of
  stages:
  1. the `"Basic "` prefix is checked and the token is the second
     space-separated field;
  2. base 64 decoding (`Base64`, section 4 of RFC 4648);
  3. UTF-8 decoding (`Utf8`);
  4. a split at the first `:` (`Text`);
  5. the first stored user with that email whose password is valid.

  Every stage answers `None` for input it cannot use, and `current_user`
  passes a `None` through to the end.
- **Session store** (`SessionAuth`, from
  `0x02-Session_authentication/api/v1/auth/session_auth.py`). A class whose
  map field `userIdBySessionId` goes from session id to user id. Logging in and
  logging out update this map in place.
- **User authentication service** (`UserAuthService`, from
  `0x03-user_authentication_service/auth.py`). A class `Auth` whose field
  `users` is the user table (`UserTable`). It covers registration, login
  checks, the session id stored on the user row, and reset tokens, with the
  `ValueError` cases. Passwords are hashed with a stand-in for bcrypt
  (`Bcrypt`). A class invariant `Valid` says three things: ids count up from 1,
  no email is held by two rows, and no session id or reset token is held by
  two rows. Every operation preserves it.

`require_auth` also looks up `path[:-1]`, which drops the last character
whatever it is. So under an exclusion of `/status`, both `/statusX` and
`/status/` are exempt (`BaseAuth.DropLastIsNotOnlyForSlash`). The glob test is
`fnmatch`, which treats both `*` and `?` as wildcards; the model has both.

Random values are parameters:

- the bcrypt salt;
- the `uuid4` session ids and reset tokens;
- the `SESSION_NAME` cookie name.

An id passed in must not already be in use: the store must not hold it, and no
row may hold it.

## Model

| member | source | states |
|---|---|---|
| BaseAuth.RequireAuth | 0x02-Session_authentication/api/v1/auth/auth.py:11-26 | `true` when the path or the list is missing or the list is empty; `false` when the path, the path less its last character, or the path plus `/` is in the list; `false` when some entry glob-matches the path |
| BaseAuth.RequireAuthExactly | 0x02-Session_authentication/api/v1/auth/auth.py:15-26 | `require_auth` is `true` exactly when the inputs are missing or empty, or else no literal hit and no entry glob-matches |
| BaseAuth.ExclusionOrderIrrelevant | 0x02-Session_authentication/api/v1/auth/auth.py:18-24 | two lists with the same entries, in any order and with any repetition, give the same answer |
| BaseAuth.GlobMatch | 0x02-Session_authentication/api/v1/auth/auth.py:23 | `fnmatch` on the whole path; a pattern without `*` only matches strings of its own length |
| BaseAuth.AnyGlobMatch | 0x02-Session_authentication/api/v1/auth/auth.py:22-24 | the early-return loop over the list succeeds exactly when some entry matches |
| BaseAuth.LiteralHit | 0x02-Session_authentication/api/v1/auth/auth.py:18-19 | the list holds the path, the path plus `/`, or an entry that is the path less exactly one final character |
| BaseAuth.WildcardFreeMatchesOnlyItself | 0x02-Session_authentication/api/v1/auth/auth.py:23 | a pattern without `*` or `?` matches exactly the identical string |
| BaseAuth.WildcardFreeListGlobIsMembership | 0x02-Session_authentication/api/v1/auth/auth.py:18-24 | when no entry has a wildcard, the glob search hits exactly when the path itself is in the list |
| BaseAuth.StarMatchesAnything | 0x02-Session_authentication/api/v1/auth/auth.py:23 | `*` matches every string, slashes included |
| BaseAuth.PrefixStarMatchesExtensions | 0x02-Session_authentication/api/v1/auth/auth.py:23 | a literal prefix followed by `*` matches exactly the strings that start with the prefix |
| BaseAuth.DropLast | 0x02-Session_authentication/api/v1/auth/auth.py:18 | `path[:-1]` is the path without its last character, and `""` stays `""` |
| BaseAuth.DropLastIsNotOnlyForSlash | 0x02-Session_authentication/api/v1/auth/auth.py:18-20 | under an exclusion of `/status`, both `/statusX` and `/status/` are exempt |
| BaseAuth.StatusExampleBelow | 0x02-Session_authentication/api/v1/auth/auth.py:22-24 | under `["/status/*"]`, the path `/status/` and every path below it are exempt |
| BaseAuth.StatusExampleBare | 0x02-Session_authentication/api/v1/auth/auth.py:18-26 | under `["/status/*"]`, `/status` needs authentication |
| BaseAuth.StatusExampleOther | 0x02-Session_authentication/api/v1/auth/auth.py:18-26 | under `["/status/*"]`, `/other` needs authentication |
| BaseAuth.AuthorizationHeader | 0x02-Session_authentication/api/v1/auth/auth.py:28-38 | a value exactly when there is a request holding an `Authorization` header, and then it is that header's value |
| BaseAuth.SessionCookie | 0x02-Session_authentication/api/v1/auth/auth.py:52-58 | a value exactly when there is a request, a cookie name, and a cookie under that name, and then it is that cookie |
| BaseAuth.CurrentUser | 0x02-Session_authentication/api/v1/auth/auth.py:40-50 | the base class authenticates nobody |
| Text.Split | 0x01_Basic_authentication/api/v1/auth/basic_auth.py:22 | `split(' ')` gives at least one field, and exactly one when the separator does not occur |
| Text.SplitFieldsHaveNoSeparator | 0x01_Basic_authentication/api/v1/auth/basic_auth.py:22 | no field contains the separator |
| Text.JoinSplit | 0x01_Basic_authentication/api/v1/auth/basic_auth.py:22 | joining the fields with the separator gives back the string |
| Text.SplitAfterFirstSeparator | 0x01_Basic_authentication/api/v1/auth/basic_auth.py:19-22 | a separator-free prefix and a separator become field 0, and the rest is split on its own, so after `"Basic "` field 1 is the first field of the remainder |
| Text.SplitFirstField | 0x01_Basic_authentication/api/v1/auth/basic_auth.py:22 | the first field is a separator-free prefix that ends at the first separator or at the end |
| Text.IndexOf | 0x01_Basic_authentication/api/v1/auth/basic_auth.py:44-46 | the position of the first occurrence, or `None` exactly when there is none |
| Text.SplitOnce | 0x01_Basic_authentication/api/v1/auth/basic_auth.py:44-46 | `split(':', 1)`: `None` exactly when there is no `:`; otherwise a colon-free head, `:`, then the tail rebuild the input |
| Text.SplitOnceUnique | 0x01_Basic_authentication/api/v1/auth/basic_auth.py:46 | a colon-free head, `:` and any tail are split back into exactly that head and tail |
| Base64.Symbol | 0x01_Basic_authentication/api/v1/auth/basic_auth.py:32 | an alphabet symbol is neither the pad character nor a space |
| Base64.SextetOf | 0x01_Basic_authentication/api/v1/auth/basic_auth.py:32 | only alphabet characters have a value, never the pad character or a space, and the symbol of that value is the character |
| Base64.SextetOfSymbol | 0x01_Basic_authentication/api/v1/auth/basic_auth.py:32 | a symbol decodes to its value |
| Base64.SymbolOfSextet | 0x01_Basic_authentication/api/v1/auth/basic_auth.py:32 | every alphabet character is the symbol of its value |
| Base64.Encode | 0x01_Basic_authentication/api/v1/auth/basic_auth.py:32 | the padded encoding has length `4 * ceil(n / 3)` and contains no space |
| Base64.DecodeGroup | 0x01_Basic_authentication/api/v1/auth/basic_auth.py:32 | a group gives octets exactly when all four characters are in the alphabet, and then three of them |
| Base64.DecodeLastGroup | 0x01_Basic_authentication/api/v1/auth/basic_auth.py:32 | a final group ending in `==` gives one octet, one ending in a single `=` gives two, an unpadded one three; the first two characters are always alphabet characters |
| Base64.Decode | 0x01_Basic_authentication/api/v1/auth/basic_auth.py:32 | a length that is not a multiple of four is rejected |
| Base64.GroupRoundTrip | 0x01_Basic_authentication/api/v1/auth/basic_auth.py:32 | three octets survive encoding and decoding as a group |
| Base64.OneRoundTrip | 0x01_Basic_authentication/api/v1/auth/basic_auth.py:32 | a trailing single octet survives its `==` padding |
| Base64.TwoRoundTrip | 0x01_Basic_authentication/api/v1/auth/basic_auth.py:32 | two trailing octets survive their `=` padding |
| Base64.DecodeCons | 0x01_Basic_authentication/api/v1/auth/basic_auth.py:32 | a whole group in front of a non-empty rest is decoded on its own |
| Base64.EncodeCons | 0x01_Basic_authentication/api/v1/auth/basic_auth.py:32 | a whole group in front of a non-empty rest is encoded on its own |
| Base64.DecodeEncode | 0x01_Basic_authentication/api/v1/auth/basic_auth.py:32 | decoding the canonical encoding of any octet string gives it back |
| Utf8.EncodeChar | 0x01_Basic_authentication/api/v1/auth/basic_auth.py:33 | a character takes one to four octets |
| Utf8.Encode | 0x01_Basic_authentication/api/v1/auth/basic_auth.py:33 | a string of `n` characters takes between `n` and `4n` octets |
| Utf8.DecodeTwo | 0x01_Basic_authentication/api/v1/auth/basic_auth.py:33 | an accepted two-octet sequence is the shortest encoding of the character it yields |
| Utf8.DecodeThree | 0x01_Basic_authentication/api/v1/auth/basic_auth.py:33 | an accepted three-octet sequence is the shortest encoding of the character it yields; overlong forms and surrogates are rejected |
| Utf8.DecodeFour | 0x01_Basic_authentication/api/v1/auth/basic_auth.py:33 | an accepted four-octet sequence is the shortest encoding of the character it yields; code points above U+10FFFF are rejected |
| Utf8.DecodeFirst | 0x01_Basic_authentication/api/v1/auth/basic_auth.py:33 | a result is a character and a length whose octets are exactly that character's encoding |
| Utf8.Decode | 0x01_Basic_authentication/api/v1/auth/basic_auth.py:33 | whenever strict decoding succeeds, encoding the result gives back the octets |
| Utf8.DecodeEncode | 0x01_Basic_authentication/api/v1/auth/basic_auth.py:33 | decoding the encoding of any string gives it back |
| Utf8.DecodeFirstEncodeChar | 0x01_Basic_authentication/api/v1/auth/basic_auth.py:33 | the encoding of a character is read back as that character, whatever follows |
| Utf8.EncodeInjective | 0x01_Basic_authentication/api/v1/auth/basic_auth.py:33 | different strings have different encodings |
| Utf8.StrayContinuationRejected | 0x01_Basic_authentication/api/v1/auth/basic_auth.py:33-35 | octets that start with a continuation octet are not UTF-8 |
| BasicAuth.ExtractBase64AuthorizationHeader | 0x01_Basic_authentication/api/v1/auth/basic_auth.py:11-22 | a result exactly when the header starts with `"Basic "`; the result has no space, follows the prefix, and runs to the next space or the end |
| BasicAuth.ExtractOfPrefixed | 0x01_Basic_authentication/api/v1/auth/basic_auth.py:19-22 | a space-free token after `"Basic "` is extracted whole |
| BasicAuth.DecodeBase64AuthorizationHeader | 0x01_Basic_authentication/api/v1/auth/basic_auth.py:24-35 | `None` for no token and for bad base 64; a result is a string whose UTF-8 octets the token encodes |
| BasicAuth.DecodeOfEncodedString | 0x01_Basic_authentication/api/v1/auth/basic_auth.py:32-33 | the base 64 of a string's UTF-8 octets decodes to that string |
| BasicAuth.NonUtf8GivesNone | 0x01_Basic_authentication/api/v1/auth/basic_auth.py:31-35 | octets that are not UTF-8 give `None`, not an error |
| BasicAuth.ExtractUserCredentials | 0x01_Basic_authentication/api/v1/auth/basic_auth.py:37-47 | both parts exactly when the input has a `:`; a colon-free email, `:` and the password rebuild the input |
| BasicAuth.CredentialsRoundTrip | 0x01_Basic_authentication/api/v1/auth/basic_auth.py:44-47 | `email:password` splits back into that email and that password, colons in the password included |
| BasicAuth.Search | 0x01_Basic_authentication/api/v1/auth/basic_auth.py:56 | the stored users with that email, no others |
| BasicAuth.FirstValid | 0x01_Basic_authentication/api/v1/auth/basic_auth.py:59-62 | the first candidate whose password is valid, or `None` when none is |
| BasicAuth.UserObjectFromCredentials | 0x01_Basic_authentication/api/v1/auth/basic_auth.py:49-62 | `None` for a missing email or password; a result is a stored user with that email and a valid password, the first one in search order; `None` means no user with that email has that password |
| BasicAuth.CurrentUser | 0x01_Basic_authentication/api/v1/auth/basic_auth.py:64-73 | `None` for no request, no usable header, an undecodable token or text without `:`; a result is a stored user with the decoded email whose password is valid for the decoded password; `None` with both parts present means no user with that email has that password |
| BasicAuth.CurrentUserOfEncodedCredentials | 0x01_Basic_authentication/api/v1/auth/basic_auth.py:64-73 | a request whose header is `Basic ` plus the base 64 of `email:password` resolves as those credentials do |
| BasicAuth.WrongAndRightPassword | 0x01_Basic_authentication/api/v1/auth/basic_auth.py:64-73 | against a user `a@b.com` with password `pw1`, the header for `wrongpw` is rejected and the header for `pw1` authenticates that user |
| SessionAuth.SessionAuth.constructor | 0x02-Session_authentication/api/v1/auth/session_auth.py:10 | the store starts empty |
| SessionAuth.SessionAuth.CreateSession | 0x02-Session_authentication/api/v1/auth/session_auth.py:12-20 | no user id: `None`, store unchanged; otherwise the store gains exactly the fresh id bound to the user id, the id is returned, and looking it up gives the user id |
| SessionAuth.SessionAuth.UserIdForSessionId | 0x02-Session_authentication/api/v1/auth/session_auth.py:22-29 | a user id exactly when the session id is given and known, and then it is the one stored |
| SessionAuth.SessionAuth.CurrentUser | 0x02-Session_authentication/api/v1/auth/session_auth.py:31-36 | `None` for a missing cookie or an unknown session; otherwise the user fetched under the stored user id, if there is one |
| SessionAuth.SessionAuth.DestroySession | 0x02-Session_authentication/api/v1/auth/session_auth.py:38-53 | `true` exactly when the request's cookie names a known session, which is then removed and nothing else; otherwise `false` and no change; afterwards the cookie's id finds nobody |
| SessionAuth.LoginLogoutScenario | 0x02-Session_authentication/api/v1/auth/session_auth.py:12-53 | on a fresh store: create, look up (the user id), destroy (`true`), look up (`None`), destroy again (`false`) |
| Bcrypt.HashPw | 0x03-user_authentication_service/auth.py:14-17 | a hash records the salt it was made with |
| Bcrypt.CheckPw | 0x03-user_authentication_service/auth.py:54-56 | a candidate is accepted exactly when hashing it under the stored hash's salt reproduces the stored hash |
| Bcrypt.CheckPwExactly | 0x03-user_authentication_service/auth.py:54-56 | a hash accepts the octets it was made from, whatever the salt, and no others |
| Bcrypt.DistinctSaltsDistinctHashes | 0x03-user_authentication_service/auth.py:16-17 | one password hashed under two salts gives two different hashes |
| UserTable.FindUserBy | 0x03-user_authentication_service/auth.py:40 | the first row matching the query, or `None` (`NoResultFound`) when no row does |
| UserTable.Apply | 0x03-user_authentication_service/auth.py:65 | overwriting a column keeps the row's id and email |
| UserTable.UpdateUser | 0x03-user_authentication_service/auth.py:65 | `None` exactly when no row has the id; otherwise the row with that id gets the column written and every other row is unchanged |
| UserTable.AddUser | 0x03-user_authentication_service/auth.py:45-47 | the table gains one row at the end, under the next id, with no session and no reset token |
| UserTable.FindUnique | 0x03-user_authentication_service/auth.py:40 | in a well-formed table a row matching a query is the one found |
| UserTable.FindById | 0x03-user_authentication_service/auth.py:84 | in a well-formed table the row with id `i` is row `i - 1`, and ids outside `1..n` find nothing |
| UserTable.AddUserWellFormed | 0x03-user_authentication_service/auth.py:43-48 | appending a row with a new email keeps the table well-formed |
| UserTable.SetWellFormed | 0x03-user_authentication_service/auth.py:65 | writing a fresh session id or token, clearing one, or writing a hash keeps the table well-formed |
| UserAuthService.HashPassword | 0x03-user_authentication_service/auth.py:14-17 | the hash records the salt it was made with |
| UserAuthService.HashPasswordAcceptsExactly | 0x03-user_authentication_service/auth.py:14-17 | the hash of a password's UTF-8 octets accepts that password and no other string |
| UserAuthService.PasswordWrites | 0x03-user_authentication_service/auth.py:103-104 | the two writes of `update_password` change only that row's hash and reset token, and keep the table well-formed |
| UserAuthService.TokenCleared | 0x03-user_authentication_service/auth.py:104 | once the row's reset token is cleared, that token finds nobody |
| UserAuthService.Auth.constructor | 0x03-user_authentication_service/auth.py:31-32 | the table starts empty and well-formed |
| UserAuthService.Auth.RegisterUser | 0x03-user_authentication_service/auth.py:34-48 | a known email: `ValueError("User <email> already exists")` and no change; otherwise exactly one row is appended with the next id, the email and the password's hash, and afterwards only that password logs in |
| UserAuthService.Auth.ValidLogin | 0x03-user_authentication_service/auth.py:50-58 | `false` for an unknown email; `true` only when some row with that email accepts the password |
| UserAuthService.Auth.ValidLoginExactly | 0x03-user_authentication_service/auth.py:50-58 | in a well-formed table, the login check succeeds exactly when the password checks against the hash of the row holding the email |
| UserAuthService.Auth.CreateSession | 0x03-user_authentication_service/auth.py:60-68 | an unknown email: `None` and no change; otherwise only that user's session id becomes the fresh id, which is returned and then finds that user |
| UserAuthService.Auth.GetUserFromSessionId | 0x03-user_authentication_service/auth.py:70-79 | `None` for no id or an id no row holds; a result is a stored user holding that id |
| UserAuthService.Auth.DestroySession | 0x03-user_authentication_service/auth.py:81-86 | for a known user id only that row's session id is cleared, and the old id then finds nobody; an unknown id changes nothing |
| UserAuthService.Auth.GetResetPasswordToken | 0x03-user_authentication_service/auth.py:88-96 | an unknown email: `ValueError` and no change; otherwise only that row's reset token becomes the fresh token, which is returned and then finds the row, while the earlier token finds nobody |
| UserAuthService.Auth.UpdatePassword | 0x03-user_authentication_service/auth.py:98-106 | a token no row holds: `ValueError` and no change; otherwise only that row changes, taking the new password's hash and losing its reset token, so only the new password logs in; afterwards the token finds nobody |
| UserAuthService.RegisteredService | 0x03-user_authentication_service/main.py:90 | a fresh service after one registration holds exactly that user's row |
| UserAuthService.RegisterLoginScenario | 0x03-user_authentication_service/main.py:90-93 | after registering, the other password is refused and the registered one is accepted |
| UserAuthService.SessionScenario | 0x03-user_authentication_service/main.py:92-95 | no profile without a session id; after logging in the id finds the user; after logging out it finds nobody |
| UserAuthService.PasswordResetScenario | 0x03-user_authentication_service/main.py:96-98 | reset token issued, password updated, only the new password logs in, and the spent token is refused |
| UserAuthService.TokenReissueScenario | 0x03-user_authentication_service/auth.py:88-106 | after a second token is issued, updating with the first fails and updating with the second succeeds |

## Left out

- Flask routing, form parsing, JSON responses, cookies on responses and status codes (`0x03-user_authentication_service/app.py`, `0x02-Session_authentication/api/v1/views/session_auth.py`). They are thin adapters. The scenario methods follow `main.py`'s sequence of requests only loosely: `SessionScenario` calls `CreateSession` without the `valid_login` check that `app.py:36-37` makes first, and the final login of `PasswordResetScenario` calls only `ValidLogin`, without `create_session`.
- `0x03-user_authentication_service/main.py` talks HTTP to a live server. Its run is replayed as scenario methods only.
- `0x01_Basic_authentication/api/v1/auth/auth.py` is not part of this model. `BasicAuth.CurrentUser` uses the header getter of `0x02-Session_authentication/api/v1/auth/auth.py` in its place.
- Bcrypt.HashPw: bcrypt's internals are not modelled. That covers the cost factor, salt generation, constant-time comparison and the 72-octet limit on passwords. A hash is an injective stand-in, so `CheckPw` accepts exactly the octets it was made from.
- `uuid.uuid4` and `bcrypt.gensalt` are not modelled as random. Ids and salts are parameters, and an id must be unused when it is passed in.
- The database layer (`db.py` with SQLAlchemy, and `NoResultFound`) and `models.user` (`User.search`, `User.get`, `is_valid_password`) are not part of this model. The table is a sequence with first-match lookup, and users are fetched from a map by id. Password validity in `BasicAuth` is a function parameter.
- UserTable.WellFormed: the table's ids are modelled as autoincrementing from 1, with no rows ever deleted. Email uniqueness is the invariant `register_user` keeps, not a database constraint.
- Whether `setattr(user, "reset_token", ...)` persists depends on ORM session tracking. It is modelled as a plain write to the row.
- UserAuthService.Auth.RegisterUser: the password is a string. The view passes `request.form.get("password")` (`app.py:22`), which may be `None`; for a new email `_hash_password` then raises `AttributeError` at `password.encode` (`auth.py:17`). That error is not modelled.
- UserAuthService.Auth.ValidLogin: the password is a string. The view passes `request.form.get("password")` (`app.py:35`), which may be `None`; for a known email `password.encode` then raises `AttributeError` (`auth.py:55`). That error is not modelled.
- UserAuthService.Auth.UpdatePassword: the new password is a string. The view passes `request.form.get("new_password")` (`app.py:84`), which may be `None`; for a valid token `_hash_password` then raises `AttributeError` (`auth.py:17`), which the view turns into a 403. That error is not modelled.
- UserAuthService.Auth.UpdatePassword: the token is a string. The case `update_password(None, ...)` is not modelled: there `filter_by(reset_token=None)` would match rows without a token.
- The session cookie name comes from `os.getenv("SESSION_NAME")`. Here it is an `Option<string>` parameter.
- SessionAuth.SessionAuth: `user_id_by_session_id` is shared by all instances and has no lock. The model gives each instance its own store and runs one call at a time.
- `fnmatch`'s `[...]` character classes are not modelled, and neither is its case normalisation on case-insensitive platforms.
- Base64.Decode: Python's `b64decode` runs by default in its lenient mode. It discards characters outside the alphabet, stops at the first complete padding and ignores what follows (`b64decode("QQ==QUJD")` gives `b"A"`), and tolerates surplus `=` (`"QQ==="`). The model decodes strictly and rejects all of these, and the round trip is stated for canonical encodings.
- The `isinstance(..., str)` checks are covered by `Option` arguments; values of other types are not modelled.
- Flask looks up header names without regard to case. The model looks up `Authorization` exactly.
- UserAuthService.Auth.DestroySession: `Auth` takes the user id as declared in the source, but the model uses the row's integer id, which is what the view passes.
