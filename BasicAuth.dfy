/** `BasicAuth` (0x01_Basic_authentication/api/v1/auth/basic_auth.py): the
    stages that turn an `Authorization: Basic <token>` header into a user.
    Each stage answers `None` for a missing input and for any input it
    cannot use, and `current_user` chains them, so a `None` anywhere
    propagates to the end. */
module BasicAuth {
  import opened Wrappers
  import opened Bytes
  import Text
  import Base64
  import Utf8
  import BaseAuth

  /** The scheme prefix, case-sensitive and with exactly one space. */
  const Prefix: string := "Basic "

  /** The fields of a stored user that this scheme reads. */
  datatype Account = Account(id: string, email: string)

  /** `extract_base64_authorization_header`: the second space-separated field
      of a header that starts with `"Basic "`. */
  function ExtractBase64AuthorizationHeader(header: Option<string>): (r: Option<string>)
    ensures r.Some? <==> header.Some? && Prefix <= header.value
    ensures r.Some? ==> ' ' !in r.value && Prefix + r.value <= header.value
    ensures r.Some? ==> |Prefix + r.value| == |header.value| || header.value[|Prefix + r.value|] == ' '
  {
    if header.None? then None
    else if !(Prefix <= header.value) then None
    else
      var h := header.value;
      var t := h[|Prefix|..];
      assert h == "Basic" + [' '] + t;
      Text.SplitAfterFirstSeparator("Basic", ' ', t);
      Text.SplitFirstField(t, ' ');
      assert Prefix + Text.Split(t, ' ')[0] == h[..|Prefix| + |Text.Split(t, ' ')[0]|];
      Some(Text.Split(h, ' ')[1])
  }

  /** `decode_base64_authorization_header`: base 64, then UTF-8; a failure of
      either gives `None`, never an error. A result is always a string whose
      UTF-8 octets the token encodes. */
  function DecodeBase64AuthorizationHeader(token: Option<string>): (r: Option<string>)
    ensures token.None? ==> r.None?
    ensures token.Some? && Base64.Decode(token.value).None? ==> r.None?
    ensures r.Some? ==> token.Some? && Base64.Decode(token.value) == Some(Utf8.Encode(r.value))
  {
    if token.None? then None
    else match Base64.Decode(token.value)
      case None => None
      case Some(octets) => Utf8.Decode(octets)
  }

  /** Round trip: the padded base 64 encoding of a string's UTF-8 octets
      decodes to that string. */
  lemma DecodeOfEncodedString(s: string)
    ensures DecodeBase64AuthorizationHeader(Some(Base64.Encode(Utf8.Encode(s)))) == Some(s)
  {
    Base64.DecodeEncode(Utf8.Encode(s));
    Utf8.DecodeEncode(s);
  }

  /** Octets that are not UTF-8 give `None`. */
  lemma NonUtf8GivesNone(b: seq<Byte>)
    requires Utf8.Decode(b).None?
    ensures DecodeBase64AuthorizationHeader(Some(Base64.Encode(b))).None?
  {
    Base64.DecodeEncode(b);
  }

  /** `extract_user_credentials`: the text before the first `:` and the text
      after it; `(None, None)` when there is no input or no `:`. */
  function ExtractUserCredentials(decoded: Option<string>): (r: (Option<string>, Option<string>))
    ensures r.0.Some? <==> decoded.Some? && ':' in decoded.value
    ensures r.1.Some? <==> r.0.Some?
    ensures r.0.Some? ==> ':' !in r.0.value && r.0.value + ":" + r.1.value == decoded.value
  {
    if decoded.None? then (None, None)
    else match Text.SplitOnce(decoded.value, ':')
      case None => (None, None)
      case Some((email, password)) => (Some(email), Some(password))
  }

  /** The split is exactly at the first `:`: an email without a colon and any
      password, colons included, come back unchanged. */
  lemma CredentialsRoundTrip(email: string, password: string)
    requires ':' !in email
    ensures ExtractUserCredentials(Some(email + ":" + password)) == (Some(email), Some(password))
  {
    Text.SplitOnceUnique(email, ':', password);
  }

  /** `User.search({'email': email})`: the stored users with that email, in
      store order. */
  function Search(users: seq<Account>, email: string): (r: seq<Account>)
    ensures forall u :: u in r <==> u in users && u.email == email
    ensures |r| <= |users|
  {
    if |users| == 0 then []
    else if users[0].email == email then [users[0]] + Search(users[1..], email)
    else Search(users[1..], email)
  }

  /** The `for user in users: if user.is_valid_password(...)` loop: the index
      of the first candidate whose password is valid. */
  function FirstValid(candidates: seq<Account>, password: string, valid: (Account, string) -> bool): (r: Option<nat>)
    ensures r.Some? ==> r.value < |candidates| && valid(candidates[r.value], password)
    ensures r.Some? ==> forall j :: 0 <= j < r.value ==> !valid(candidates[j], password)
    ensures r.None? ==> forall j :: 0 <= j < |candidates| ==> !valid(candidates[j], password)
  {
    if |candidates| == 0 then None
    else if valid(candidates[0], password) then Some(0)
    else match FirstValid(candidates[1..], password, valid)
      case None => None
      case Some(k) => Some(k + 1)
  }

  /** `user_object_from_credentials`: the first user, in search order, with
      that email and a valid password. `valid` stands for the stored user's
      `is_valid_password`. */
  function UserObjectFromCredentials(email: Option<string>, password: Option<string>,
                                     users: seq<Account>, valid: (Account, string) -> bool): (r: Option<Account>)
    ensures email.None? || password.None? ==> r.None?
    ensures r.Some? ==> r.value in users && r.value.email == email.value && valid(r.value, password.value)
    ensures r.Some? ==>
      exists k :: 0 <= k < |Search(users, email.value)| && Search(users, email.value)[k] == r.value &&
                  forall j :: 0 <= j < k ==> !valid(Search(users, email.value)[j], password.value)
    ensures r.None? && email.Some? && password.Some? ==>
      forall u :: u in users && u.email == email.value ==> !valid(u, password.value)
  {
    if email.None? || password.None? then None
    else
      var candidates := Search(users, email.value);
      if |candidates| == 0 then None
      else match FirstValid(candidates, password.value, valid)
        case None =>
          assert forall u :: u in candidates ==> !valid(u, password.value);
          None
        case Some(k) =>
          assert candidates[k] in candidates;
          Some(candidates[k])
  }

  /** `current_user`: header, token, decoded text, credentials, user. */
  function CurrentUser(request: Option<BaseAuth.Request>, users: seq<Account>,
                       valid: (Account, string) -> bool): (r: Option<Account>)
    ensures request.None? ==> r.None?
    ensures ExtractBase64AuthorizationHeader(BaseAuth.AuthorizationHeader(request)).None? ==> r.None?
    ensures var token := ExtractBase64AuthorizationHeader(BaseAuth.AuthorizationHeader(request));
            DecodeBase64AuthorizationHeader(token).None? ==> r.None?
    ensures r.Some? ==> r.value in users
    ensures var creds := ExtractUserCredentials(DecodeBase64AuthorizationHeader(
              ExtractBase64AuthorizationHeader(BaseAuth.AuthorizationHeader(request))));
            creds.0.None? ==> r.None?
    ensures var creds := ExtractUserCredentials(DecodeBase64AuthorizationHeader(
              ExtractBase64AuthorizationHeader(BaseAuth.AuthorizationHeader(request))));
            r.Some? ==> r.value.email == creds.0.value && valid(r.value, creds.1.value)
    ensures var creds := ExtractUserCredentials(DecodeBase64AuthorizationHeader(
              ExtractBase64AuthorizationHeader(BaseAuth.AuthorizationHeader(request))));
            r.None? && creds.0.Some? && creds.1.Some? ==>
              forall u :: u in users && u.email == creds.0.value ==> !valid(u, creds.1.value)
  {
    if request.None? then None
    else
      var header := BaseAuth.AuthorizationHeader(request);
      var token := ExtractBase64AuthorizationHeader(header);
      var decoded := DecodeBase64AuthorizationHeader(token);
      var (email, password) := ExtractUserCredentials(decoded);
      UserObjectFromCredentials(email, password, users, valid)
  }

  /** A token without spaces after the prefix is extracted whole. */
  lemma ExtractOfPrefixed(token: string)
    requires ' ' !in token
    ensures ExtractBase64AuthorizationHeader(Some(Prefix + token)) == Some(token)
  {
    var header := Prefix + token;
    var r := ExtractBase64AuthorizationHeader(Some(header));
    assert r.Some?;
    var v := r.value;
    assert Prefix + v <= header;
    assert v == header[|Prefix|..|Prefix| + |v|];
    assert token == header[|Prefix|..];
    assert v <= token;
    assert v == token;
  }

  /** A request whose header is `Basic ` followed by the base 64 encoding of
      `email:password` is resolved exactly as those credentials are. */
  lemma CurrentUserOfEncodedCredentials(request: BaseAuth.Request, email: string, password: string,
                                        users: seq<Account>, valid: (Account, string) -> bool)
    requires ':' !in email
    requires BaseAuth.AuthorizationKey in request.headers
    requires request.headers[BaseAuth.AuthorizationKey] == Prefix + Base64.Encode(Utf8.Encode(email + ":" + password))
    ensures CurrentUser(Some(request), users, valid) == UserObjectFromCredentials(Some(email), Some(password), users, valid)
  {
    var text := email + ":" + password;
    var token := Base64.Encode(Utf8.Encode(text));
    assert BaseAuth.AuthorizationHeader(Some(request)) == Some(Prefix + token);
    ExtractOfPrefixed(token);
    DecodeOfEncodedString(text);
    CredentialsRoundTrip(email, password);
  }

  /** Against one stored user whose password is `pw1`: the header for
      `a@b.com:wrongpw` is rejected and the one for `a@b.com:pw1` is
      authenticated as that user. */
  lemma WrongAndRightPassword(request: BaseAuth.Request, u: Account, valid: (Account, string) -> bool,
                              password: string)
    requires u.email == "a@b.com"
    requires valid(u, "pw1") && !valid(u, "wrongpw")
    requires password == "pw1" || password == "wrongpw"
    requires BaseAuth.AuthorizationKey in request.headers
    requires request.headers[BaseAuth.AuthorizationKey] == Prefix + Base64.Encode(Utf8.Encode("a@b.com:" + password))
    ensures CurrentUser(Some(request), [u], valid) == if password == "pw1" then Some(u) else None
  {
    assert "a@b.com:" + password == "a@b.com" + ":" + password;
    CurrentUserOfEncodedCredentials(request, "a@b.com", password, [u], valid);
    assert Search([u], "a@b.com") == [u];
  }
}
