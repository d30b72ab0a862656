/** HTTP "Basic" authentication (section 2 of RFC 7617) as the first exercise
    implements it: strip the scheme, base64-decode the rest, cut the text at its
    first colon into e-mail and password, and pick the first user with that
    e-mail whose password checks out. Every stage answers `None` to bad input. */
module BasicAuth {
  import opened Wrappers
  import opened Strings
  import opened Users
  import Base64

  const Scheme: string := "Basic"

  /** The base64 part of an `Authorization` header: everything from the seventh
      character on. Only the five letters `Basic` are checked; the sixth character,
      normally a space, is dropped without looking at it. */
  function ExtractBase64AuthorizationHeader(header: PyValue): (r: Option<string>)
    ensures r.Some? <==> header.PyStr? && StartsWith(header.s, Scheme)
    ensures r.Some? && |header.s| > |Scheme| ==> header.s == Scheme + [header.s[|Scheme|]] + r.value
    ensures r.Some? && |header.s| == |Scheme| ==> r.value == ""
  {
    if header.PyNone? then None
    else if !header.PyStr? then None
    else if !StartsWith(header.s, Scheme) then None
    else Some(Drop(header.s, |Scheme| + 1))
  }

  /** Base64-decodes the credentials; every failure is `None`, never a fault. */
  function DecodeBase64AuthorizationHeader(encoded: PyValue): (r: Option<string>)
    ensures !encoded.PyStr? ==> r.None?
    ensures encoded.PyStr? ==> r == Base64.DecodeText(encoded.s)
    ensures r.Some? ==> |encoded.s| % 4 == 0 && Base64.IsAscii(r.value)
    ensures r.Some? ==> 3 * (|encoded.s| / 4) - 2 <= |r.value| <= 3 * (|encoded.s| / 4)
    ensures r.Some? ==>
              var bytes := Base64.Decode(encoded.s);
              bytes.Some? && |r.value| == |bytes.value| &&
              forall i :: 0 <= i < |r.value| ==> r.value[i] as int == bytes.value[i]
  {
    if encoded.PyNone? then None
    else if !encoded.PyStr? then None
    else Base64.DecodeText(encoded.s)
  }

  /** The header stage gives back any ASCII text from its encoding. */
  lemma DecodeBase64AuthorizationHeaderOfEncoding(t: string)
    requires Base64.IsAscii(t)
    ensures DecodeBase64AuthorizationHeader(PyStr(Base64.EncodeText(t))) == Some(t)
  {
    Base64.DecodeTextEncodeText(t);
  }

  /** `(email, password)` from the decoded text, cut at the first colon
      (`split(':', 1)`); later colons stay in the password. */
  function ExtractUserCredentials(decoded: PyValue): (r: (PyValue, PyValue))
    ensures !(decoded.PyStr? && ':' in decoded.s) ==> r == (PyNone, PyNone)
    ensures decoded.PyStr? && ':' in decoded.s ==>
              r.0.PyStr? && r.1.PyStr? && ':' !in r.0.s && r.0.s + ":" + r.1.s == decoded.s
  {
    if decoded.PyNone? then (PyNone, PyNone)
    else if !decoded.PyStr? then (PyNone, PyNone)
    else if ':' !in decoded.s then (PyNone, PyNone)
    else
      var parts := SplitOnce(decoded.s, ':');
      (PyStr(parts[0]), PyStr(parts[1]))
  }

  /** The first user, in search order, with e-mail `email` for whom `pwd` is valid. */
  function UserObjectFromCredentials(email: PyValue, pwd: PyValue, table: UserTable,
                                     isValidPassword: (User, string) -> bool): (r: Option<User>)
    ensures r.Some? <==>
              email.PyStr? && pwd.PyStr? && table.Loaded? &&
              exists u :: u in table.users && u.email == email.s && isValidPassword(u, pwd.s)
    ensures r.Some? ==>
              var found := SearchByEmail(table, email.s).value;
              exists i :: 0 <= i < |found| && found[i] == r.value && isValidPassword(r.value, pwd.s) &&
                          forall j :: 0 <= j < i ==> !isValidPassword(found[j], pwd.s)
  {
    if email.PyNone? || pwd.PyNone? then None
    else if !email.PyStr? then None
    else if !pwd.PyStr? then None
    else
      match SearchByEmail(table, email.s)
      case None => None
      case Some(users) =>
        if |users| == 0 then None
        else
          match FirstValid(users, pwd.s, isValidPassword)
          case None => None
          case Some(i) => Some(users[i])
  }

  /** The user a request's `Authorization` header authenticates. `header` is what
      `Auth.authorization_header` returned for the request. */
  function CurrentUser(header: PyValue, table: UserTable,
                       isValidPassword: (User, string) -> bool): (r: Option<User>)
    ensures ExtractBase64AuthorizationHeader(header).None? ==> r.None?
    ensures DecodeBase64AuthorizationHeader(FromOption(ExtractBase64AuthorizationHeader(header))).None? ==> r.None?
    ensures r.Some? ==>
              var decoded := DecodeBase64AuthorizationHeader(FromOption(ExtractBase64AuthorizationHeader(header))).value;
              var colon := IndexOf(decoded, ':');
              colon < |decoded| && table.Loaded? && r.value in table.users &&
              r.value.email == decoded[..colon] && isValidPassword(r.value, decoded[colon + 1..])
  {
    var encoded := ExtractBase64AuthorizationHeader(header);
    var decoded := DecodeBase64AuthorizationHeader(FromOption(encoded));
    var credentials := ExtractUserCredentials(FromOption(decoded));
    UserObjectFromCredentials(credentials.0, credentials.1, table, isValidPassword)
  }

  /** A header carrying `Basic `, then the base64 encoding of `email:password`,
      authenticates exactly the user that the credentials select. */
  lemma CurrentUserAcceptsEncodedCredentials(email: string, pwd: string, table: UserTable,
                                             isValidPassword: (User, string) -> bool)
    requires ':' !in email
    requires Base64.IsAscii(email + ":" + pwd)
    ensures CurrentUser(PyStr(Scheme + " " + Base64.EncodeText(email + ":" + pwd)), table, isValidPassword)
            == UserObjectFromCredentials(PyStr(email), PyStr(pwd), table, isValidPassword)
  {
    var text := email + ":" + pwd;
    var encoded := Base64.EncodeText(text);
    var header := Scheme + " " + encoded;
    assert StartsWith(header, Scheme);
    assert Drop(header, |Scheme| + 1) == encoded;
    Base64.DecodeTextEncodeText(text);
    assert ':' in text by { assert text[|email|] == ':'; }
    IndexOfPrefix(email, ':', pwd);
    assert text[..|email|] == email;
    assert text[|email| + 1..] == pwd;
  }
}
