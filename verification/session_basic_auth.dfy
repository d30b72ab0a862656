/** The Basic-authentication class of the session exercise. Its header,
    decoding and user-selection stages are the same code as the first exercise's
    and are the members of `BasicAuth`; only the credential split differs: it
    takes `split(":")[0]` as the e-mail and the slice after it as the password. */
module SessionBasicAuth {
  import opened Wrappers
  import opened Strings
  import opened Users
  import BasicAuth

  /** `(email, password)` by split-then-slice. The type test is `isinstance`,
      so an instance of a `str` subclass is split like the plain string (and the
      parts are plain strings). On every other input it agrees with the first
      exercise's `split(':', 1)`. */
  function ExtractUserCredentials(decoded: PyValue): (r: (PyValue, PyValue))
    ensures !decoded.PyStrSubclass? ==> r == BasicAuth.ExtractUserCredentials(decoded)
    ensures decoded.PyStrSubclass? ==> r == BasicAuth.ExtractUserCredentials(PyStr(decoded.s))
  {
    if decoded.PyNone? then (PyNone, PyNone)
    else if !decoded.IsStrInstance() then (PyNone, PyNone)
    else if ':' !in decoded.s then (PyNone, PyNone)
    else
      var email := Split(decoded.s, ':')[0];
      var password := Drop(decoded.s, |email| + 1);
      (PyStr(email), PyStr(password))
  }

  /** The two exercises part ways on a `str` subclass holding a colon: the first
      exercise's `type(...) is str` test refuses it, the session exercise's
      `isinstance` test splits it. */
  lemma ExtractUserCredentialsOnStrSubclass(s: string)
    requires ':' in s
    ensures BasicAuth.ExtractUserCredentials(PyStrSubclass(s)) == (PyNone, PyNone)
    ensures ExtractUserCredentials(PyStrSubclass(s)).0.PyStr?
  {
  }

  /** The session exercise's Basic-auth pipeline authenticates the same user as
      the first exercise's on every header. */
  function CurrentUser(header: PyValue, table: UserTable,
                       isValidPassword: (User, string) -> bool): (r: Option<User>)
    ensures r == BasicAuth.CurrentUser(header, table, isValidPassword)
  {
    var encoded := BasicAuth.ExtractBase64AuthorizationHeader(header);
    var decoded := BasicAuth.DecodeBase64AuthorizationHeader(FromOption(encoded));
    var credentials := ExtractUserCredentials(FromOption(decoded));
    BasicAuth.UserObjectFromCredentials(credentials.0, credentials.1, table, isValidPassword)
  }
}
