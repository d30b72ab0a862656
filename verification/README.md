# Authentication and log redaction, modelled in Dafny

This project models the pure logic at the heart of a small coursework web API.
It is written as immutable data and pure functions. State is passed in and the
new state is returned; the random session id and the clock are parameters.

- **Basic authentication** (section 2 of RFC 7617), in its two near-identical
  versions. Both strip the `Basic` scheme from the `Authorization` header and
  base64-decode the rest (section 4 of RFC 4648). They cut the decoded text at
  its first colon into e-mail and password, then return the first user with
  that e-mail whose password checks out. Every stage answers `None` to bad input
  (`BasicAuth`, `SessionBasicAuth`, `Base64`, `Users`, `Strings`).
- **In-memory sessions**: a map from session id to user id, with create,
  lookup, current-user and logout (`SessionAuth`).
- **Persisted, expiring sessions**: a sequence of session records
  `(session id, user id, created at)` beside the in-memory map. Expiry is
  checked lazily when a record is read, and `session_duration <= 0` switches it
  off (`SessionDbAuth`).
- **Log redaction** `filter_datum`: the single `re.sub` with the pattern
  `(?<=S=)[^S]+`, modelled as the substitution's left-to-right scan and proved
  equal to a segment-by-segment reference definition. The separator `=` makes
  the look-behind `==`, and gets a reference of its own (`FilteredLogger`).

Python's dynamic arguments become `PyValue` (`None`, an exact `str`, an
instance of a subclass of `str`, or anything else). Every stage tests
`type(x) is not str`, which refuses a subclass, with two exceptions in the
session exercise: `extract_user_credentials` tests `isinstance`, and
`SessionDBAuth.user_id_for_session_id` tests only for `None` and then searches
by equality, so both accept a subclass. `None` results become `Option`. A
raised exception becomes a `None` result, or the `KeyMissing` outcome where the
code lets it escape, except for the failures listed under "## Left out" (a
failing save, the date overflow).

Files: `wrappers.dfy`, `strings.dfy`, `base64.dfy`, `users.dfy`,
`basic_auth.dfy`, `session_basic_auth.dfy`, `session_auth.dfy`,
`session_db_auth.dfy`, `filtered_logger.dfy`.

## Model

| member | source | states |
|---|---|---|
| BasicAuth.ExtractBase64AuthorizationHeader | 0x01-Basic_authentication/api/v1/auth/basic_auth.py:16-25 | The result is present exactly when the header is a string that starts with `Basic`; it is then everything after the sixth character, which is dropped unchecked (so `BasicX…` is accepted too). `None` and non-strings give `None`. The session exercise's copy (0x02-Session_authentication/api/v1/auth/basic_auth.py:16-29) is the same code. |
| BasicAuth.DecodeBase64AuthorizationHeader | 0x01-Basic_authentication/api/v1/auth/basic_auth.py:27-42 | `None` or non-string input gives `None`; otherwise a decode failure is `None`, never an error. For a string input the result is exactly its base64 text decoding: one ASCII character per decoded byte, or `None` when decoding fails or a byte is not ASCII. When text is returned, the input is a multiple of four characters long, with the matching decoded length. The session exercise's copy (lines 31-46 of its file) is the same code. |
| BasicAuth.DecodeBase64AuthorizationHeaderOfEncoding | 0x01-Basic_authentication/api/v1/auth/basic_auth.py:27-42 | The header value that encodes an ASCII text decodes to exactly that text. |
| BasicAuth.ExtractUserCredentials | 0x01-Basic_authentication/api/v1/auth/basic_auth.py:44-56 | `None`, a non-string or colon-free text gives `(None, None)`. Otherwise both parts are strings, the e-mail has no colon, and `email + ":" + password` is the input, so later colons stay in the password. |
| BasicAuth.UserObjectFromCredentials | 0x01-Basic_authentication/api/v1/auth/basic_auth.py:58-78 | A user is returned exactly when both arguments are strings, the user table can be searched, and some user with that e-mail accepts the password. The user returned is the first such user in search order. The session exercise's copy (lines 63-83 of its file) is the same code. |
| BasicAuth.CurrentUser | 0x01-Basic_authentication/api/v1/auth/basic_auth.py:80-88 | A `None` from the header or decoding stage gives `None`. A returned user is in the table, its e-mail is the decoded text before the first colon, and the text after that colon is a valid password for it. |
| BasicAuth.CurrentUserAcceptsEncodedCredentials | 0x01-Basic_authentication/api/v1/auth/basic_auth.py:80-88 | The header `Basic ` plus the base64 encoding of `email:password` (colon-free e-mail, ASCII text) authenticates exactly the user that the credential lookup selects for that e-mail and password. |
| SessionBasicAuth.ExtractUserCredentials | 0x02-Session_authentication/api/v1/auth/basic_auth.py:48-61 | The `split(":")[0]` e-mail plus the slice after it gives the same pair as the first exercise's `split(':', 1)` on every input that is not a `str` subclass, including the `(None, None)` cases. A `str` subclass passes the `isinstance` test and is split exactly like the plain text. |
| SessionBasicAuth.ExtractUserCredentialsOnStrSubclass | 0x02-Session_authentication/api/v1/auth/basic_auth.py:53-61 | A `str` subclass holding a colon yields strings here but `(None, None)` in the first exercise, whose test at 0x01-Basic_authentication/api/v1/auth/basic_auth.py line 51 compares the exact type. |
| SessionBasicAuth.CurrentUser | 0x02-Session_authentication/api/v1/auth/basic_auth.py:85-93 | The session exercise's pipeline authenticates the same user as the first exercise's, on every header. |
| Users.SearchByEmail | 0x01-Basic_authentication/api/v1/auth/basic_auth.py:69-72 | The search fails exactly when the user table is not loaded; otherwise it finds exactly the users with that e-mail. |
| Users.WithEmailKeepsOrder | 0x01-Basic_authentication/api/v1/auth/basic_auth.py:69-72 | The search result is in table order: filtering a table made of two parts gives the first part's matches followed by the second part's. |
| Users.FirstValid | 0x01-Basic_authentication/api/v1/auth/basic_auth.py:75-78 | The loop finds nothing exactly when no user accepts the password; otherwise it finds a user that accepts it, with no earlier user accepting it. |
| Users.Get | 0x02-Session_authentication/api/v1/auth/session_auth.py:55-56 | `User.get` finds a user exactly when the id is present and some user has it; the user found has that id. |
| Base64.Decode | 0x01-Basic_authentication/api/v1/auth/basic_auth.py:37-38 | Decoding succeeds only on text whose length is a multiple of four and whose non-padding characters are all in the alphabet; it yields three bytes per group, less one or two for padding. |
| Base64.DecodeEncode | 0x01-Basic_authentication/api/v1/auth/basic_auth.py:37-38 | Decoding undoes encoding on every byte string. |
| Base64.DecodeText | 0x01-Basic_authentication/api/v1/auth/basic_auth.py:37-41 | Text is returned exactly when the input decodes and every decoded byte is below 128; it then has one character per decoded byte, each with that byte's code. |
| Base64.DecodeTextEncodeText | 0x01-Basic_authentication/api/v1/auth/basic_auth.py:36-42 | Decoding the encoding of any ASCII text gives the text back. |
| Strings.SplitOnce | 0x01-Basic_authentication/api/v1/auth/basic_auth.py:56 | `split(':', 1)` returns the whole text when it has no colon; otherwise it returns two parts, the first without a colon, which rejoin to the text. |
| Strings.Split | 0x02-Session_authentication/api/v1/auth/basic_auth.py:59 | `split(sep)` gives at least one piece; no piece contains the separator; the pieces rejoin to the text; there is one piece exactly when the separator is absent. |
| Strings.SplitJoin | 0x02-Session_authentication/api/v1/auth/basic_auth.py:59 | Splitting undoes joining whenever no piece contains the separator. |
| SessionAuth.CreateSession | 0x02-Session_authentication/api/v1/auth/session_auth.py:16-29 | A non-string user id gives `None` and an unchanged map. A string binds the fresh id to it, returns that id, and keeps every other binding. |
| SessionAuth.UserIdForSessionId | 0x02-Session_authentication/api/v1/auth/session_auth.py:32-42 | A user id is returned exactly when the session id is a string and a key of the map, and it is the bound value. |
| SessionAuth.CurrentUser | 0x02-Session_authentication/api/v1/auth/session_auth.py:44-56 | No cookie gives `None`. A user is returned exactly when the cookie's session is bound and some user has the bound id; that user has it. |
| SessionAuth.DestroySession | 0x02-Session_authentication/api/v1/auth/session_auth.py:58-76 | Logout succeeds exactly when the cookie is non-empty and its session is bound to a non-empty user id. On success exactly that key is removed; otherwise the map is unchanged. |
| SessionAuth.CreateThenLookup | 0x02-Session_authentication/api/v1/auth/session_auth.py:24-42 | Looking up the id that `create_session` returned gives back the user id. |
| SessionAuth.DestroyAtMostOnce | 0x02-Session_authentication/api/v1/auth/session_auth.py:67-76 | A second logout with the same cookie fails and changes nothing. |
| SessionAuth.DestroyThenLookupFails | 0x02-Session_authentication/api/v1/auth/session_auth.py:72-76 | After a logout the cookie's session id no longer resolves. |
| SessionAuth.CreateThenDestroy | 0x02-Session_authentication/api/v1/auth/session_auth.py:58-76 | Logging out a session just created for a non-empty user id succeeds and restores the map as it was before. |
| SessionAuth.EmptyUserIdSessionIsPermanent | 0x02-Session_authentication/api/v1/auth/session_auth.py:72-74 | A session created for the empty user id can never be logged out. |
| SessionDbAuth.CreateSession | 0x02-Session_authentication/api/v1/auth/session_db_auth.py:13-27 | A non-string user id gives `None` and leaves the store unchanged. Otherwise exactly one record `(id, user id, now)` is appended, the map gains exactly the binding from the fresh id to the user id, and that id is returned. |
| SessionDbAuth.FindRecord | 0x02-Session_authentication/api/v1/auth/session_db_auth.py:41-43 | The search finds nothing exactly when no record has the id; otherwise it finds the first record with it. |
| SessionDbAuth.UserIdForSessionId | 0x02-Session_authentication/api/v1/auth/session_db_auth.py:29-50 | `None` gives `None`. A user id is returned exactly when the id is a `str` (a subclass included, since the search compares by equality), a record has the id, and the first such record is live, that is, expiry is off or `created_at + duration >= now`. The result is that record's user id. |
| SessionDbAuth.DestroySession | 0x02-Session_authentication/api/v1/auth/session_db_auth.py:52-74 | Refused exactly when the cookie is missing or empty or no record matches. Raises (`KeyMissing`) exactly when a record matches but the map lacks the key. Otherwise it removes that key and the first matching record, and nothing else. |
| SessionDbAuth.CreatePreservesConsistency | 0x02-Session_authentication/api/v1/auth/session_db_auth.py:13-27 | Creating a session keeps record ids distinct, and each record id is still a map key. |
| SessionDbAuth.DestroyPreservesConsistency | 0x02-Session_authentication/api/v1/auth/session_db_auth.py:52-74 | A successful logout keeps record ids distinct, and each record id is still a map key. |
| SessionDbAuth.ConsistentDestroyNeverRaises | 0x02-Session_authentication/api/v1/auth/session_db_auth.py:72 | In a consistent store the `del` never raises. |
| SessionDbAuth.DestroyAtMostOnce | 0x02-Session_authentication/api/v1/auth/session_db_auth.py:64-74 | In a consistent store a second logout with the same cookie is refused. |
| SessionDbAuth.CreateThenLookup | 0x02-Session_authentication/api/v1/auth/session_db_auth.py:13-50 | A session just created resolves to its user for as long as it is live. |
| SessionDbAuth.ExpiryIsMonotone | 0x02-Session_authentication/api/v1/auth/session_db_auth.py:44-50 | A lookup that fails at one time fails at every later time. |
| SessionDbAuth.ExpiryKeepsRecord | 0x02-Session_authentication/api/v1/auth/session_db_auth.py:40-50 | An expired lookup leaves its record in place: it fails only because expiry is on, and it succeeds again with expiry off. |
| SessionDbAuth.RestartThenDestroyRaises | 0x02-Session_authentication/api/v1/auth/session_db_auth.py:69-72 | After a restart empties the in-memory map, every lookup of a session id gives the same answer as before, but logging out with the cookie of a stored session raises. |
| FilteredLogger.CopyThrough | 0x00-personal_data/filtered_logger.py:41-44 | Over a stretch of the message where no match can start (no `S=` followed by a non-separator character), the substitution copies the message unchanged and then carries on. |
| FilteredLogger.FilterDatum | 0x00-personal_data/filtered_logger.py:26-47 | The result of the substitution equals a reference computed on the message split at the separator. For a separator other than `=`: the first segment is kept, and every later segment that starts with `=` and has more after it becomes `=` plus the redaction. For `=`, where the look-behind is `==`: the first segment is kept, and a later non-empty segment becomes the redaction exactly when the segment before it is empty and is not the first segment (so `=x` is unchanged, while `==x` becomes `==` plus the redaction). |
| FilteredLogger.FilterDatumKeepsSegments | 0x00-personal_data/filtered_logger.py:41-44 | For a separator other than `=` and a redaction free of separators, the output has exactly the message's separators: the same number of segments, the first kept, and every later one kept or redacted. |
| FilteredLogger.FilterDatumIgnoresFields | 0x00-personal_data/filtered_logger.py:26-41 | The output does not depend on `fields`. |
| FilteredLogger.FilterDatumWithoutMarkerIsIdentity | 0x00-personal_data/filtered_logger.py:41-47 | A message in which `separator + "="` never occurs comes back unchanged. |
| FilteredLogger.FilterDatumIsIdempotent | 0x00-personal_data/filtered_logger.py:41-47 | With a redaction free of separators, and non-empty when the separator is `=`, redacting twice gives the same as redacting once. |
| FilteredLogger.RedactRunsIsIdempotent | 0x00-personal_data/filtered_logger.py:41-44 | For the separator `=` and a non-empty redaction, applying the run rule to its own output changes nothing: every segment keeps its emptiness, so the same segments are redacted again. |
| FilteredLogger.EmptyRedactionIsNotIdempotent | 0x00-personal_data/filtered_logger.py:41-44 | For the separator `=` and an empty redaction, `==x=y` (with `x` and `y` non-empty and free of `=`) becomes `===y`, and a second pass turns that into `===`. |
| FilteredLogger.FilterDatumLeavesFieldVisible | 0x00-personal_data/filtered_logger.py:26-47 | On a `name=value` line ended by the separator (for example `password=hunter2;`), nothing is redacted, whatever `fields` lists. |
| FilteredLogger.FilterFieldsRedactsNamedFields | 0x00-personal_data/filtered_logger.py:27-39 | The documented behaviour, for a redaction without the separator: after splitting at the separator, a segment whose name before `=` is listed in `fields` becomes `name=` plus the redaction. Every other segment is unchanged, and the segment count is kept. |
| FilteredLogger.FilterFieldsRedactsField | 0x00-personal_data/filtered_logger.py:27-39 | When `name` is listed in `fields`, the documented behaviour turns the line `name=value` plus separator into `name=` plus the redaction plus separator, e.g. `password=***;`. |

## Left out

- `RedactingFormatter` and its `format` method (0x00-personal_data/filtered_logger.py:9-23): they depend on `logging.Formatter` and timestamps. Only `filter_datum` is modelled.
- FilteredLogger.FilterDatum: the separator is one character that is not a regular-expression metacharacter, because the code pastes it unescaped into the pattern. The redaction must contain no backslash, because `re.sub` reads backslashes in the replacement as escapes.
- FilteredLogger.FilterDatumKeepsSegments: it states nothing for the separator `=`. There no segment starts with `=`, and a redacted segment becomes the redaction alone; FilterDatum's contract covers that case with the run-wise reference.
- FilteredLogger.FilterDatumIsIdempotent: it excludes the separator `=` with an empty redaction, because the code is not idempotent there (FilteredLogger.EmptyRedactionIsNotIdempotent).
- The web layer: `Auth.authorization_header` and `Auth.session_cookie` are not part of this model. The header value and the request's cookie are inputs. The Flask views and the end-to-end client script are framework glue and are left out.
- `User.search`, `User.get` and `User.is_valid_password` (models/user.py) are not part of this model. The user table is an input, with `NotLoaded` standing for a search that raises, and password checking is a function parameter.
- `UserSession.load_from_file`, `save` and `remove` are not part of this model. The records are a sequence in the store, and a failing save is not modelled.
- `SessionExpAuth` is not part of this model. Its `create_session` is modelled as the in-memory `create_session`. The map keeps only the user id; the creation time lives in the record. `session_duration` is an integer parameter.
- `uuid4` becomes a fresh-id parameter that must not be in use yet, so uniqueness of ids follows from that precondition. `datetime.utcnow()` and `timedelta` become whole seconds.
- SessionDbAuth.UserIdForSessionId: times are unbounded integers. In Python, `created_at + timedelta(seconds=session_duration)` (0x02-Session_authentication/api/v1/auth/session_db_auth.py:47-48) raises `OverflowError` once the sum passes the year 9999, and `timedelta` itself raises above 999,999,999 days. The model returns the user id in those cases instead of raising.
- The missing `TypeVar` import in 0x02-Session_authentication/api/v1/auth/session_auth.py:44 is a load-time error in Python, and is ignored. The class-level dictionary at line 14, shared by every instance, is explicit state.
- Base64.Decode: it accepts canonical base64 only. Unpadded input such as `QQ` is refused by Python too (`Incorrect padding`), so it gives `None` in both. Python's `b64decode` without `validate=True` also skips characters outside the alphabet and ignores whatever follows a completed padding group: `QQ==QQ==` decodes to `A` in Python and to `None` here.
- BasicAuth.DecodeBase64AuthorizationHeader: text is ASCII only. UTF-8 encoding and decoding are not modelled; a non-ASCII character in the header or a decoded byte of 128 or more gives `None`. Python would encode or decode it.

## Findings

| source | as written | input that shows it | evidently intended | confidence | as-written member | corrected member |
|---|---|---|---|---|---|---|
| 0x00-personal_data/filtered_logger.py:41-44 | The pattern `(?<=S=)[^S]+` redacts only a value whose `=` directly follows the separator, and `fields` is never used. | `filter_datum(["password"], "***", "password=hunter2;", ";")` returns the line unchanged. | As the docstring says, replace the value of every field named in `fields`: `password=***;`. | high; not executed | FilteredLogger.FilterDatumLeavesFieldVisible | FilteredLogger.FilterFieldsRedactsField |
