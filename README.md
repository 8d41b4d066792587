# portfolio-metrics: a verified model of its authentication core and in-memory tables

This Dafny project models the parts of the portfolio-metrics backend whose
behaviour can be stated exactly, and proves properties of them:

- **The signed-token scheme** (`app/util/security.py`). A token is the text
  `username|expiration|signature`. It is UTF-8 encoded, then encoded in the
  URL-safe Base64 alphabet of section 5 of RFC 4648, with '=' padding. The
  expiration is the issue time plus `ACCESS_TOKEN_EXPIRE_HOURS` (one hour),
  written as `%Y-%m-%d %H:%M:%S`. The signature is the hex HMAC-SHA256 of
  `username|expiration`.
  - `verify_token` decodes the token and splits it from the right with
    `rsplit('|', 2)`. It compares the signature, then checks the expiration
    against the clock. Every failure gives None.
  - The model includes UTF-8, base64url, calendar date-times with the one-hour
    step, `strftime` and `strptime` for that one format, and `rsplit`.
  - Round trips are proved for each layer and for the whole token: an issued
    token verifies to its username, whatever the username holds, exactly
    while the clock is before its expiration.
- **The authentication decisions** (`app/routers/auth.py`):
  - the bearer guard `get_current_user`;
  - the header handling of `/auth/verify`;
  - the branches of `login`;
  - registration (`create_user`), over a store of the users, user_role and
    user_role_mapping tables.

  The model proves:
  - which inputs give 401, 409, 422 or 500;
  - an unknown user and a wrong password get the same answer;
  - registration is all-or-nothing and grants exactly the `viewer` role;
  - a user who has just registered can log in and holds exactly that role.

  Registration is a method on the class `Auth.UserStore`, proved equal to
  the function `Auth.Register`.
- **The input validators** (`app/util/validators.py`). These are the password
  strength, e-mail shape and username shape checks, as Python's `re` decides
  them:
  - `\d` matches any Unicode decimal digit;
  - `$` also matches before one final newline.

  The e-mail pattern's search over split points is decided by a scan, proved
  to agree with it in both directions.
- **The response helpers** (`app/util/response_helpers.py`). These are the
  success and error envelopes, as maps, and the `HTTPException` builders, as
  status and detail values.
- **The in-memory portfolio and metrics tables** (`app/routers/portfolio.py`,
  `app/routers/metrics.py`). Each is a class holding the module's list as a
  `seq` field and its id counter as an `int` field. Its methods are the
  routes:
  - lookups are a linear scan, a `while` loop proved equal to a
    specification function;
  - create appends, update replaces in place, delete pops.

  Each table keeps its ids strictly increasing along the list and below the
  counter, and a ghost set of every id ever handed out shows that an id is
  never reused.

The clock, HMAC-SHA256 under `SECRET_KEY`, and bcrypt's hashing and checking
are parameters of the functions that use them.

Files:
- wrappers.dfy: `Option` and `Result`.
- text.dfy: `find`, `rfind`, `split`.
- utf8.dfy, base64url.dfy, timestamps.dfy: the layers of a token.
- security.dfy: the token scheme.
- response_helpers.dfy, validators.dfy, auth.dfy: the modules named above.
- tables.dfy: the list-with-ids shape shared by both tables.
- portfolio.dfy, metrics.dfy: the two tables.

## Model

| member | source | states |
|---|---|---|
| Utf8.Encode | app/util/security.py:27 | `str.encode()` writes each character as one to four bytes |
| Utf8.Decode | app/util/security.py:33 | strict `bytes.decode()`: a decoded text is no longer than its bytes and is empty only for no bytes |
| Utf8.DecodeEncode | app/util/security.py:27-33 | decoding the UTF-8 bytes of any text gives that text back |
| Utf8.EncodeDecode | app/util/security.py:33 | whatever strict UTF-8 decoding accepts encodes back to the same bytes, so two byte strings never decode to one text |
| Utf8.DecodeSplit | app/util/security.py:33 | one decoding step: the first character's bytes, then a rest that decodes too |
| Utf8.DecodeFirstExact | app/util/security.py:33 | the bytes one decoding step consumes are exactly the encoding of the character it yields |
| Base64Url.DecodeEncode | app/util/security.py:27-33 | decoding the base64url encoding of any byte string gives those bytes back |
| Base64Url.Encode | app/util/security.py:27 | `urlsafe_b64encode`: four characters per started group of three bytes, all from the URL-safe alphabet or '=' |
| Base64Url.Decode | app/util/security.py:33 | `urlsafe_b64decode` on padded input: what decodes is a whole number of four-character groups, each giving three bytes less at most two for the final padding |
| Base64Url.QuadRoundTrip | app/util/security.py:27-33 | the four sextets a group of three bytes is written as carry those three bytes back |
| Base64Url.DecodeQuadThen | app/util/security.py:27-33 | a group of four encoded characters followed by an encoding decodes to the group's bytes followed by that encoding's bytes |
| Timestamps.AddHour | app/util/security.py:23 | `+ timedelta(hours=1)`: a result is strictly later and keeps the minute, second and microsecond |
| Timestamps.AddHours | app/util/security.py:23 | `+ timedelta(hours=n)`: a result keeps the minute, second and microsecond |
| Timestamps.Format | app/util/security.py:23 | `strftime('%Y-%m-%d %H:%M:%S')` writes nineteen characters: digits, with '-' at 4 and 7, a space at 10 and ':' at 13 and 16 |
| Timestamps.AddHourMicros | app/util/security.py:23 | adding one hour stays a valid date-time and adds exactly one hour of microseconds; it fails only in the last hour of year 9999 |
| Timestamps.AddHoursMicros | app/util/security.py:23 | adding n hours adds exactly n hours to the instant |
| Timestamps.NextDayOrdinal | app/util/security.py:23 | the next calendar day, across month and year ends and leap years, has the next day number |
| Timestamps.BeforeIsEarlier | app/util/security.py:39 | comparing two date-times field by field is comparing their instants |
| Timestamps.Parse | app/util/security.py:39 | whatever `strptime` with '%Y-%m-%d %H:%M:%S' accepts is a valid date-time without a fraction of a second |
| Timestamps.ParseFormat | app/util/security.py:23-39 | reading back the text form gives the instant truncated to the whole second |
| Timestamps.FormatParse | app/util/security.py:39 | the text form is canonical: every text that parses is the formatting of what it parses to |
| Text.IndexOf | app/routers/auth.py:127 | the index of the first occurrence of a character, or None exactly when it does not occur |
| Text.LastIndexOf | app/util/security.py:34 | the index of the last occurrence of a character, or None exactly when it does not occur |
| Text.Split | app/routers/auth.py:127 | `split` gives at least one piece, and no piece holds the separator |
| Text.JoinSplit | app/routers/auth.py:127 | joining the pieces of a split with the separator gives the text back |
| Text.SplitJoin | app/routers/auth.py:127 | pieces without the separator split back apart from their join |
| Security.ExpirationFor | app/util/security.py:23 | the expiration exists exactly when adding the expiry hours does not overflow, and has no fraction of a second |
| Security.GenerateToken | app/util/security.py:21-27 | a token is issued exactly when the expiration can be computed, and is written in the URL-safe alphabet and '=' |
| Security.TokenText | app/util/security.py:32-33 | a token's text is the one whose UTF-8 bytes are the base64url decoding of the token |
| Security.RSplit2 | app/util/security.py:34 | the three parts of `rsplit('|', 2)` rejoin to the text, and the last two hold no '|' |
| Security.RSplit2Join | app/util/security.py:34 | splitting from the right recovers the three parts of a join whose last two parts hold no '|', whatever the first holds |
| Security.RSplit2None | app/util/security.py:34 | the three-way unpacking fails exactly when the text has fewer than two '|' |
| Security.TokenShape | app/util/security.py:21-27 | an issued token decodes to exactly `username|expiration|HMAC(username|expiration)` |
| Security.ExpirationIsOneHourLater | app/util/security.py:23 | the expiration is the issue time plus one hour, less the fraction of a second the text form drops; issuing fails only in the last representable hour |
| Security.FormatHasNoSeparator | app/util/security.py:23 | the written expiration holds no '|' |
| Security.VerifySignedText | app/util/security.py:34-44 | a wrong signature is rejected whatever the expiration; a right one is accepted exactly while the clock is strictly before a parsable expiration |
| Security.VerifyToken | app/util/security.py:29-47 | whatever verify_token accepts is a correctly signed, unexpired text for the username it returns |
| Security.VerifyGeneratedToken | app/util/security.py:21-40 | round trip: an issued token verifies to its username, whatever the username holds, exactly while the clock is before the issue time plus one hour to the whole second |
| Security.VerifyTokenFailsClosed | app/util/security.py:32-47 | bad base64, bad UTF-8, fewer than two '|' and an unparsable expiration each give None |
| ResponseHelpers.CreateSuccessResponse | app/util/response_helpers.py:5-10 | keys are success, message, and data exactly when data is not None; success is true; message and data are the given ones |
| ResponseHelpers.CreateErrorResponse | app/util/response_helpers.py:12-17 | keys are success, message, and details exactly when details is truthy, so an empty dict is omitted; success is false |
| ResponseHelpers.ErrorResponseIgnoresStatus | app/util/response_helpers.py:12-17 | the status code argument never changes the envelope |
| ResponseHelpers.HandleDatabaseError | app/util/response_helpers.py:19-25 | 500 with "Database error during {operation}" |
| ResponseHelpers.DatabaseErrorHidesCause | app/util/response_helpers.py:19-25 | two different errors during one operation give the same exception: the error text never reaches the client |
| ResponseHelpers.HandleValidationError | app/util/response_helpers.py:27-32 | 422 with "Validation error for {field}: {message}" |
| ResponseHelpers.HandleNotFoundError | app/util/response_helpers.py:34-39 | 404 with "{resource} with {identifier} not found" |
| ResponseHelpers.HandleUnauthorizedError | app/util/response_helpers.py:41-46 | 401 with the message as the detail, "Unauthorized access" by default |
| ResponseHelpers.ValidationErrorKeepsMessage | app/util/response_helpers.py:27-32 | for one field, different messages give different validation errors: the message reaches the client |
| ResponseHelpers.NotFoundErrorKeepsIdentifier | app/util/response_helpers.py:34-39 | for one resource, different identifiers give different not-found errors |
| ResponseHelpers.UnauthorizedErrorKeepsMessage | app/util/response_helpers.py:41-46 | different messages give different 401 errors, and the default detail is "Unauthorized access" |
| ResponseHelpers.ErrorKindsDistinct | app/util/response_helpers.py:19-46 | the four error builders answer with four different status codes |
| Validators.AsciiDigitIsDecimal | app/util/validators.py:17 | every ASCII digit is a Unicode decimal digit |
| Validators.Search | app/util/validators.py:13-17 | `re.search` for a one-character class succeeds exactly when some character is in the class |
| Validators.All | app/util/validators.py:24 | a repeated character class matches exactly when every character is in the class |
| Validators.ValidatePasswordStrength | app/util/validators.py:9-19 | true exactly when the length is at least 8 and there is an ASCII upper-case letter, an ASCII lower-case letter and a Unicode decimal digit |
| Validators.EndAnchored | app/util/validators.py:25 | `re.match` with `^...$`: a text that does not end in a newline matches only as a whole |
| Validators.IsEmailShape | app/util/validators.py:24 | the language of the e-mail pattern; a member has at least six characters, among them '@' and '.' |
| Validators.EmailScan | app/util/validators.py:24 | the scan from the first '@' and the last '.' after it accepts exactly the language of the e-mail pattern |
| Validators.EmailScanSound | app/util/validators.py:24 | what the scan accepts splits into local part, '@', domain, '.' and a top-level label |
| Validators.EmailScanComplete | app/util/validators.py:24 | every split of the pattern's shape passes the scan's checks |
| Validators.ValidateEmail | app/util/validators.py:22-25 | true exactly when the text, or the text less one final newline, is local part '@' domain '.' label, with a non-empty local part over `[a-zA-Z0-9._%+-]`, a non-empty domain over `[a-zA-Z0-9.-]` and a label of two or more ASCII letters |
| Validators.EmailShapeFacts | app/util/validators.py:24 | an accepted address holds exactly one '@', and its last '.' is followed by two or more letters and nothing else |
| Validators.ValidateUsername | app/util/validators.py:34-40 | the value back exactly when its length is at least 3 and it matches `[a-zA-Z0-9_]+`, allowing one final newline; otherwise the too-short message when it is shorter than 3, else the bad-characters message |
| Validators.ValidateEmailField | app/util/validators.py:42-46 | the value back exactly when validate_email accepts it, otherwise "Invalid email format" |
| Validators.ValidatePasswordField | app/util/validators.py:48-52 | the value back exactly when validate_password_strength accepts it, otherwise the strength message |
| Auth.GetCurrentUser | app/routers/auth.py:51-57 | the username verify_token yields when it is non-empty; otherwise 401 "Invalid or expired token" |
| Auth.GuardAcceptsIssuedToken | app/routers/auth.py:51-57 | an issued token passes the guard exactly while unexpired and never for the empty username |
| Auth.VerifyTokenEndpoint | app/routers/auth.py:118-138 | 401 "Token missing" exactly for an absent or empty header; 401 "Malformed token" exactly for a non-empty header without a space; for a header with a space, "Token valid" with the username exactly when the guard accepts the second space-separated word, and the guard's 401 otherwise |
| Auth.VerifyIgnoresScheme | app/routers/auth.py:127 | the first word of the header is never checked: any space-free scheme is answered as "Bearer" is |
| Auth.HeaderWithToken | app/routers/auth.py:127-138 | a header of two space-free words is answered from the second word alone |
| Auth.VerifyIssuedToken | app/routers/auth.py:118-138 | a header carrying an issued token is answered "Token valid" with the username exactly while the token is unexpired and the username non-empty, otherwise 401 "Invalid or expired token" |
| Auth.FindUser | app/routers/auth.py:74-77 | the first user row with the username, or None when there is none |
| Auth.FindNewUser | app/routers/auth.py:176-179 | after inserting a user with a free username, the lookup by that username finds the inserted row |
| Auth.FindRole | app/routers/auth.py:182-184 | the first role row with the name, or None when there is none |
| Auth.NamesWithId | app/routers/auth.py:90-98 | a name is listed exactly when a role with the id has that name |
| Auth.RoleNames | app/routers/auth.py:90-101 | a name is listed exactly when some mapping of the user joins a role of that name |
| Auth.RoleNamesAppend | app/routers/auth.py:90-101 | the role query over two runs of mappings is the query over each, concatenated |
| Auth.NewUserRoles | app/routers/auth.py:186-190 | a fresh user id mapped once to a role holds exactly that role's name |
| Auth.Login | app/routers/auth.py:59-115 | login fails only with 422, 401 or 500, and a success carries "Login successful" and the token issued for the username |
| Auth.LoginRequiresCredentials | app/routers/auth.py:65-66 | an empty username or password gives 422 before the tables or bcrypt are consulted |
| Auth.LoginHidesWhichCredentialFailed | app/routers/auth.py:79-109 | 401 "Invalid credentials" exactly when both fields are given and either no user has the username or the password does not check; the two cases look the same |
| Auth.LoginSuccess | app/routers/auth.py:85-107 | login succeeds exactly when both fields are given, the user exists, the password checks and a token can be issued; then it returns that token and the names of exactly the roles mapped to the user |
| Auth.LoginFound | app/routers/auth.py:85-107 | a found user with a checking password gets the issued token and the role query's names |
| Auth.Register | app/routers/auth.py:140-200 | a failure is 422, 409 or 500 and leaves the tables unchanged; a success appends one user row and keeps the roles |
| Auth.RegisterOutcomes | app/routers/auth.py:141-200 | 422 exactly for an empty field, 409 exactly for a taken username or e-mail, success exactly when there is also a viewer role; any failure leaves the tables unchanged |
| Auth.RegisterAddsViewer | app/routers/auth.py:169-192 | success adds exactly one user row, with the next id and the hashed password, and exactly one mapping of that id to a viewer role; the role table is unchanged |
| Auth.RegisterPreservesValid | app/routers/auth.py:156-190 | registration keeps usernames, e-mails and ids unique and every id below the counter |
| Auth.LoginAfterRegister | app/routers/auth.py:60-192 | right after registering, a login with the same password succeeds with the issued token and exactly the roles ["viewer"] |
| Auth.UserStore.CreateUser | app/routers/auth.py:141-200 | the answer and the new tables are those `Register` gives for the old tables, and the store stays valid |
| Tables.FirstIndex | app/routers/portfolio.py:65 | the index of the first record with the id, or None exactly when no record has it |
| Tables.Scan | app/routers/portfolio.py:65 | the linear scan finds the same index as FirstIndex |
| Tables.IncreasingSorted | app/routers/portfolio.py:50-58 | ids increasing from neighbour to neighbour increase throughout, so none occurs twice |
| Tables.RemoveAt | app/routers/portfolio.py:94 | `pop(k)` drops record k and keeps the others in order |
| Tables.FindMember | app/routers/portfolio.py:37 | in an increasing table, the scan for a record's id finds that record |
| Tables.Append | app/routers/portfolio.py:57-58 | appending a record with a larger id keeps ids increasing, finds the new record by its id and leaves other lookups unchanged |
| Tables.Replace | app/routers/portfolio.py:80 | replacing a record by one with the same id keeps ids increasing, finds the new record by that id, and leaves which ids are present and every other lookup unchanged |
| Tables.RemoveIncreasing | app/routers/portfolio.py:94 | popping a record keeps ids increasing |
| Tables.RemoveNotFound | app/routers/portfolio.py:94 | after the pop, the popped id is found no more |
| Tables.RemoveKeepsOthers | app/routers/portfolio.py:94 | after the pop, every other id is present exactly when it was before |
| PortfolioTable.Lookup | app/routers/portfolio.py:37-43 | a portfolio of the list with the id, or 404 "Portfolio not found" exactly when none has it |
| PortfolioTable.PortfolioStore.constructor | app/routers/portfolio.py:26-27 | an empty list and a counter at 1 |
| PortfolioTable.PortfolioStore.GetPortfolios | app/routers/portfolio.py:31-32 | the whole list in insertion order |
| PortfolioTable.PortfolioStore.GetPortfolio | app/routers/portfolio.py:37-43 | the first portfolio with the id, or 404 |
| PortfolioTable.PortfolioStore.CreatePortfolio | app/routers/portfolio.py:48-60 | the new portfolio takes the old counter as its id and the request's fields; it is appended at the end; the counter grows by exactly one; its id was never handed out before; it is found by its id and every other lookup is unchanged |
| PortfolioTable.PortfolioStore.UpdatePortfolio | app/routers/portfolio.py:65-81 | 404 and no change for an absent id; otherwise the record at the same index takes the request's fields and the new time, keeps its id and creation time, and no other record or lookup changes |
| PortfolioTable.PortfolioStore.DeletePortfolio | app/routers/portfolio.py:86-94 | 404 and no change for an absent id; otherwise exactly that record is popped, the others keep their order and presence, and a later get answers 404 |
| MetricTable.ForPortfolio | app/routers/metrics.py:42 | a metric is kept exactly when it is in the list with the portfolio id |
| MetricTable.ForPortfolioAppend | app/routers/metrics.py:42 | the filter keeps order: filtering a concatenation concatenates the filtered parts |
| MetricTable.ForPortfolioSingle | app/routers/metrics.py:75-90 | the filter keeps one metric exactly when exactly one metric of the list has the portfolio id |
| MetricTable.SelectMetrics | app/routers/metrics.py:41-43 | for None or 0, all metrics; for any other id, exactly the metrics of that portfolio |
| MetricTable.Lookup | app/routers/metrics.py:48-54 | a metric of the list with the id, or 404 "Metric not found" exactly when none has it |
| MetricTable.Values | app/routers/metrics.py:84 | the values of the metrics, one for one and in order |
| MetricTable.SummaryGuard | app/routers/metrics.py:75-90 | 404 exactly when no metric has the portfolio id; 400 exactly when the filter keeps one metric; otherwise two or more values |
| MetricTable.TooFewMeansOne | app/routers/metrics.py:86-90 | 400 exactly when exactly one metric of the list belongs to the portfolio |
| MetricTable.MetricStore.constructor | app/routers/metrics.py:35-36 | an empty list and a counter at 1 |
| MetricTable.MetricStore.GetMetrics | app/routers/metrics.py:39-43 | the selection for the optional portfolio id |
| MetricTable.MetricStore.GetMetric | app/routers/metrics.py:46-54 | the first metric with the id, or 404 |
| MetricTable.MetricStore.CreateMetric | app/routers/metrics.py:57-70 | the old counter is the new id, the metric goes at the end, the counter grows by one, the id was never handed out before, and the new metric is found by its id |
| MetricTable.MetricStore.PortfolioSummaryGuard | app/routers/metrics.py:73-90 | the summary's checks answer as SummaryGuard does |
| MetricTable.MetricStore.DeleteMetric | app/routers/metrics.py:127-137 | 404 and no change for an absent id; otherwise exactly the first matching metric is popped, the rest keep their order, and the id is found no more |

## Left out

- bcrypt (`hash_password`, `verify_password`) is the pair of parameters `hashPassword` and `checkPassword`; the random salt is folded into `hashPassword`. A `checkPassword` that raises on a malformed stored hash is `None`, and `login` turns it into 500.
- HMAC-SHA256 under `SECRET_KEY` is the parameter `sign`. The round trip assumes it writes 64 lower-case hex digits. Reading `SECRET_KEY` from the environment is not modelled.
- `hmac.compare_digest` is plain equality; its constant running time cannot be expressed. It raises on non-ASCII text, which Python turns into None; the model answers None there too, because such a signature never equals a hex digest.
- The clock readings (`datetime.utcnow()`, `datetime.now()`) are parameters. `create_portfolio` reads the clock twice, so `createdAt` and `updatedAt` are separate parameters.
- Base64Url.Decode: accepts only whole padded groups of alphabet characters; the bits the padding leaves over are ignored, so "QR==" is read as Python reads it. Python's decoder also discards characters outside the alphabet, and stops at the first complete padding, ignoring what follows; the model refuses such tokens.
- Timestamps.Parse: accepts only the fixed-width form that `strftime` writes. Python's `strptime` also accepts one-digit month, day and time fields, any run of whitespace for the space, and non-ASCII decimal digits, since its `\d` is Unicode. This matters only for a correctly signed text with such an expiration, which the issuer never writes.
- Timestamps.Format: always writes the year with four digits. Some C libraries write years below 1000 without padding, but the clock never reads such a year.
- Database I/O is not modelled. A failing connection or statement ends in the generic 500 handlers. The IntegrityError race between the conflict check and the insert is not modelled either: the model's store is used by one caller at a time.
- Auth.UserStore.CreateUser: restores the id counter when it rolls back. A database sequence keeps an id it has consumed. Ids stay unique either way.
- Auth.LoginSuccess: promises which role names are returned, not their order. SQL leaves the order of the join unspecified; the model lists them in mapping order.
- `hash_password` runs before the transaction. bcrypt raising there, for example on an over-long password, is not modelled: `hashPassword` is total.
- pydantic validation before the routes is not modelled. This covers `EmailStr` on registration, type coercion of request fields, and the response-model conversions. Request fields are plain strings, numbers and dates.
- FastAPI machinery is not modelled: async, `Depends`, and `HTTPBearer`, which rejects a missing or non-Bearer header before `get_current_user` runs. The guard takes the credential string as given.
- Floating point: `initial_balance` and metric values are reals that are stored and returned, never computed with. The statistics of `get_portfolio_summary` are left out: returns, volatility, Sharpe ratio, drawdown and rounding.
- JSON objects are maps, so the key order of Python dicts is not captured.
- `get_current_user_info` is a pure database read and is not part of this model.
- These files are not part of this model:
  - the instruments and securities routers, and the user stub router;
  - the Alpha Vantage client;
  - the database engine setup;
  - configuration, logging, and the application wiring.
- All logging calls are left out.
- The metrics router is not registered with the application (app/routers/__init__.py); the model treats its code as it stands.
