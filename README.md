# Task-manager authentication core in Dafny

This project models the authentication core of a small Express/MongoDB
task manager:

- the two register/login routers:
  - `backend/routes/Ather.js`, the relaxed variant: trimmed username of 3–30
    characters, password of at least 6, 409 on a duplicate;
  - `backend/routes/auth.js`, the strict variant: the raw username must be
    3–30 characters and alphanumeric, the password must be strong, and a
    duplicate gives 400;
- the stateless mock handlers that `backend/tests/api-mock-tests.js` runs its
  API tests against;
- the string helpers of `backend/tests/basic-unit-tests.js`: the
  `isStrongPassword` helper, the email pattern and the lowercasing check.

Modules:

- `Wrappers`: `Option`.
- `Text`: JavaScript's `\s` class, `trim` and `toLowerCase`.
- `Validator`: the express-validator error record and the validators whose
  rules are explicit. `isLength`, `isAlphanumeric` and the thresholds of
  `isStrongPassword` are modelled. `validationResult(req).array()` is
  modelled as one error per failing validator, in chain order.
- `Store`: the user collection as a `seq<User>`.
  - `findOne` is `FirstMatch`.
  - `save` is `SaveSpec`. It enforces the unique indexes on email and
    username with error code 11000.
  - The `UserStore` class has a scanning `FindOne` method and an appending
    `Save` method.
  - A bearer token is its payload: user id, issue time, an expiry one hour
    later, and the signing secret.
- `Http`: request and response payloads, and the environment a handler runs
  in. The environment holds the clock, `JWT_SECRET`, bcrypt's hash and
  compare, and a driver fault.
- `Ather` and `Auth`: each route is a specification function from the
  collection before the request to the collection after it plus the
  response. Each route also has a module-level method that takes a
  `UserStore` and is proved equal to that function. The lemmas state what the routes promise.
- `MockApi`: the six mock handlers.
- `UnitChecks`: the test helpers.
- `Variants`: how the two routers relate to each other and to the test
  helper.

Library behaviour that is not written out here is a parameter, not an
assumption:

- express-validator's `isEmail`, `normalizeEmail` and `escape`;
- the symbol class of `isStrongPassword`;
- bcrypt;
- the clock.

A property proved for every value of these parameters holds for every
string-valued `normalizeEmail`, every deterministic `hash`, and any
`verify`, except where a lemma states a hypothesis about `verify` (for
example, that it accepts the password a hash was made from) or about
`normalizeEmail` (`Variants.DuplicateUserStatuses` asks that it returns
lower case, so that both routers look up the same email).

## Model

| member | source | states |
|---|---|---|
| Text.IsSpace | backend/routes/Ather.js:27 | definition: JavaScript's `\s` class (the whitespace and line-terminator characters `trim` strips and the email pattern excludes); characterised by Text.TrimKeepsMiddle and UnitChecks.EmailMatchesIff |
| Text.TrimStart | backend/routes/Ather.js:27 | the result is a suffix of the input; every character removed is whitespace; the result does not start with whitespace |
| Text.TrimEnd | backend/routes/Ather.js:27 | the result is a prefix of the input; every character removed is whitespace; the result does not end with whitespace |
| Text.Trim | backend/routes/Ather.js:27 | the result is no longer than the input and has no whitespace at either end |
| Text.TrimKeepsMiddle | backend/routes/Ather.js:27 | the trimmed value is the slice of the input after its leading whitespace run, and everything before and after that slice is whitespace |
| Text.TrimFixed | backend/routes/Ather.js:52 | a string with no whitespace at either end is its own trim |
| Text.TrimIdempotent | backend/routes/Ather.js:52 | trimming the already trimmed username again, as the handler does, changes nothing |
| Text.TrimNoSpace | backend/routes/auth.js:16 | a string with no whitespace is its own trim |
| Text.LowerChar | backend/routes/Ather.js:46 | an upper-case ASCII letter maps to its lower-case letter; every other character is kept |
| Text.ToLower | backend/routes/Ather.js:46 | same length as the input, lowered character by character |
| Text.ToLowerIdempotent | backend/routes/Ather.js:46 | lowering twice is lowering once, and no upper-case ASCII letter remains; so the email keys, each lower-cased once (the lookups at :46 and :82, the stored value at :52), are all in lower-case form |
| Validator.ValidationResult | backend/routes/Ather.js:40-41 | at most one error per validator; the list is empty exactly when every validator passed |
| Validator.ResultReportsFailures | backend/routes/Ather.js:40-41 | a field is reported exactly when one of its validators failed |
| Validator.ResultHasEveryFailure | backend/routes/auth.js:34-39 | the error record of every failing validator is in the result |
| Validator.ResultEntriesFailed | backend/routes/auth.js:34-39 | every entry of the result is the record of a validator that failed |
| Validator.ReportsSoleValidator | backend/routes/Ather.js:40-41 | a field checked by one validator is reported, with that validator's record, exactly when the validator failed |
| Validator.AlphanumericHasNoSpace | backend/routes/auth.js:14 | a value that passes `isAlphanumeric` has no whitespace |
| Validator.Count | backend/routes/auth.js:23-29 | the number of characters of a class is at most the length, and is positive exactly when the class occurs |
| Validator.IsLength | backend/routes/auth.js:12 | definition: the length is at least the minimum and, when a maximum is given, at most the maximum; characterised by Ather.RegisterErrors, Auth.RegisterErrors and Auth.LoginErrors |
| Validator.IsAlphanumeric | backend/routes/auth.js:14 | definition: non-empty, with every character an ASCII letter or digit; characterised by Validator.AlphanumericHasNoSpace and Variants.StrictUsernamePassesRelaxed |
| Validator.CountsAsSymbol | backend/routes/auth.js:23-29 | definition: a character counts as a symbol only when it is not an ASCII letter or digit and belongs to the library's symbol class; characterised by Variants.UnitCheckWeakerThanStrict |
| Validator.IsStrongPassword | backend/routes/auth.js:23-29 | definition: the length and the lower-case, upper-case, digit and symbol counts each meet their minimum; characterised by Variants.StrictPasswordPassesUnitCheck and Variants.UnitCheckWeakerThanStrict |
| Store.FirstMatch | backend/routes/Ather.js:46 | `findOne` finds a user exactly when one matches the filter, and returns the first match in collection order |
| Store.Matches | backend/routes/Ather.js:46 | definition: the `findOne` filters, an email equality or the `$or` of email and username equalities; characterised by Store.FirstMatch, Store.FindsTaken and Store.FindsEmail |
| Store.FindsTaken | backend/routes/Ather.js:46-47 | the `$or` lookup finds a user exactly when the email or the username is taken |
| Store.FindsEmail | backend/routes/Ather.js:82 | the email lookup finds a user exactly when one has that email |
| Store.SaveKeepsWellFormed | backend/routes/Ather.js:52-53 | `save` keeps identifiers, emails and usernames unique; a failed save changes nothing; a successful save appends exactly the new user with the hashed password and a fresh id, and keeps every earlier record |
| Store.SaveSpec | backend/routes/Ather.js:52-53 | definition: a driver fault fails with that error; a stored user with the same email or username fails with code 11000; otherwise the user is appended under the next id with the hashed password; characterised by Store.SaveKeepsWellFormed |
| Store.WellFormed | backend/routes/Ather.js:52-53 | definition: the collection invariant, that ids are below the next id and ids, emails and usernames are unique (the unique indexes `save` enforces); characterised by Store.SaveKeepsWellFormed, Ather.RegisterKeepsWellFormed and Auth.RegisterKeepsWellFormed |
| Store.FirstMatchAppend | backend/routes/Ather.js:82 | appending a matching user to a collection with no match makes that user the one found |
| Store.Issue | backend/routes/Ather.js:56 | the token names the user, is issued now and expires 3600 s later |
| Store.UserStore.FindOne | backend/routes/Ather.js:46 | the scan returns `FirstMatch` of the collection |
| Store.UserStore.Save | backend/routes/Ather.js:53 | the new state and result are those of `SaveSpec`, and the collection invariant is kept |
| Ather.SendValidation | backend/routes/Ather.js:12-17 | 400 'Validation failed' with every error reduced to its `{field, msg}` pair, in order |
| Ather.UsernameOk | backend/routes/Ather.js:26-29 | definition: the trimmed username has 3 to 30 characters; characterised by Ather.RegisterErrors |
| Ather.PasswordOk | backend/routes/Ather.js:34-36 | definition: the password has at least 6 characters; characterised by Ather.RegisterErrors |
| Ather.RegisterValidations | backend/routes/Ather.js:25-37 | definition: the three validators in chain order, with their messages and the values they see (the trimmed username); characterised by Ather.RegisterErrors and Ather.RegisterReportsEveryFailure |
| Ather.RegisterErrors | backend/routes/Ather.js:25-37 | no error exactly when the trimmed username has 3–30 characters, the email is valid and the password has at least 6 characters; at most three errors |
| Ather.RegisterReportsEveryFailure | backend/routes/Ather.js:26-36 | each field is reported exactly when its rule fails, with its message and the value its validator saw (the trimmed username) |
| Ather.Caught | backend/routes/Ather.js:59-65 | error code 11000 gives 409 'User already exists'; any other error gives 500 'Error creating user' |
| Ather.SigningSecret | backend/routes/Ather.js:56 | `JWT_SECRET` when it is set and non-empty, else 'dev-secret'; never empty |
| Http.Truthy | backend/routes/Ather.js:56 | definition: JavaScript truthiness of an optional string field, present and non-empty, as the `or` fallback uses it; characterised by Ather.SigningSecret and MockApi.Or |
| Ather.EmailKey | backend/routes/Ather.js:46 | definition: the normalized email, lower-cased; characterised by Ather.RegisterRejectsDuplicate, Ather.RegisterSuccessState and Ather.LoginInvalidCredentials |
| Ather.RegisterSpec | backend/routes/Ather.js:38-66 | definition: validation errors answer 400 with no change, otherwise the store steps run on the sanitized fields; characterised by Ather.RegisterSucceedsIff, Ather.RegisterSuccessState, Ather.RegisterChangesOnlyOnSuccess and Ather.RegisterKeepsWellFormed |
| Ather.Persist | backend/routes/Ather.js:43-65 | definition: the duplicate lookup on the username, the save of its trimmed form (passed as `stored`) and the token, with a thrown error mapped through Caught; characterised by Ather.PersistCases |
| Ather.Register | backend/routes/Ather.js:38-66 | the handler on the collection: new collection and response are those of `RegisterSpec`; the invariant is kept |
| Ather.RegisterRejectsInvalid | backend/routes/Ather.js:40-41 | invalid input gives 400 with every error; the collection is unchanged; the response is the same whatever the collection and environment |
| Ather.RegisterRejectsDuplicate | backend/routes/Ather.js:46-49 | a user with the same lowercased email or the same trimmed username gives 409 'User already exists' and no change |
| Ather.PersistCases | backend/routes/Ather.js:46-65 | when the saved username is the one looked up, the store steps give 201 exactly when nothing is taken and the driver throws nothing, and then append exactly the new user; otherwise nothing changes and a thrown error maps through `Caught` |
| Ather.RegisterSucceedsIff | backend/routes/Ather.js:38-58 | 201 exactly when the input is valid, neither email nor username is taken and the driver throws nothing |
| Ather.RegisterSuccessState | backend/routes/Ather.js:52-58 | on 201 exactly one user is appended (trimmed username, lowercased email, hashed password); the body is `{token, userId, username}` with a one-hour token for the new id and no password |
| Ather.RegisterChangesOnlyOnSuccess | backend/routes/Ather.js:41-65 | every response other than 201 leaves the collection unchanged |
| Ather.RegisterMapsDriverErrors | backend/routes/Ather.js:59-65 | an error from `findOne` or `save` gives 409 for code 11000 and 500 otherwise |
| Ather.RegisterKeepsWellFormed | backend/routes/Ather.js:38-66 | register keeps the collection invariant |
| Ather.RegisterStatuses | backend/routes/Ather.js:38-66 | register answers only 201, 400, 409 or 500 |
| Ather.LoginPasswordOk | backend/routes/Ather.js:74 | definition: `isLength({ min: 1 })`, a non-empty password; characterised by Ather.LoginErrors and Ather.LoginRejectsInvalid |
| Ather.LoginValidations | backend/routes/Ather.js:72-75 | definition: the email and password validators in chain order with their messages; characterised by Ather.LoginErrors |
| Ather.LoginSpec | backend/routes/Ather.js:76-92 | definition: validation errors answer 400, a lookup error 500, an unknown email or a failed compare 401, otherwise 200 with a token; characterised by Ather.LoginInvalidCredentials, Ather.LoginSucceeds and Ather.RegisterThenLogin |
| Ather.LoginErrors | backend/routes/Ather.js:72-75 | no error exactly when the email is valid and the password is non-empty |
| Ather.LoginRejectsInvalid | backend/routes/Ather.js:78-79 | 400 exactly when the email is invalid or the password empty, and then the body lists every error, before the collection is read |
| Ather.Login | backend/routes/Ather.js:76-92 | the handler reads the collection and answers `LoginSpec` |
| Ather.LoginInvalidCredentials | backend/routes/Ather.js:82-85 | 401 exactly when the input is valid and no user with the lowercased email has a password that verifies; every 401 is the same 'Invalid credentials' |
| Ather.LoginFailuresIndistinguishable | backend/routes/Ather.js:83-84 | any two 401 responses are identical, whatever the collections and requests |
| Ather.LoginSucceeds | backend/routes/Ather.js:82-88 | a 200 carries the id and username of a stored user whose email matches and whose password verifies, with a one-hour token for that id |
| Ather.RegisterThenLogin | backend/routes/Ather.js:82-88 | after a successful register, logging in with the same email and password answers 200 for the new account |
| Auth.RegisterErrors | backend/routes/auth.js:10-30 | no error exactly when the raw username has 3–30 characters and is alphanumeric, the email is valid and the password is strong; at most four errors |
| Auth.UsernameLengthOk | backend/routes/auth.js:12 | definition: the raw username has 3 to 30 characters; characterised by Auth.RegisterErrors |
| Auth.PasswordStrong | backend/routes/auth.js:23-29 | definition: strong with at least 8 characters and one each of lower case, upper case, digit and symbol; characterised by Auth.RegisterErrors and Variants.StrictPasswordPassesUnitCheck |
| Auth.RegisterValidations | backend/routes/auth.js:10-30 | definition: the four validators in chain order, each seeing the raw value; characterised by Auth.RegisterErrors and Auth.RegisterReportsEveryFailure |
| Auth.RegisterReportsEveryFailure | backend/routes/auth.js:11-30 | each field is reported exactly when one of its rules fails; each failing rule leaves its message and the raw value |
| Auth.Rejected | backend/routes/auth.js:36-39 | 400 'Validation failed' with express-validator's error records as they are |
| Auth.StoredUsername | backend/routes/auth.js:16-17 | definition: the escaped trimmed username; characterised by Auth.RegisterSuccessState and Auth.RegisterRejectsDuplicate |
| Auth.RegisterSpec | backend/routes/auth.js:31-61 | definition: validation errors answer 400 with no change, otherwise the store steps run on the sanitized fields; characterised by Auth.RegisterSucceedsIff, Auth.RegisterSuccessState, Auth.RegisterChangesOnlyOnSave and Auth.RegisterKeepsWellFormed |
| Auth.Persist | backend/routes/auth.js:42-60 | definition: the duplicate lookup, the save and the token, where a missing secret gives 500 after the save; characterised by Auth.PersistCases |
| Auth.Register | backend/routes/auth.js:31-61 | the handler on the collection: new collection and response are those of `RegisterSpec`; the invariant is kept |
| Auth.RegisterRejectsInvalid | backend/routes/auth.js:34-40 | invalid input gives 400 with every error; the collection is unchanged; the response is the same whatever the collection and environment |
| Auth.RegisterEchoesRejectedPassword | backend/routes/auth.js:22-39 | a rejected password is sent back: the 400 body holds a password record whose value is the submitted password |
| Auth.PersistCases | backend/routes/auth.js:44-60 | a lookup error gives 500; a taken email or username gives 400 and no change; a save error gives 500 and no change; otherwise the user is appended and the answer is 201 if a secret is set, else 500 |
| Auth.RegisterRejectsDuplicate | backend/routes/auth.js:44-47 | a user with the same normalized email or the same sanitized username gives 400 'User already exists' and no change |
| Auth.RegisterSucceedsIff | backend/routes/auth.js:31-56 | 201 exactly when the input is valid, nothing is taken, the driver throws nothing and `JWT_SECRET` is set and non-empty |
| Auth.RegisterSuccessState | backend/routes/auth.js:49-56 | on 201 exactly one user is appended (escaped raw username, normalized email, hashed password); the body is `{token, userId, username}` with a one-hour token |
| Auth.RegisterNeverConflicts | backend/routes/auth.js:57-60 | register answers only 201, 400 or 500; a duplicate-key error from `save` gives 500 'Error creating user' |
| Auth.RegisterWithoutSecretKeepsUser | backend/routes/auth.js:50-59 | with no signing secret the client gets 500, yet the collection is the old one plus exactly the new user (escaped username, normalized email, hashed password) under the next id |
| Auth.RegisterRetryAfterMissingSecret | backend/routes/auth.js:44-59 | after that 500, the same request answers 400 'User already exists' with no change |
| Auth.RegisterChangesOnlyOnSave | backend/routes/auth.js:44-60 | the collection changes only on 201, or on the 500 of a missing secret |
| Auth.RegisterKeepsWellFormed | backend/routes/auth.js:31-61 | register keeps the collection invariant |
| Auth.LoginValidations | backend/routes/auth.js:64-75 | definition: the four validators in chain order; the email length rule sees the normalized email; characterised by Auth.LoginErrors |
| Auth.LoginSpec | backend/routes/auth.js:76-104 | definition: validation errors answer 400, a lookup error 500, an unknown email or a failed compare 401, a missing secret 500, otherwise 200 with a token; characterised by Auth.LoginInvalidCredentials, Auth.LoginSucceeds and Auth.RegisterThenLogin |
| Auth.LoginErrors | backend/routes/auth.js:64-75 | no error exactly when the email is valid, its normalized form has at most 100 characters, and the password has 1 to 100 characters |
| Auth.Login | backend/routes/auth.js:76-104 | the handler reads the collection and answers `LoginSpec` |
| Auth.LoginRejectsInvalid | backend/routes/auth.js:79-85 | 400 exactly for an invalid or over-long email or an empty or over-long password, with every error, before the collection is read |
| Auth.LoginInvalidCredentials | backend/routes/auth.js:89-93 | 401 exactly when the input is valid and no user with the normalized email has a password that verifies; every 401 is the same 'Invalid credentials' |
| Auth.LoginFailuresIndistinguishable | backend/routes/auth.js:90-92 | any two 401 responses are identical |
| Auth.LoginSucceeds | backend/routes/auth.js:89-99 | a 200 needs a signing secret, and carries a matching verified user's id and username with a one-hour token |
| Auth.RegisterThenLogin | backend/routes/auth.js:89-99 | after a successful register, logging in with the same credentials answers 200 for the new account, when both credentials are within the 100-character limits |
| Auth.LongPasswordLocksOut | backend/routes/auth.js:71-75 | an account registered with a password of more than 100 characters always gets 400 at login |
| MockApi.Or | backend/tests/api-mock-tests.js:46 | the or-default of a body field: the field when it is present and non-empty, otherwise the fallback |
| MockApi.Register | backend/tests/api-mock-tests.js:11-21 | 400 'Missing required fields' exactly when a field is missing or empty; otherwise 201 with the fixed token and user id and the submitted username |
| MockApi.Login | backend/tests/api-mock-tests.js:23-34 | 200 exactly for test@example.com / password123, as 'testuser'; every other input gets the same 401 'Invalid credentials' |
| MockApi.CreateTask | backend/tests/api-mock-tests.js:37-50 | 400 exactly when the title or the description is missing or empty; otherwise 201 echoing both, with status defaulting to 'pending' and the request time as `createdAt` |
| MockApi.ListTasks | backend/tests/api-mock-tests.js:52-62 | always 200 with a list of exactly one task |
| MockApi.UpdateTask | backend/tests/api-mock-tests.js:64-73 | always 200 with the path id as `_id`; each field is the submitted one or its default ('Updated Task', 'Updated Description', 'in-progress') |
| MockApi.DeleteTask | backend/tests/api-mock-tests.js:75-77 | always 200 'Task deleted successfully', whatever the id |
| MockApi.ReturnedTasksHaveNoEmptyField | backend/tests/api-mock-tests.js:42-72 | no task returned by create or update has an empty title, description or status |
| MockApi.RegisterThenLogin | backend/tests/api-mock-tests.js:11-34 | after a successful mock register, a login with the same credentials succeeds only for the fixed pair, and then as 'testuser' |
| MockApi.AuthTestExpectations | backend/tests/api-mock-tests.js:91-129 | the register, login and wrong-password tests get the statuses and fields they expect |
| MockApi.TaskTestExpectations | backend/tests/api-mock-tests.js:134-177 | the create, list, update and delete tests get the statuses and fields they expect |
| UnitChecks.IsStrongPassword | backend/tests/basic-unit-tests.js:23-25 | true exactly when the password has at least 8 characters, an A–Z letter and a 0–9 digit |
| UnitChecks.EmailShape | backend/tests/basic-unit-tests.js:17 | definition: the pattern read off directly, three non-empty runs of characters other than whitespace and '@', joined by '@' and a dot; characterised by UnitChecks.EmailMatchesIff |
| UnitChecks.EmailMatches | backend/tests/basic-unit-tests.js:17 | definition: the scan up to the first '@', then a domain holding a dot with characters on both sides; characterised by UnitChecks.EmailMatchesIff and UnitChecks.EmailHasOneAt |
| UnitChecks.StrongPasswordExamples | backend/tests/basic-unit-tests.js:27-28 | 'Password123' is strong and 'weak' is not |
| UnitChecks.EmailMatchesShaped | backend/tests/basic-unit-tests.js:17 | every string the scan accepts is a·'@'·b·'.'·c with a, b and c non-empty runs of `[^\s@]` |
| UnitChecks.ShapedEmailMatches | backend/tests/basic-unit-tests.js:17 | every string of that shape is accepted |
| UnitChecks.EmailMatchesIff | backend/tests/basic-unit-tests.js:17 | the scan accepts exactly the strings of the pattern's shape |
| UnitChecks.EmailHasOneAt | backend/tests/basic-unit-tests.js:17 | an accepted address has exactly one '@' |
| UnitChecks.EmailAcceptsExample | backend/tests/basic-unit-tests.js:18 | 'test@example.com' is accepted |
| UnitChecks.EmailRejectsExample | backend/tests/basic-unit-tests.js:19 | 'invalid-email' is rejected |
| UnitChecks.LowercaseExample | backend/tests/basic-unit-tests.js:11-13 | lowercasing 'Hello World' gives 'hello world', and both have 11 characters |
| Variants.StrictUsernamePassesRelaxed | backend/routes/auth.js:11-17 | a username the strict rules accept is its own trim and passes the relaxed length rule |
| Variants.StrictRegisterPassesRelaxed | backend/routes/auth.js:10-30 | input the strict register accepts, the relaxed register accepts too |
| Variants.StrictPasswordPassesUnitCheck | backend/routes/auth.js:23-29 | a password the strict rule accepts passes the test helper's rule |
| Variants.UnitCheckWeakerThanStrict | backend/tests/basic-unit-tests.js:23-25 | 'PASSWORD1' passes the test helper and the relaxed rule, but the strict rule rejects it for having no lower-case letter |
| Variants.DuplicateUserStatuses | backend/routes/auth.js:44-47 | when `normalizeEmail` returns lower case, a user already holding the email gets 409 from the relaxed router and 400 from the strict one, with no change |
| Variants.DuplicateKeyStatuses | backend/routes/auth.js:57-60 | a duplicate-key error from `save` gives 409 on the relaxed router and 500 on the strict one |

## Left out

- `backend/server.js`, `backend/models/User.js`, the task routes and the
  token middleware are not part of this model.
  - The collection's unique indexes on email and username are taken as
    given; `Store.SaveSpec` enforces them.
  - The pre-save hook is reduced to the abstract `hash`.
- express-validator's `isEmail`, `normalizeEmail` and `escape`, and the
  symbol class of `isStrongPassword`, are parameters (`Validator.Library`).
  The library's own rules are outside this model. `isStrongPassword`
  without scoring is modelled by its thresholds only.
- bcrypt is a pair of abstract functions, `hash` and `verify`. Salt
  randomness is not modelled: `hash` is a function of the password.
- JSON Web Tokens are their payload. Signing, encoding and signature
  checking are not modelled. The clock is the `now` parameter.
- The duplicate-registration race is concurrency. It appears only as a
  driver fault that `save` may throw (`Env.saveError`) and its mapping to a
  status. Driver faults of `findOne` are an injected error too.
- I/O and exceptions (connection loss, hook failures) are only the injected
  error values. `console.error` logging and the HTTP framework are not
  modelled.
- JSON bodies are strings.
  - In the routers, an absent field reads as the empty string, as
    express-validator reads `undefined`.
  - In the mock handlers, an absent field is `None`.
  - Non-string JSON values (numbers, arrays, objects) are not modelled.
- `createdAt: new Date()` of the mock create handler is the `now` parameter.
  `MockApi.ListTasks` and `MockApi.UpdateTask` carry no `createdAt`, as in
  the source.
- Text.LowerChar, Text.ToLower: lowercase ASCII letters only. JavaScript's
  `toLowerCase` follows full Unicode case mapping.
- Validator.IsLength, Validator.IsStrongPassword, UnitChecks.IsStrongPassword:
  lengths count Unicode scalar values. validator.js's `isLength` counts the
  same way (it discounts surrogate pairs), except that it also leaves out
  the variation selectors U+FE0E and U+FE0F, which the model counts. The
  `minLength` of `isStrongPassword` and the test helper's
  `password.length` count UTF-16 code units, so there a character outside
  the Basic Multilingual Plane counts twice, and once in the model.
- Ather.RegisterSucceedsIff, Ather.RegisterSuccessState, Ather.Register,
  Ather.Login: `normalizeEmail` is a total function to strings here.
  validator.js's `normalizeEmail` returns `false` when removing a `+`
  subaddress empties the local part (for example `+x@gmail.com`).
  `email.toLowerCase()` (Ather.js:46, :82) then throws, and the handler
  answers 500. The model answers as for the string it is given, so for
  such an address it may claim 201 or 200 where the code answers 500.
- Auth.RegisterSucceedsIff, Auth.Login: in the same case, auth.js passes
  `false` on to `findOne` and `save`. Mongoose's casting of that value is
  not part of this model.
- The basic-arithmetic unit test (`2 + 2`, `5 * 3`) states nothing about
  the system.
- The front end (React components, axios, localStorage) and the test
  harnesses (Selenium, the test runner) are outside the core.

## Notes on the code as written

- auth.js answers a duplicate with 400 and never with 409. A duplicate-key
  error from `save` becomes 500. The model follows the code
  (`Auth.RegisterRejectsDuplicate`, `Auth.RegisterNeverConflicts`,
  `Variants.DuplicateKeyStatuses`). Ather.js, whose header comment
  (Ather.js:22) promises 409 on a duplicate email or username, answers 409
  both on the lookup and, for error 11000, in its catch block
  (Ather.js:60-63).
- auth.js returns `errors.array()` as it is. Each record includes the value
  the validator saw, so a rejected password is sent back in the 400 body
  (`Auth.RegisterEchoesRejectedPassword`).
- auth.js signs tokens with `process.env.JWT_SECRET` and no fallback. When
  it is unset or empty, `jwt.sign` throws after `save`:
  - the client gets 500 but the account exists;
  - a retry gets 400 'User already exists'
    (`Auth.RegisterWithoutSecretKeepsUser`,
    `Auth.RegisterRetryAfterMissingSecret`).

  Ather.js falls back to 'dev-secret'.
- auth.js does not limit the password length at register, but login
  rejects passwords of more than 100 characters. Such an account can never
  log in (`Auth.LongPasswordLocksOut`). The messages 'must be less than 100
  characters' accept exactly 100, which is what `isLength({ max: 100 })`
  does.
- In auth.js's login chain, `withMessage('Please provide a valid email')`
  follows `normalizeEmail()`. It still sets the message of `isEmail`, the
  chain's last validator. The length check then sees the normalized email.
