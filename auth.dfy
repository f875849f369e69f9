/** The strict auth router (routes/auth.js): an alphanumeric username of 3
    to 30 characters checked on the raw value, a strong password, at most
    100 characters for the login credentials, 400 for a duplicate, and no
    mapping of the driver's duplicate-key error. Its validation failures
    return express-validator's error records as they are, submitted values
    included. */
module Auth {
  import opened Wrappers
  import opened Text
  import opened Validator
  import opened Store
  import opened Http

  /** `isStrongPassword({ minLength: 8, minLowercase: 1, minUppercase: 1,
      minNumbers: 1, minSymbols: 1 })`. */
  const StrongOptions: StrongPasswordOptions := StrongPasswordOptions(8, 1, 1, 1, 1)

  predicate UsernameLengthOk(username: string) {
    IsLength(username, 3, Some(30))
  }

  predicate PasswordStrong(password: string, lib: Library) {
    IsStrongPassword(password, StrongOptions, lib.isSymbol)
  }

  const PasswordMessage: string :=
    "Password must be at least 8 characters long and contain uppercase, lowercase, number, and symbol"

  /** The validation chain of POST /register. Both username validators run
      before `trim` and `escape`, so they see the raw value. */
  function RegisterValidations(req: RegisterRequest, lib: Library): seq<Validation> {
    [ Validation("username", UsernameLengthOk(req.username), "Username must be between 3 and 30 characters", req.username),
      Validation("username", IsAlphanumeric(req.username), "Username must contain only letters and numbers", req.username),
      Validation("email", lib.isEmail(req.email), "Please provide a valid email", req.email),
      Validation("password", PasswordStrong(req.password, lib), PasswordMessage, req.password) ]
  }

  /** The errors of POST /register: none exactly when all four rules hold. */
  function RegisterErrors(req: RegisterRequest, lib: Library): (r: seq<FieldError>)
    ensures r == [] <==>
      UsernameLengthOk(req.username) && IsAlphanumeric(req.username) && lib.isEmail(req.email) && PasswordStrong(req.password, lib)
    ensures |r| <= 4
  {
    var vs := RegisterValidations(req, lib);
    assert vs[0].passes && vs[1].passes && vs[2].passes && vs[3].passes ==> forall i :: 0 <= i < |vs| ==> vs[i].passes;
    ValidationResult(vs)
  }

  /** The validation lists every violated rule with the value it saw; for
      the username both rules can fail at once. */
  lemma RegisterReportsEveryFailure(req: RegisterRequest, lib: Library)
    ensures var r := RegisterErrors(req, lib);
      && (Reports(r, "username") <==> !UsernameLengthOk(req.username) || !IsAlphanumeric(req.username))
      && (Reports(r, "email") <==> !lib.isEmail(req.email))
      && (Reports(r, "password") <==> !PasswordStrong(req.password, lib))
      && (!UsernameLengthOk(req.username) ==>
            FieldError("username", "Username must be between 3 and 30 characters", req.username) in r)
      && (!IsAlphanumeric(req.username) ==>
            FieldError("username", "Username must contain only letters and numbers", req.username) in r)
      && (!lib.isEmail(req.email) ==> FieldError("email", "Please provide a valid email", req.email) in r)
      && (!PasswordStrong(req.password, lib) ==> FieldError("password", PasswordMessage, req.password) in r)
  {
    var vs := RegisterValidations(req, lib);
    ResultReportsFailures(vs, "username");
    assert Fails(vs, "username") <==> !vs[0].passes || !vs[1].passes;
    if !vs[0].passes { ResultHasEveryFailure(vs, 0); }
    if !vs[1].passes { ResultHasEveryFailure(vs, 1); }
    ReportsSoleValidator(vs, 2);
    ReportsSoleValidator(vs, 3);
  }

  /** The 400 of a validation failure: `errors.array()` as it is. */
  function Rejected(errors: seq<FieldError>): (r: Response)
    ensures r.status == 400 && r.body == InvalidRaw("Validation failed", errors)
  {
    Response(400, InvalidRaw("Validation failed", errors))
  }

  /** The username the sanitizers leave in the body: trimmed, then escaped. */
  function StoredUsername(username: string, lib: Library): string {
    lib.escape(Trim(username))
  }

  /** POST /register, as a function of the collection before the request:
      validation on the raw fields first, then the store steps on the
      sanitized fields. */
  function RegisterSpec(db: Db, req: RegisterRequest, lib: Library, env: Env): Outcome {
    var errors := RegisterErrors(req, lib);
    if errors != [] then Outcome(db, Rejected(errors))
    else Persist(db, StoredUsername(req.username, lib), lib.normalizeEmail(req.email), req.password, env)
  }

  /** The store steps of POST /register: the duplicate check, the save and
      the token. `jwt.sign` throws when `JWT_SECRET` is unset or empty; the
      catch block then answers 500 although the user has been saved. */
  function Persist(db: Db, username: string, email: string, password: string, env: Env): Outcome {
    if env.findError.Some? then Outcome(db, Msg(500, "Error creating user"))
    else if FirstMatch(db.users, ByEmailOrUsername(email, username)).Some? then
      Outcome(db, Msg(400, "User already exists"))
    else
      var s := SaveSpec(db, username, email, password, env.hash, env.saveError);
      match s.result
      case SaveFailed(_) => Outcome(s.db, Msg(500, "Error creating user"))
      case Saved(u) =>
        if !Truthy(env.jwtSecret) then Outcome(s.db, Msg(500, "Error creating user"))
        else Outcome(s.db, Response(201, Session(Issue(u.id, env.now, env.jwtSecret.value), u.id, u.username)))
  }

  /** POST /register on the collection. */
  method Register(store: UserStore, req: RegisterRequest, lib: Library, env: Env) returns (res: Response)
    requires store.Valid()
    modifies store
    ensures store.Valid()
    ensures var o := RegisterSpec(old(store.State()), req, lib, env);
      store.State() == o.db && res == o.response
  {
    var errors := RegisterErrors(req, lib);
    if errors != [] {
      return Rejected(errors);
    }
    var username := StoredUsername(req.username, lib);
    var email := lib.normalizeEmail(req.email);
    if env.findError.Some? {
      return Msg(500, "Error creating user");
    }
    var existing := store.FindOne(ByEmailOrUsername(email, username));
    if existing.Some? {
      return Msg(400, "User already exists");
    }
    var saved := store.Save(username, email, req.password, env.hash, env.saveError);
    if saved.SaveFailed? {
      return Msg(500, "Error creating user");
    }
    if !Truthy(env.jwtSecret) {
      return Msg(500, "Error creating user");
    }
    var token := Issue(saved.user.id, env.now, env.jwtSecret.value);
    return Response(201, Session(token, saved.user.id, saved.user.username));
  }

  /** A validation failure answers 400 with every error before the
      collection is read: the same response whatever the collection and the
      environment, and the collection is unchanged. */
  lemma RegisterRejectsInvalid(db: Db, db': Db, req: RegisterRequest, lib: Library, env: Env, env': Env)
    requires RegisterErrors(req, lib) != []
    ensures var o := RegisterSpec(db, req, lib, env);
      && o.db == db
      && o.response == Rejected(RegisterErrors(req, lib))
      && o.response == RegisterSpec(db', req, lib, env').response
  {
  }

  /** A rejected password is sent back in plain text: the 400 body carries
      the error record of the password validator, whose value is the
      submitted password. */
  lemma RegisterEchoesRejectedPassword(db: Db, req: RegisterRequest, lib: Library, env: Env)
    requires !PasswordStrong(req.password, lib)
    ensures var r := RegisterSpec(db, req, lib, env).response;
      && r.status == 400
      && r.body.InvalidRaw?
      && exists i :: 0 <= i < |r.body.rawErrors| && r.body.rawErrors[i].path == "password"
                  && r.body.rawErrors[i].value == req.password
  {
    RegisterReportsEveryFailure(req, lib);
    var r := RegisterErrors(req, lib);
    var e := FieldError("password", PasswordMessage, req.password);
    var i :| 0 <= i < |r| && r[i] == e;
  }

  /** The store steps, case by case: a thrown lookup error gives 500; a
      taken email or username gives 400 and no change; otherwise a thrown
      save error gives 500 and no change; otherwise the user is appended
      and the answer is 201 when a secret is configured and 500 when not. */
  lemma PersistCases(db: Db, username: string, email: string, password: string, env: Env)
    ensures var o := Persist(db, username, email, password, env);
      var u := User(db.nextId, username, email, env.hash(password));
      && (env.findError.Some? ==> o == Outcome(db, Msg(500, "Error creating user")))
      && (env.findError.None? && Taken(db.users, email, username) ==>
            o == Outcome(db, Msg(400, "User already exists")))
      && (env.findError.None? && !Taken(db.users, email, username) && env.saveError.Some? ==>
            o == Outcome(db, Msg(500, "Error creating user")))
      && (env.findError.None? && !Taken(db.users, email, username) && env.saveError.None? ==>
            && o.db == Db(db.users + [u], db.nextId + 1)
            && o.response == if Truthy(env.jwtSecret)
                             then Response(201, Session(Issue(db.nextId, env.now, env.jwtSecret.value), db.nextId, username))
                             else Msg(500, "Error creating user"))
  {
    FindsTaken(db.users, email, username);
  }

  /** A user with the same normalized email or the same sanitized username
      makes register answer 400 (not 409) 'User already exists' and leave
      the collection as it is. */
  lemma RegisterRejectsDuplicate(db: Db, req: RegisterRequest, lib: Library, env: Env, i: nat)
    requires RegisterErrors(req, lib) == [] && env.findError.None?
    requires i < |db.users|
    requires db.users[i].email == lib.normalizeEmail(req.email)
          || db.users[i].username == StoredUsername(req.username, lib)
    ensures RegisterSpec(db, req, lib, env) == Outcome(db, Msg(400, "User already exists"))
  {
    PersistCases(db, StoredUsername(req.username, lib), lib.normalizeEmail(req.email), req.password, env);
  }

  /** Register succeeds exactly when the input is valid, neither the email
      nor the username is taken, the driver throws nothing and a signing
      secret is configured. */
  lemma RegisterSucceedsIff(db: Db, req: RegisterRequest, lib: Library, env: Env)
    ensures RegisterSpec(db, req, lib, env).response.status == 201 <==>
      && RegisterErrors(req, lib) == []
      && env.findError.None? && env.saveError.None? && Truthy(env.jwtSecret)
      && !Taken(db.users, lib.normalizeEmail(req.email), StoredUsername(req.username, lib))
  {
    PersistCases(db, StoredUsername(req.username, lib), lib.normalizeEmail(req.email), req.password, env);
  }

  /** On success one user is appended, with the escaped raw username (the
      username is alphanumeric, so trimming it changes nothing), the
      normalized email and the hashed password; the response is 201 with a
      one-hour token for the new identifier. */
  lemma RegisterSuccessState(db: Db, req: RegisterRequest, lib: Library, env: Env)
    requires RegisterSpec(db, req, lib, env).response.status == 201
    ensures var o := RegisterSpec(db, req, lib, env);
      var u := User(db.nextId, lib.escape(req.username), lib.normalizeEmail(req.email), env.hash(req.password));
      && o.db == Db(db.users + [u], db.nextId + 1)
      && o.response.body == Session(Token(db.nextId, env.now, env.now + 3600, env.jwtSecret.value),
                                    db.nextId, lib.escape(req.username))
  {
    RegisterSucceedsIff(db, req, lib, env);
    AlphanumericHasNoSpace(req.username);
    TrimNoSpace(req.username);
    PersistCases(db, StoredUsername(req.username, lib), lib.normalizeEmail(req.email), req.password, env);
  }

  /** Register never answers 409: a duplicate-key error from the driver, like
      any other thrown error, becomes 500 'Error creating user'. */
  lemma RegisterNeverConflicts(db: Db, req: RegisterRequest, lib: Library, env: Env)
    ensures RegisterSpec(db, req, lib, env).response.status in {201, 400, 500}
    ensures RegisterErrors(req, lib) == [] && env.findError.None?
            && !Taken(db.users, lib.normalizeEmail(req.email), StoredUsername(req.username, lib))
            && env.saveError == Some(DbError(DuplicateKey))
            ==> RegisterSpec(db, req, lib, env).response == Msg(500, "Error creating user")
  {
    PersistCases(db, StoredUsername(req.username, lib), lib.normalizeEmail(req.email), req.password, env);
  }

  /** Without a signing secret the user is saved and the client still gets
      500: the collection changes on a path that is not a success. */
  lemma RegisterWithoutSecretKeepsUser(db: Db, req: RegisterRequest, lib: Library, env: Env)
    requires RegisterErrors(req, lib) == [] && env.findError.None? && env.saveError.None?
    requires !Taken(db.users, lib.normalizeEmail(req.email), StoredUsername(req.username, lib))
    requires !Truthy(env.jwtSecret)
    ensures var o := RegisterSpec(db, req, lib, env);
      var u := User(db.nextId, StoredUsername(req.username, lib), lib.normalizeEmail(req.email), env.hash(req.password));
      && o.response == Msg(500, "Error creating user")
      && o.db == Db(db.users + [u], db.nextId + 1)
  {
    PersistCases(db, StoredUsername(req.username, lib), lib.normalizeEmail(req.email), req.password, env);
  }

  /** After that 500, sending the same request again, with or without a
      secret, answers 400 'User already exists': the account the client was
      told had not been created blocks its own registration. */
  lemma RegisterRetryAfterMissingSecret(db: Db, req: RegisterRequest, lib: Library, env: Env, env': Env)
    requires RegisterErrors(req, lib) == [] && env.findError.None? && env.saveError.None?
    requires !Taken(db.users, lib.normalizeEmail(req.email), StoredUsername(req.username, lib))
    requires !Truthy(env.jwtSecret)
    requires env'.findError.None?
    ensures var db' := RegisterSpec(db, req, lib, env).db;
      RegisterSpec(db', req, lib, env') == Outcome(db', Msg(400, "User already exists"))
  {
    RegisterWithoutSecretKeepsUser(db, req, lib, env);
    var db' := RegisterSpec(db, req, lib, env).db;
    assert db'.users[|db.users|].email == lib.normalizeEmail(req.email);
    RegisterRejectsDuplicate(db', req, lib, env', |db.users|);
  }

  /** The collection changes only when the save succeeds: on 201, or on the
      500 of a missing signing secret. */
  lemma RegisterChangesOnlyOnSave(db: Db, req: RegisterRequest, lib: Library, env: Env)
    ensures var o := RegisterSpec(db, req, lib, env);
      o.db != db ==> o.response.status == 201 || (o.response.status == 500 && !Truthy(env.jwtSecret))
  {
    PersistCases(db, StoredUsername(req.username, lib), lib.normalizeEmail(req.email), req.password, env);
  }

  /** Register keeps the collection invariant. */
  lemma RegisterKeepsWellFormed(db: Db, req: RegisterRequest, lib: Library, env: Env)
    requires WellFormed(db)
    ensures WellFormed(RegisterSpec(db, req, lib, env).db)
  {
    SaveKeepsWellFormed(db, StoredUsername(req.username, lib), lib.normalizeEmail(req.email),
                        req.password, env.hash, env.saveError);
  }

  /** The validation chain of POST /login. `isLength({ max: 100 })` on the
      email runs after `normalizeEmail` and so sees the normalized value;
      the message 'Please provide a valid email' belongs to `isEmail`. */
  function LoginValidations(req: LoginRequest, lib: Library): seq<Validation> {
    var normalized := lib.normalizeEmail(req.email);
    [ Validation("email", lib.isEmail(req.email), "Please provide a valid email", req.email),
      Validation("email", IsLength(normalized, 0, Some(100)), "Email must be less than 100 characters", normalized),
      Validation("password", IsLength(req.password, 1, None), "Password is required", req.password),
      Validation("password", IsLength(req.password, 0, Some(100)), "Password must be less than 100 characters", req.password) ]
  }

  /** The errors of POST /login: none exactly when the email is valid, its
      normalized form has at most 100 characters and the password has 1 to
      100 characters. */
  function LoginErrors(req: LoginRequest, lib: Library): (r: seq<FieldError>)
    ensures r == [] <==>
      lib.isEmail(req.email) && |lib.normalizeEmail(req.email)| <= 100 && 1 <= |req.password| <= 100
  {
    var vs := LoginValidations(req, lib);
    assert vs[0].passes && vs[1].passes && vs[2].passes && vs[3].passes ==> forall i :: 0 <= i < |vs| ==> vs[i].passes;
    ValidationResult(vs)
  }

  /** POST /login. It only reads the collection. */
  function LoginSpec(db: Db, req: LoginRequest, lib: Library, env: Env): Response {
    var errors := LoginErrors(req, lib);
    if errors != [] then Rejected(errors)
    else if env.findError.Some? then Msg(500, "Error logging in")
    else
      match FirstMatch(db.users, ByEmail(lib.normalizeEmail(req.email)))
      case None => InvalidCredentials
      case Some(u) =>
        if !env.verify(req.password, u.passwordHash) then InvalidCredentials
        else if !Truthy(env.jwtSecret) then Msg(500, "Error logging in")
        else Response(200, Session(Issue(u.id, env.now, env.jwtSecret.value), u.id, u.username))
  }

  /** POST /login on the collection; it has no write access to it. */
  method Login(store: UserStore, req: LoginRequest, lib: Library, env: Env) returns (res: Response)
    ensures res == LoginSpec(store.State(), req, lib, env)
  {
    var errors := LoginErrors(req, lib);
    if errors != [] {
      return Rejected(errors);
    }
    if env.findError.Some? {
      return Msg(500, "Error logging in");
    }
    var user := store.FindOne(ByEmail(lib.normalizeEmail(req.email)));
    if user.None? || !env.verify(req.password, user.value.passwordHash) {
      return InvalidCredentials;
    }
    if !Truthy(env.jwtSecret) {
      return Msg(500, "Error logging in");
    }
    var token := Issue(user.value.id, env.now, env.jwtSecret.value);
    return Response(200, Session(token, user.value.id, user.value.username));
  }

  /** Login answers 400 exactly when the email is invalid or over 100
      characters once normalized, or the password is empty or over 100
      characters; the collection is not consulted. */
  lemma LoginRejectsInvalid(db: Db, req: LoginRequest, lib: Library, env: Env)
    ensures LoginSpec(db, req, lib, env).status == 400 <==>
      !lib.isEmail(req.email) || |lib.normalizeEmail(req.email)| > 100 || |req.password| == 0 || |req.password| > 100
    ensures LoginSpec(db, req, lib, env).status == 400 ==>
      LoginSpec(db, req, lib, env) == Rejected(LoginErrors(req, lib))
  {
  }

  /** Login answers the one 401 'Invalid credentials' exactly when the input
      is valid and either no user has the normalized email or the password
      does not verify against that user's hash. */
  lemma LoginInvalidCredentials(db: Db, req: LoginRequest, lib: Library, env: Env)
    requires WellFormed(db)
    ensures var r := LoginSpec(db, req, lib, env);
      r.status == 401 <==>
        && LoginErrors(req, lib) == [] && env.findError.None?
        && forall i :: 0 <= i < |db.users| && db.users[i].email == lib.normalizeEmail(req.email) ==>
             !env.verify(req.password, db.users[i].passwordHash)
    ensures var r := LoginSpec(db, req, lib, env);
      r.status == 401 ==> r == InvalidCredentials
  {
    var q := ByEmail(lib.normalizeEmail(req.email));
    var m := FirstMatch(db.users, q);
    FindsEmail(db.users, lib.normalizeEmail(req.email));
    if m.Some? {
      var k :| 0 <= k < |db.users| && db.users[k] == m.value && Matches(m.value, q);
      forall i | 0 <= i < |db.users| && db.users[i].email == lib.normalizeEmail(req.email)
        ensures db.users[i] == m.value
      {
        assert i == k;
      }
    }
  }

  /** Two failed logins are indistinguishable: whatever the two collections
      and requests, two 401 responses are identical. */
  lemma LoginFailuresIndistinguishable(db: Db, db': Db, req: LoginRequest, req': LoginRequest,
                                       lib: Library, env: Env, env': Env)
    requires LoginSpec(db, req, lib, env).status == 401
    requires LoginSpec(db', req', lib, env').status == 401
    ensures LoginSpec(db, req, lib, env) == LoginSpec(db', req', lib, env')
  {
  }

  /** A successful login answers 200 with the matched user's identifier and
      username and a one-hour token signed with the configured secret. */
  lemma LoginSucceeds(db: Db, req: LoginRequest, lib: Library, env: Env)
    ensures var r := LoginSpec(db, req, lib, env);
      r.status == 200 ==>
        && Truthy(env.jwtSecret)
        && exists i :: 0 <= i < |db.users|
             && db.users[i].email == lib.normalizeEmail(req.email)
             && env.verify(req.password, db.users[i].passwordHash)
             && r.body == Session(Token(db.users[i].id, env.now, env.now + 3600, env.jwtSecret.value),
                                  db.users[i].id, db.users[i].username)
  {
  }

  /** Registering and then logging in with the same email and password
      reaches the new account, provided the hasher's compare accepts the
      password against its own hash and both credentials fit the login
      limits of 100 characters. */
  lemma RegisterThenLogin(db: Db, req: RegisterRequest, lib: Library, env: Env, env': Env)
    requires RegisterSpec(db, req, lib, env).response.status == 201
    requires |req.password| <= 100 && |lib.normalizeEmail(req.email)| <= 100
    requires env'.findError.None? && Truthy(env'.jwtSecret) && env'.verify(req.password, env.hash(req.password))
    ensures LoginSpec(RegisterSpec(db, req, lib, env).db, LoginRequest(req.email, req.password), lib, env')
         == Response(200, Session(Issue(db.nextId, env'.now, env'.jwtSecret.value), db.nextId, lib.escape(req.username)))
  {
    RegisterSucceedsIff(db, req, lib, env);
    RegisterSuccessState(db, req, lib, env);
    var key := lib.normalizeEmail(req.email);
    var u := User(db.nextId, lib.escape(req.username), key, env.hash(req.password));
    assert forall i :: 0 <= i < |db.users| ==> !Matches(db.users[i], ByEmail(key));
    FirstMatchAppend(db.users, u, ByEmail(key));
  }

  /** Register sets no upper bound on the password, login does: an account
      registered with a password of more than 100 characters can never log
      in, whatever the collection afterwards; login rejects it with 400. */
  lemma LongPasswordLocksOut(db: Db, req: RegisterRequest, lib: Library, env: Env, db': Db, env': Env)
    requires RegisterSpec(db, req, lib, env).response.status == 201
    requires |req.password| > 100
    ensures LoginSpec(db', LoginRequest(req.email, req.password), lib, env').status == 400
  {
  }
}
