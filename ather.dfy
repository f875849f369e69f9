/** The relaxed auth router (routes/Ather.js): it trims the username and
    asks for 3 to 30 characters, asks for a password of at least 6
    characters, lower-cases the email, answers 409 to a duplicate and maps
    the driver's duplicate-key error to 409 as well. */
module Ather {
  import opened Wrappers
  import opened Text
  import opened Validator
  import opened Store
  import opened Http

  /** `sendValidation`: 400 'Validation failed' with one `{ field, msg }`
      pair per error, in order; the values the validators saw are dropped. */
  function SendValidation(errors: seq<FieldError>): (r: Response)
    ensures r.status == 400 && r.body.Invalid? && r.body.message == "Validation failed"
    ensures |r.body.errors| == |errors|
    ensures forall i :: 0 <= i < |errors| ==> r.body.errors[i] == FieldMsg(errors[i].path, errors[i].msg)
  {
    Response(400, Invalid("Validation failed",
      seq(|errors|, i requires 0 <= i < |errors| => FieldMsg(errors[i].path, errors[i].msg))))
  }

  /** `body('username').trim().isLength({ min: 3, max: 30 })`. */
  predicate UsernameOk(username: string) {
    IsLength(Trim(username), 3, Some(30))
  }

  /** `body('password').isLength({ min: 6 })`. */
  predicate PasswordOk(password: string) {
    IsLength(password, 6, None)
  }

  /** The validation chain of POST /register, in the order it runs. The
      username validator sees the trimmed value. */
  function RegisterValidations(req: RegisterRequest, lib: Library): seq<Validation> {
    [ Validation("username", UsernameOk(req.username), "username must be 3-30 characters", Trim(req.username)),
      Validation("email", lib.isEmail(req.email), "valid email required", req.email),
      Validation("password", PasswordOk(req.password), "password must be at least 6 characters", req.password) ]
  }

  /** The errors of POST /register: none exactly when all three rules hold. */
  function RegisterErrors(req: RegisterRequest, lib: Library): (r: seq<FieldError>)
    ensures r == [] <==> UsernameOk(req.username) && lib.isEmail(req.email) && PasswordOk(req.password)
    ensures |r| <= 3
  {
    var vs := RegisterValidations(req, lib);
    assert vs[0].passes && vs[1].passes && vs[2].passes ==> forall i :: 0 <= i < |vs| ==> vs[i].passes;
    ValidationResult(vs)
  }

  /** Register's validation lists every violated field and only those, each
      with its message. */
  lemma RegisterReportsEveryFailure(req: RegisterRequest, lib: Library)
    ensures var r := RegisterErrors(req, lib);
      && (Reports(r, "username") <==> !UsernameOk(req.username))
      && (Reports(r, "email") <==> !lib.isEmail(req.email))
      && (Reports(r, "password") <==> !PasswordOk(req.password))
      && (!UsernameOk(req.username) ==> FieldError("username", "username must be 3-30 characters", Trim(req.username)) in r)
      && (!lib.isEmail(req.email) ==> FieldError("email", "valid email required", req.email) in r)
      && (!PasswordOk(req.password) ==> FieldError("password", "password must be at least 6 characters", req.password) in r)
  {
    var vs := RegisterValidations(req, lib);
    ReportsSoleValidator(vs, 0);
    ReportsSoleValidator(vs, 1);
    ReportsSoleValidator(vs, 2);
  }

  /** The catch block of POST /register. */
  function Caught(e: DbError): (r: Response)
    ensures r.status in {409, 500}
    ensures r.status == 409 <==> e.code == DuplicateKey
    ensures r.status == 409 ==> r.body == Message("User already exists")
    ensures r.status == 500 ==> r.body == Message("Error creating user")
  {
    if e.code == DuplicateKey then Msg(409, "User already exists") else Msg(500, "Error creating user")
  }

  /** `process.env.JWT_SECRET || 'dev-secret'`. */
  function SigningSecret(secret: Option<string>): (s: string)
    ensures s != ""
    ensures Truthy(secret) ==> s == secret.value
    ensures !Truthy(secret) ==> s == "dev-secret"
  {
    if Truthy(secret) then secret.value else "dev-secret"
  }

  /** The email under which the router stores and looks up a user:
      express-validator's normalizeEmail, then `toLowerCase`. */
  function EmailKey(email: string, lib: Library): string {
    ToLower(lib.normalizeEmail(email))
  }

  /** POST /register, as a function of the collection before the request:
      validation first, then the store steps on the sanitized fields (the
      `trim` and `normalizeEmail` sanitizers have replaced the raw values). */
  function RegisterSpec(db: Db, req: RegisterRequest, lib: Library, env: Env): Outcome {
    var errors := RegisterErrors(req, lib);
    if errors != [] then Outcome(db, SendValidation(errors))
    else
      var username := Trim(req.username);
      Persist(db, username, Trim(username), lib.normalizeEmail(req.email), req.password, env)
  }

  /** The store steps of POST /register: the duplicate check on the
      lower-cased email and `username`, the save of `stored` (the handler's
      `username.trim()`) and the lower-cased email, and the token. */
  function Persist(db: Db, username: string, stored: string, email: string, password: string, env: Env): Outcome {
    if env.findError.Some? then Outcome(db, Caught(env.findError.value))
    else if FirstMatch(db.users, ByEmailOrUsername(ToLower(email), username)).Some? then
      Outcome(db, Msg(409, "User already exists"))
    else
      var s := SaveSpec(db, stored, ToLower(email), password, env.hash, env.saveError);
      match s.result
      case SaveFailed(e) => Outcome(s.db, Caught(e))
      case Saved(u) =>
        Outcome(s.db, Response(201, Session(Issue(u.id, env.now, SigningSecret(env.jwtSecret)), u.id, u.username)))
  }

  /** POST /register on the collection. */
  method Register(store: UserStore, req: RegisterRequest, lib: Library, env: Env) returns (res: Response)
    requires store.Valid()
    modifies store
    ensures store.Valid()
    ensures var o := RegisterSpec(old(store.State()), req, lib, env);
      store.State() == o.db && res == o.response
  {
    var errors := RegisterErrors(req, lib);
    if errors != [] {
      return SendValidation(errors);
    }
    var username := Trim(req.username);
    var email := lib.normalizeEmail(req.email);
    if env.findError.Some? {
      return Caught(env.findError.value);
    }
    var existing := store.FindOne(ByEmailOrUsername(ToLower(email), username));
    if existing.Some? {
      return Msg(409, "User already exists");
    }
    var saved := store.Save(Trim(username), ToLower(email), req.password, env.hash, env.saveError);
    match saved {
      case SaveFailed(e) =>
        return Caught(e);
      case Saved(u) =>
        var token := Issue(u.id, env.now, SigningSecret(env.jwtSecret));
        return Response(201, Session(token, u.id, u.username));
    }
  }

  /** A validation failure answers 400 with every error, before the
      collection is read: the response is the same whatever the collection
      and the environment, and the collection is unchanged. */
  lemma RegisterRejectsInvalid(db: Db, db': Db, req: RegisterRequest, lib: Library, env: Env, env': Env)
    requires !UsernameOk(req.username) || !lib.isEmail(req.email) || !PasswordOk(req.password)
    ensures var o := RegisterSpec(db, req, lib, env);
      && o.db == db
      && o.response == SendValidation(RegisterErrors(req, lib))
      && o.response == RegisterSpec(db', req, lib, env').response
  {
  }

  /** A user with the same lower-cased email or the same trimmed username
      makes register answer 409 'User already exists' and leave the
      collection as it is. */
  lemma RegisterRejectsDuplicate(db: Db, req: RegisterRequest, lib: Library, env: Env, i: nat)
    requires RegisterErrors(req, lib) == [] && env.findError.None?
    requires i < |db.users|
    requires db.users[i].email == EmailKey(req.email, lib) || db.users[i].username == Trim(req.username)
    ensures RegisterSpec(db, req, lib, env) == Outcome(db, Msg(409, "User already exists"))
  {
    FindsTaken(db.users, EmailKey(req.email, lib), Trim(req.username));
  }

  /** The store steps when the saved username is the one looked up (as it
      is once the sanitizer has trimmed it): they succeed exactly when
      neither the lower-cased email nor the username is taken and the driver
      throws nothing, and then append exactly the new user. Otherwise the
      collection is unchanged and a thrown error maps through `Caught`. */
  lemma PersistCases(db: Db, username: string, email: string, password: string, env: Env)
    ensures var o := Persist(db, username, username, email, password, env);
      && (o.response.status == 201 <==>
            env.findError.None? && env.saveError.None? && !Taken(db.users, ToLower(email), username))
      && (o.response.status != 201 ==> o.db == db)
      && (o.response.status == 201 ==>
            var u := User(db.nextId, username, ToLower(email), env.hash(password));
            && o.db == Db(db.users + [u], db.nextId + 1)
            && o.response.body == Session(Issue(db.nextId, env.now, SigningSecret(env.jwtSecret)), db.nextId, username))
      && (env.findError.Some? ==> o.response == Caught(env.findError.value))
      && (env.findError.None? && !Taken(db.users, ToLower(email), username) && env.saveError.Some? ==>
            o.response == Caught(env.saveError.value))
  {
    FindsTaken(db.users, ToLower(email), username);
  }

  /** Register succeeds exactly when the input is valid, neither the email
      nor the username is taken and the driver throws nothing. */
  lemma RegisterSucceedsIff(db: Db, req: RegisterRequest, lib: Library, env: Env)
    ensures RegisterSpec(db, req, lib, env).response.status == 201 <==>
      && RegisterErrors(req, lib) == []
      && env.findError.None? && env.saveError.None?
      && !Taken(db.users, EmailKey(req.email, lib), Trim(req.username))
  {
    TrimIdempotent(req.username);
    PersistCases(db, Trim(req.username), lib.normalizeEmail(req.email), req.password, env);
  }

  /** On success register appends one user with the trimmed username, the
      lower-cased email and the hashed password, keeps every earlier record,
      and answers 201 with a one-hour token for the new identifier, the
      identifier and the username, and no password. */
  lemma RegisterSuccessState(db: Db, req: RegisterRequest, lib: Library, env: Env)
    requires RegisterSpec(db, req, lib, env).response.status == 201
    ensures var o := RegisterSpec(db, req, lib, env);
      var u := User(db.nextId, Trim(req.username), EmailKey(req.email, lib), env.hash(req.password));
      && o.db == Db(db.users + [u], db.nextId + 1)
      && o.response.body == Session(Token(db.nextId, env.now, env.now + 3600, SigningSecret(env.jwtSecret)),
                                    db.nextId, Trim(req.username))
  {
    TrimIdempotent(req.username);
    PersistCases(db, Trim(req.username), lib.normalizeEmail(req.email), req.password, env);
  }

  /** The collection changes only on the 201 path. */
  lemma RegisterChangesOnlyOnSuccess(db: Db, req: RegisterRequest, lib: Library, env: Env)
    ensures var o := RegisterSpec(db, req, lib, env);
      o.response.status != 201 ==> o.db == db
  {
    TrimIdempotent(req.username);
    PersistCases(db, Trim(req.username), lib.normalizeEmail(req.email), req.password, env);
  }

  /** An error thrown by `findOne` or `save` yields 409 when its code is
      11000 and 500 'Error creating user' otherwise, and leaves the
      collection unchanged. */
  lemma RegisterMapsDriverErrors(db: Db, req: RegisterRequest, lib: Library, env: Env)
    requires RegisterErrors(req, lib) == []
    requires env.findError.Some? || (env.saveError.Some? && !Taken(db.users, EmailKey(req.email, lib), Trim(req.username)))
    ensures var e := if env.findError.Some? then env.findError.value else env.saveError.value;
      RegisterSpec(db, req, lib, env) == Outcome(db, Caught(e))
  {
    var username := Trim(req.username);
    TrimIdempotent(req.username);
    FindsTaken(db.users, EmailKey(req.email, lib), username);
  }

  /** Register keeps the collection invariant. */
  lemma RegisterKeepsWellFormed(db: Db, req: RegisterRequest, lib: Library, env: Env)
    requires WellFormed(db)
    ensures WellFormed(RegisterSpec(db, req, lib, env).db)
  {
    SaveKeepsWellFormed(db, Trim(Trim(req.username)), EmailKey(req.email, lib), req.password, env.hash, env.saveError);
  }

  /** Register answers only 201, 400, 409 or 500. */
  lemma RegisterStatuses(db: Db, req: RegisterRequest, lib: Library, env: Env)
    ensures RegisterSpec(db, req, lib, env).response.status in {201, 400, 409, 500}
  {
  }

  /** `body('password').isLength({ min: 1 })`. */
  predicate LoginPasswordOk(password: string) {
    IsLength(password, 1, None)
  }

  /** The validation chain of POST /login. */
  function LoginValidations(req: LoginRequest, lib: Library): seq<Validation> {
    [ Validation("email", lib.isEmail(req.email), "valid email required", req.email),
      Validation("password", LoginPasswordOk(req.password), "password is required", req.password) ]
  }

  /** The errors of POST /login: none exactly when both rules hold. */
  function LoginErrors(req: LoginRequest, lib: Library): (r: seq<FieldError>)
    ensures r == [] <==> lib.isEmail(req.email) && LoginPasswordOk(req.password)
  {
    var vs := LoginValidations(req, lib);
    assert vs[0].passes && vs[1].passes ==> forall i :: 0 <= i < |vs| ==> vs[i].passes;
    ValidationResult(vs)
  }

  /** POST /login. It only reads the collection. */
  function LoginSpec(db: Db, req: LoginRequest, lib: Library, env: Env): Response {
    var errors := LoginErrors(req, lib);
    if errors != [] then SendValidation(errors)
    else if env.findError.Some? then Msg(500, "Error logging in")
    else
      match FirstMatch(db.users, ByEmail(EmailKey(req.email, lib)))
      case None => InvalidCredentials
      case Some(u) =>
        if !env.verify(req.password, u.passwordHash) then InvalidCredentials
        else Response(200, Session(Issue(u.id, env.now, SigningSecret(env.jwtSecret)), u.id, u.username))
  }

  /** POST /login on the collection; it has no write access to it. */
  method Login(store: UserStore, req: LoginRequest, lib: Library, env: Env) returns (res: Response)
    ensures res == LoginSpec(store.State(), req, lib, env)
  {
    var errors := LoginErrors(req, lib);
    if errors != [] {
      return SendValidation(errors);
    }
    if env.findError.Some? {
      return Msg(500, "Error logging in");
    }
    var email := lib.normalizeEmail(req.email);
    var user := store.FindOne(ByEmail(ToLower(email)));
    if user.None? || !env.verify(req.password, user.value.passwordHash) {
      return InvalidCredentials;
    }
    var token := Issue(user.value.id, env.now, SigningSecret(env.jwtSecret));
    return Response(200, Session(token, user.value.id, user.value.username));
  }

  /** Login answers 400 with every error exactly when the email is invalid
      or the password is empty; the collection is not consulted. */
  lemma LoginRejectsInvalid(db: Db, req: LoginRequest, lib: Library, env: Env)
    ensures LoginSpec(db, req, lib, env).status == 400 <==>
      !lib.isEmail(req.email) || |req.password| == 0
    ensures LoginSpec(db, req, lib, env).status == 400 ==>
      LoginSpec(db, req, lib, env) == SendValidation(LoginErrors(req, lib))
  {
  }

  /** Login answers the one 401 'Invalid credentials' exactly when the input
      is valid and either no user has the lower-cased email or the password
      does not verify against that user's hash. */
  lemma LoginInvalidCredentials(db: Db, req: LoginRequest, lib: Library, env: Env)
    requires WellFormed(db)
    ensures var r := LoginSpec(db, req, lib, env);
      r.status == 401 <==>
        && LoginErrors(req, lib) == [] && env.findError.None?
        && forall i :: 0 <= i < |db.users| && db.users[i].email == EmailKey(req.email, lib) ==>
             !env.verify(req.password, db.users[i].passwordHash)
    ensures var r := LoginSpec(db, req, lib, env);
      r.status == 401 ==> r == InvalidCredentials
  {
    var q := ByEmail(EmailKey(req.email, lib));
    var m := FirstMatch(db.users, q);
    FindsEmail(db.users, EmailKey(req.email, lib));
    if m.Some? {
      var k :| 0 <= k < |db.users| && db.users[k] == m.value && Matches(m.value, q);
      forall i | 0 <= i < |db.users| && db.users[i].email == EmailKey(req.email, lib)
        ensures db.users[i] == m.value
      {
        assert i == k;
      }
    }
  }

  /** Two failed logins are indistinguishable: whatever the two collections
      and requests, two 401 responses are identical. */
  lemma LoginFailuresIndistinguishable(db: Db, db': Db, req: LoginRequest, req': LoginRequest,
                                       lib: Library, env: Env, env': Env)
    requires LoginSpec(db, req, lib, env).status == 401
    requires LoginSpec(db', req', lib, env').status == 401
    ensures LoginSpec(db, req, lib, env) == LoginSpec(db', req', lib, env')
  {
  }

  /** A successful login answers 200 with the matched user's identifier and
      username and a one-hour token for that identifier. */
  lemma LoginSucceeds(db: Db, req: LoginRequest, lib: Library, env: Env)
    ensures var r := LoginSpec(db, req, lib, env);
      r.status == 200 ==>
        exists i :: 0 <= i < |db.users|
          && db.users[i].email == EmailKey(req.email, lib)
          && env.verify(req.password, db.users[i].passwordHash)
          && r.body == Session(Token(db.users[i].id, env.now, env.now + 3600, SigningSecret(env.jwtSecret)),
                               db.users[i].id, db.users[i].username)
  {
  }

  /** Registering and then logging in with the same email and password
      reaches the new account, provided the hasher's compare accepts the
      password against its own hash. */
  lemma RegisterThenLogin(db: Db, req: RegisterRequest, lib: Library, env: Env, env': Env)
    requires RegisterSpec(db, req, lib, env).response.status == 201
    requires env'.findError.None? && env'.verify(req.password, env.hash(req.password))
    ensures LoginSpec(RegisterSpec(db, req, lib, env).db, LoginRequest(req.email, req.password), lib, env')
         == Response(200, Session(Issue(db.nextId, env'.now, SigningSecret(env'.jwtSecret)), db.nextId, Trim(req.username)))
  {
    RegisterSucceedsIff(db, req, lib, env);
    RegisterSuccessState(db, req, lib, env);
    var key := EmailKey(req.email, lib);
    var u := User(db.nextId, Trim(req.username), key, env.hash(req.password));
    assert forall i :: 0 <= i < |db.users| ==> !Matches(db.users[i], ByEmail(key));
    FirstMatchAppend(db.users, u, ByEmail(key));
  }
}
