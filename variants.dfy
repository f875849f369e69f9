/** How the two register/login variants relate: the strict rules of
    routes/auth.js imply the relaxed ones of routes/Ather.js and the test
    helper, not the other way round, and the two routers answer the same
    conflicts with different statuses. */
module Variants {
  import opened Wrappers
  import opened Text
  import opened Validator
  import opened Store
  import opened Http
  import Ather
  import Auth
  import UnitChecks

  /** A username the strict router accepts has no whitespace, so the
      relaxed router's trim leaves it as it is and its length rule holds. */
  lemma StrictUsernamePassesRelaxed(username: string)
    requires Auth.UsernameLengthOk(username) && IsAlphanumeric(username)
    ensures Trim(username) == username
    ensures Ather.UsernameOk(username)
  {
    AlphanumericHasNoSpace(username);
    TrimNoSpace(username);
  }

  /** Input the strict router accepts at registration, the relaxed router
      accepts too (with the same email check). */
  lemma StrictRegisterPassesRelaxed(req: RegisterRequest, lib: Library)
    requires Auth.RegisterErrors(req, lib) == []
    ensures Ather.RegisterErrors(req, lib) == []
  {
    StrictUsernamePassesRelaxed(req.username);
  }

  /** The strict password rule implies the test helper's rule. */
  lemma StrictPasswordPassesUnitCheck(password: string, lib: Library)
    requires Auth.PasswordStrong(password, lib)
    ensures UnitChecks.IsStrongPassword(password)
  {
  }

  /** The converse fails: 'PASSWORD1' passes the test helper and the
      relaxed rule but has no lower-case letter, so the strict rule rejects
      it whatever the symbol class. */
  lemma UnitCheckWeakerThanStrict(lib: Library)
    ensures UnitChecks.IsStrongPassword("PASSWORD1")
    ensures Ather.PasswordOk("PASSWORD1")
    ensures !Auth.PasswordStrong("PASSWORD1", lib)
  {
    var p := "PASSWORD1";
    assert p[0] == 'P' && p[8] == '1';
    assert forall i :: 0 <= i < |p| ==> !IsAsciiLower(p[i]);
  }

  /** A user already holding the email makes the relaxed router answer 409
      and the strict router 400, both with the collection unchanged. */
  lemma DuplicateUserStatuses(db: Db, req: RegisterRequest, lib: Library, env: Env, i: nat)
    requires Auth.RegisterErrors(req, lib) == [] && env.findError.None?
    requires ToLower(lib.normalizeEmail(req.email)) == lib.normalizeEmail(req.email)
    requires i < |db.users| && db.users[i].email == lib.normalizeEmail(req.email)
    ensures Ather.RegisterSpec(db, req, lib, env) == Outcome(db, Msg(409, "User already exists"))
    ensures Auth.RegisterSpec(db, req, lib, env) == Outcome(db, Msg(400, "User already exists"))
  {
    StrictRegisterPassesRelaxed(req, lib);
    Ather.RegisterRejectsDuplicate(db, req, lib, env, i);
    Auth.RegisterRejectsDuplicate(db, req, lib, env, i);
  }

  /** A duplicate-key error from the save, as when a concurrent request
      inserted the same user between the check and the save, gives 409 on
      the relaxed router and 500 on the strict one. */
  lemma DuplicateKeyStatuses(db: Db, req: RegisterRequest, lib: Library, env: Env)
    requires Auth.RegisterErrors(req, lib) == [] && env.findError.None?
    requires env.saveError == Some(DbError(DuplicateKey))
    requires !Taken(db.users, Ather.EmailKey(req.email, lib), Trim(req.username))
    requires !Taken(db.users, lib.normalizeEmail(req.email), Auth.StoredUsername(req.username, lib))
    ensures Ather.RegisterSpec(db, req, lib, env).response == Msg(409, "User already exists")
    ensures Auth.RegisterSpec(db, req, lib, env).response == Msg(500, "Error creating user")
  {
    StrictRegisterPassesRelaxed(req, lib);
    Ather.RegisterMapsDriverErrors(db, req, lib, env);
    Auth.RegisterNeverConflicts(db, req, lib, env);
  }
}
