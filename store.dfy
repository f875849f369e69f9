/** The user collection behind `models/User`, reduced to what the handlers
    use: `findOne` with an email or an email-or-username filter, and `save`
    of a new document whose password the pre-save hook hashes. The
    collection is a `seq<User>` in insertion order; identifiers come from a
    counter, which stands for the driver's ObjectId generation. */
module Store {
  import opened Wrappers

  /** A stored user. The plaintext password is never stored. */
  datatype User = User(id: nat, username: string, email: string, passwordHash: string)

  /** The filters the handlers pass to `findOne`. */
  datatype Query =
    | ByEmail(email: string)
    | ByEmailOrUsername(email: string, username: string)

  predicate Matches(u: User, q: Query) {
    match q
    case ByEmail(e) => u.email == e
    case ByEmailOrUsername(e, n) => u.email == e || u.username == n
  }

  /** `findOne`: the first user in collection order that matches. */
  function FirstMatch(users: seq<User>, q: Query): (r: Option<User>)
    ensures r.Some? <==> exists i :: 0 <= i < |users| && Matches(users[i], q)
    ensures r.Some? ==> exists i :: 0 <= i < |users| && users[i] == r.value && Matches(r.value, q)
                                     && forall j :: 0 <= j < i ==> !Matches(users[j], q)
  {
    if users == [] then None
    else if Matches(users[0], q) then Some(users[0])
    else
      var r := FirstMatch(users[1..], q);
      assert r.Some? ==> exists i :: 1 <= i < |users| && users[i] == r.value && Matches(r.value, q)
                                     && forall j :: 0 <= j < i ==> !Matches(users[j], q) by {
        if r.Some? {
          var k :| 0 <= k < |users| - 1 && users[1..][k] == r.value && Matches(r.value, q)
                   && forall j :: 0 <= j < k ==> !Matches(users[1..][j], q);
          assert forall j :: 0 <= j < k + 1 ==> !Matches(users[j], q) by {
            forall j | 0 <= j < k + 1 ensures !Matches(users[j], q) {
              if j > 0 { assert users[j] == users[1..][j - 1]; }
            }
          }
        }
      }
      r
  }

  /** Some user already holds the email or the username. */
  predicate Taken(users: seq<User>, email: string, username: string) {
    exists i :: 0 <= i < |users| && (users[i].email == email || users[i].username == username)
  }

  /** An email-or-username lookup finds a user exactly when one is taken. */
  lemma FindsTaken(users: seq<User>, email: string, username: string)
    ensures FirstMatch(users, ByEmailOrUsername(email, username)).Some? <==> Taken(users, email, username)
  {
    var q := ByEmailOrUsername(email, username);
    if Taken(users, email, username) {
      var k :| 0 <= k < |users| && (users[k].email == email || users[k].username == username);
      assert Matches(users[k], q);
    }
  }

  /** An email lookup finds a user exactly when one has that email. */
  lemma FindsEmail(users: seq<User>, email: string)
    ensures FirstMatch(users, ByEmail(email)).Some? <==> exists i :: 0 <= i < |users| && users[i].email == email
  {
    if exists i :: 0 <= i < |users| && users[i].email == email {
      var k :| 0 <= k < |users| && users[k].email == email;
      assert Matches(users[k], ByEmail(email));
    }
  }

  /** An error thrown by the driver; 11000 is MongoDB's duplicate-key code. */
  datatype DbError = DbError(code: int)

  const DuplicateKey: int := 11000

  /** The collection's value: its users and the next identifier to hand out. */
  datatype Db = Db(users: seq<User>, nextId: nat)

  /** The collection invariant: identifiers are below the counter and
      distinct, and no two users share an email or a username (the unique
      indexes). */
  ghost predicate WellFormed(db: Db) {
    && (forall i :: 0 <= i < |db.users| ==> db.users[i].id < db.nextId)
    && (forall i, j :: 0 <= i < j < |db.users| ==>
          && db.users[i].id != db.users[j].id
          && db.users[i].email != db.users[j].email
          && db.users[i].username != db.users[j].username)
  }

  datatype SaveResult = Saved(user: User) | SaveFailed(error: DbError)

  datatype Saving = Saving(db: Db, result: SaveResult)

  /** `user.save()`: a fault injected by the environment (a lost race, a
      failing pre-save hook, a dropped connection) is thrown as is; otherwise
      a clash with either unique index throws the duplicate-key error;
      otherwise the user, with the hashed password, is appended. */
  function SaveSpec(db: Db, username: string, email: string, password: string,
                    hash: string -> string, fault: Option<DbError>): Saving
  {
    if fault.Some? then Saving(db, SaveFailed(fault.value))
    else if FirstMatch(db.users, ByEmailOrUsername(email, username)).Some? then
      Saving(db, SaveFailed(DbError(DuplicateKey)))
    else
      var u := User(db.nextId, username, email, hash(password));
      Saving(Db(db.users + [u], db.nextId + 1), Saved(u))
  }

  /** Saving keeps the collection invariant; a failed save changes nothing,
      and a successful one appends exactly the new user, under a fresh
      identifier, and keeps every earlier record. */
  lemma SaveKeepsWellFormed(db: Db, username: string, email: string, password: string,
                            hash: string -> string, fault: Option<DbError>)
    requires WellFormed(db)
    ensures var s := SaveSpec(db, username, email, password, hash, fault);
      && WellFormed(s.db)
      && (s.result.SaveFailed? ==> s.db == db)
      && (s.result.Saved? ==>
            && s.db.users == db.users + [s.result.user]
            && s.result.user == User(db.nextId, username, email, hash(password))
            && forall i :: 0 <= i < |db.users| ==> s.result.user.id != db.users[i].id)
  {
    var s := SaveSpec(db, username, email, password, hash, fault);
    if s.result.Saved? {
      var q := ByEmailOrUsername(email, username);
      assert forall i :: 0 <= i < |db.users| ==> !Matches(db.users[i], q);
      var us := s.db.users;
      assert forall i :: 0 <= i < |db.users| ==> us[i] == db.users[i];
    }
  }

  /** Appending a user that the filter matches, to a collection in which
      nothing matches, makes that user the one `findOne` returns. */
  lemma FirstMatchAppend(users: seq<User>, u: User, q: Query)
    requires FirstMatch(users, q).None?
    ensures FirstMatch(users + [u], q) == if Matches(u, q) then Some(u) else None
    decreases |users|
  {
    if users != [] {
      assert (users + [u])[1..] == users[1..] + [u];
      assert !Matches(users[0], q);
      FirstMatchAppend(users[1..], u, q);
    }
  }

  /** A bearer token, reduced to its payload: the user it names, the issue
      time `iat` and expiry `exp` in seconds, and the secret it was signed
      with. Signatures are not modelled. */
  datatype Token = Token(userId: nat, issuedAt: int, expiresAt: int, secret: string)

  /** `expiresIn: '1h'`. */
  const TokenLifetime: int := 3600

  /** `jwt.sign({ userId }, secret, { expiresIn: '1h' })`, issued at `now`. */
  function Issue(userId: nat, now: int, secret: string): (t: Token)
    ensures t.userId == userId && t.expiresAt - t.issuedAt == TokenLifetime && t.issuedAt == now
  {
    Token(userId, now, now + TokenLifetime, secret)
  }

  /** The user collection as the handlers see it. */
  class UserStore {
    var users: seq<User>
    var nextId: nat

    ghost predicate Valid()
      reads this
    {
      WellFormed(Db(users, nextId))
    }

    function State(): Db
      reads this
    {
      Db(users, nextId)
    }

    constructor ()
      ensures Valid() && users == [] && nextId == 0
    {
      users := [];
      nextId := 0;
    }

    /** `User.findOne(filter)`: scans the collection in order. */
    method FindOne(q: Query) returns (found: Option<User>)
      ensures found == FirstMatch(users, q)
    {
      var i := 0;
      while i < |users|
        invariant 0 <= i <= |users|
        invariant forall j :: 0 <= j < i ==> !Matches(users[j], q)
        invariant FirstMatch(users, q) == FirstMatch(users[i..], q)
      {
        if Matches(users[i], q) {
          return Some(users[i]);
        }
        assert users[i..][1..] == users[i + 1..];
        i := i + 1;
      }
      return None;
    }

    /** `new User({ username, email, password }).save()`. */
    method Save(username: string, email: string, password: string,
                hash: string -> string, fault: Option<DbError>) returns (r: SaveResult)
      requires Valid()
      modifies this
      ensures Valid()
      ensures var s := SaveSpec(old(State()), username, email, password, hash, fault);
        State() == s.db && r == s.result
    {
      SaveKeepsWellFormed(State(), username, email, password, hash, fault);
      if fault.Some? {
        return SaveFailed(fault.value);
      }
      var clash := FindOne(ByEmailOrUsername(email, username));
      if clash.Some? {
        return SaveFailed(DbError(DuplicateKey));
      }
      var u := User(nextId, username, email, hash(password));
      users := users + [u];
      nextId := nextId + 1;
      return Saved(u);
    }
  }
}
