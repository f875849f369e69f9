/** The request and response payloads of the two auth routers, and the
    per-request environment: the clock, the `JWT_SECRET` setting, the
    password hasher and the faults the database driver may throw. */
module Http {
  import opened Wrappers
  import Store
  import Validator

  /** The body of POST /register. An absent field reads as the empty
      string, as express-validator reads `undefined`. */
  datatype RegisterRequest = RegisterRequest(username: string, email: string, password: string)

  /** The body of POST /login. */
  datatype LoginRequest = LoginRequest(email: string, password: string)

  /** One `{ field, msg }` pair of a validation-failure body. */
  datatype FieldMsg = FieldMsg(field: string, msg: string)

  datatype Body =
    | Message(message: string)
      /** `{ message, errors }` with `{ field, msg }` pairs. */
    | Invalid(message: string, errors: seq<FieldMsg>)
      /** `{ message, errors }` with express-validator's error records as they are. */
    | InvalidRaw(message: string, rawErrors: seq<Validator.FieldError>)
      /** `{ token, userId, username }`. */
    | Session(token: Store.Token, userId: nat, username: string)

  datatype Response = Response(status: int, body: Body)

  /** A handler's result: the collection afterwards and the response sent. */
  datatype Outcome = Outcome(db: Store.Db, response: Response)

  /** What the handler depends on beyond the request: the time in seconds,
      `process.env.JWT_SECRET`, bcrypt's hash and compare, and an error that
      `findOne` or `save` throws, if any. */
  datatype Env = Env(
    now: int,
    jwtSecret: Option<string>,
    hash: string -> string,
    verify: (string, string) -> bool,
    findError: Option<Store.DbError>,
    saveError: Option<Store.DbError>)

  /** JavaScript truthiness of an optional string. */
  predicate Truthy(v: Option<string>) {
    v.Some? && v.value != ""
  }

  function Msg(status: int, message: string): Response {
    Response(status, Message(message))
  }

  /** The 401 both login handlers send for an unknown email and for a wrong
      password alike. */
  const InvalidCredentials: Response := Msg(401, "Invalid credentials")
}
