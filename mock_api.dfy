/** The mock application of the API tests: stateless handlers that fix the
    contract the front end relies on. A JSON body field is absent (`None`)
    or a string; JavaScript truthiness makes the empty string count as
    missing. */
module MockApi {
  import opened Wrappers
  import Http

  const MockToken: string := "mock_token_123"
  const MockUserId: string := "mock_user_id"
  const MockTaskId: string := "mock_task_id"
  const MissingFields: string := "Missing required fields"

  /** A task as the mock handlers return it; `createdAt` is present only on
      the answer to a create, where it is the time of the request. */
  datatype Task = Task(
    id: string, title: string, description: string, status: string,
    userId: string, createdAt: Option<int>)

  datatype Body =
    | Message(message: string)
    | Session(token: string, userId: string, username: string)
    | One(task: Task)
    | Many(tasks: seq<Task>)

  datatype Response = Response(status: int, body: Body)

  datatype RegisterBody = RegisterBody(username: Option<string>, email: Option<string>, password: Option<string>)
  datatype LoginBody = LoginBody(email: Option<string>, password: Option<string>)
  datatype TaskBody = TaskBody(title: Option<string>, description: Option<string>, status: Option<string>)

  /** JavaScript's `v || fallback` on a body field. */
  function Or(v: Option<string>, fallback: string): (r: string)
    ensures Http.Truthy(v) ==> r == v.value
    ensures !Http.Truthy(v) ==> r == fallback
    ensures r == "" ==> fallback == ""
  {
    if Http.Truthy(v) then v.value else fallback
  }

  /** POST /api/auth/register: 400 when any of the three fields is missing
      or empty, otherwise 201 with the fixed token and user id and the
      submitted username. */
  function Register(body: RegisterBody): (r: Response)
    ensures r.status == 400 <==>
      !Http.Truthy(body.username) || !Http.Truthy(body.email) || !Http.Truthy(body.password)
    ensures r.status == 400 ==> r.body == Message(MissingFields)
    ensures r.status != 400 ==>
      r.status == 201 && r.body == Session(MockToken, MockUserId, body.username.value)
  {
    if !Http.Truthy(body.username) || !Http.Truthy(body.email) || !Http.Truthy(body.password) then
      Response(400, Message(MissingFields))
    else
      Response(201, Session(MockToken, MockUserId, body.username.value))
  }

  /** POST /api/auth/login: 200 for the one fixed pair of credentials, the
      same 401 for every other input. */
  function Login(body: LoginBody): (r: Response)
    ensures r.status == 200 <==> body.email == Some("test@example.com") && body.password == Some("password123")
    ensures r.status == 200 ==> r.body == Session(MockToken, MockUserId, "testuser")
    ensures r.status != 200 ==> r == Response(401, Message("Invalid credentials"))
  {
    if body.email == Some("test@example.com") && body.password == Some("password123") then
      Response(200, Session(MockToken, MockUserId, "testuser"))
    else
      Response(401, Message("Invalid credentials"))
  }

  /** POST /api/tasks at time `now`: 400 when the title or the description
      is missing or empty; otherwise 201 with a task that echoes both, whose
      status defaults to 'pending'. */
  function CreateTask(body: TaskBody, now: int): (r: Response)
    ensures r.status == 400 <==> !Http.Truthy(body.title) || !Http.Truthy(body.description)
    ensures r.status == 400 ==> r.body == Message(MissingFields)
    ensures r.status != 400 ==>
      && r.status == 201 && r.body.One?
      && r.body.task.id == MockTaskId
      && r.body.task.title == body.title.value
      && r.body.task.description == body.description.value
      && (Http.Truthy(body.status) ==> r.body.task.status == body.status.value)
      && (!Http.Truthy(body.status) ==> r.body.task.status == "pending")
      && r.body.task.userId == MockUserId
      && r.body.task.createdAt == Some(now)
  {
    if !Http.Truthy(body.title) || !Http.Truthy(body.description) then
      Response(400, Message(MissingFields))
    else
      Response(201, One(Task(MockTaskId, body.title.value, body.description.value,
                             Or(body.status, "pending"), MockUserId, Some(now))))
  }

  /** GET /api/tasks: always 200 with the same one-element list. */
  function ListTasks(): (r: Response)
    ensures r.status == 200 && r.body.Many? && |r.body.tasks| == 1
    ensures r.body.tasks[0] == Task(MockTaskId, "Test Task", "Test Description", "pending", MockUserId, None)
  {
    Response(200, Many([Task(MockTaskId, "Test Task", "Test Description", "pending", MockUserId, None)]))
  }

  /** PUT /api/tasks/:id: always 200 with the path id; each field is the
      submitted one or, when missing or empty, its fixed default. */
  function UpdateTask(id: string, body: TaskBody): (r: Response)
    ensures r.status == 200 && r.body.One?
    ensures r.body.task.id == id && r.body.task.userId == MockUserId && r.body.task.createdAt.None?
    ensures r.body.task.title == (if Http.Truthy(body.title) then body.title.value else "Updated Task")
    ensures r.body.task.description == (if Http.Truthy(body.description) then body.description.value else "Updated Description")
    ensures r.body.task.status == (if Http.Truthy(body.status) then body.status.value else "in-progress")
  {
    Response(200, One(Task(id, Or(body.title, "Updated Task"), Or(body.description, "Updated Description"),
                           Or(body.status, "in-progress"), MockUserId, None)))
  }

  /** DELETE /api/tasks/:id: always the same confirmation, whatever the id. */
  function DeleteTask(id: string): (r: Response)
    ensures r == Response(200, Message("Task deleted successfully"))
  {
    Response(200, Message("Task deleted successfully"))
  }

  /** A task that create or update returns never has an empty title,
      description or status. */
  lemma ReturnedTasksHaveNoEmptyField(body: TaskBody, id: string, now: int)
    ensures var r := CreateTask(body, now);
      r.status == 201 ==> r.body.task.title != "" && r.body.task.description != "" && r.body.task.status != ""
    ensures var t := UpdateTask(id, body).body.task;
      t.title != "" && t.description != "" && t.status != ""
  {
  }

  /** The mock login is not backed by the mock register: after a successful
      register, logging in with the same email and password succeeds only
      for the fixed pair, and then under the username 'testuser' whatever
      username was registered. */
  lemma RegisterThenLogin(body: RegisterBody)
    requires Register(body).status == 201
    ensures var r := Login(LoginBody(body.email, body.password));
      && (r.status == 200 <==> body.email == Some("test@example.com") && body.password == Some("password123"))
      && (r.status == 200 ==> r.body.username == "testuser")
  {
  }

  /** The expectations of the register and login tests. */
  lemma AuthTestExpectations()
    ensures var r := Register(RegisterBody(Some("testuser"), Some("test@example.com"), Some("password123")));
      r.status == 201 && r.body.Session? && r.body.username == "testuser"
    ensures Login(LoginBody(Some("test@example.com"), Some("password123"))).status == 200
    ensures Login(LoginBody(Some("test@example.com"), Some("wrongpassword"))) ==
      Response(401, Message("Invalid credentials"))
  {
  }

  /** The expectations of the task tests. */
  lemma TaskTestExpectations(now: int)
    ensures var r := CreateTask(TaskBody(Some("Test Task"), Some("This is a test task"), Some("pending")), now);
      r.status == 201 && r.body.One? && r.body.task.title == "Test Task"
    ensures ListTasks().status == 200 && |ListTasks().body.tasks| == 1
    ensures var r := UpdateTask(MockTaskId, TaskBody(Some("Updated Task"), Some("This is an updated task"), Some("in-progress")));
      r.status == 200 && r.body.task.title == "Updated Task" && r.body.task.status == "in-progress"
    ensures DeleteTask(MockTaskId) == Response(200, Message("Task deleted successfully"))
  {
  }
}
