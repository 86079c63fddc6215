/**
 The request handlers of the server, each a function of the directory and
 the request. Signup also returns the directory it leaves behind; every
 other handler only reads it.
 */
module Handlers {
  import opened Users

  /** A response: its HTTP status follows from the constructor (see Status).
      No constructor can hold a UserRecord, only its public view. */
  datatype Response =
    | Created(data: UserPublic)                        // 201 { data }
    | Found(data: UserPublic)                          // 200 { data }
    | EmailStatus(registered: bool)                    // 200 { exists }
    | UserList(count: nat, users: seq<UserPublic>)     // 200 { count, users }
    | BadRequest(message: string)                      // 400 { message }
    | Unauthorized(message: string)                    // 401 { message }
    | NotFound(message: string)                        // 404 { message }

  const SignupFieldsRequired := "Name, email and password are required"
  const EmailTaken := "Email already registered"
  const LoginFieldsRequired := "Email and password are required"
  const InvalidCredentials := "Invalid email or password"
  const EmailParamRequired := "Email parameter is required"
  const UserNotFound := "User not found"

  function Status(r: Response): (code: int)
    ensures code in {200, 201, 400, 401, 404}
    ensures code < 400 <==> (r.Created? || r.Found? || r.EmailStatus? || r.UserList?)
  {
    match r
    case Created(_) => 201
    case Found(_) => 200
    case EmailStatus(_) => 200
    case UserList(_, _) => 200
    case BadRequest(_) => 400
    case Unauthorized(_) => 401
    case NotFound(_) => 404
  }

  // ---------------------------------------------------------------
  // POST /api/auth/signup
  // ---------------------------------------------------------------

  datatype SignupBody = SignupBody(name: Option<string>, email: Option<string>, password: Option<string>)

  predicate Complete(body: SignupBody)
  {
    Present(body.name) && Present(body.email) && Present(body.password)
  }

  /** The record a complete signup stores; `now` is the millisecond clock
      and `createdAt` the ISO timestamp, both read by the caller. */
  function NewUser(body: SignupBody, now: nat, createdAt: string): (u: UserRecord)
    requires Complete(body)
    // filed under the signup's email, with every field the invariant asks for
    ensures u.email == body.email.value
    ensures u.email != "" && u.name != "" && u.password != ""
    ensures |u.id| > 5 && u.id[..5] == "user_"
  {
    UserRecord(UserId(now), body.name.value, body.email.value, body.password.value, createdAt)
  }

  /** Signup: the response and the directory afterwards. */
  function Signup(d: Directory, body: SignupBody, now: nat, createdAt: string): (out: (Response, Directory))
    // a missing or empty field is refused and nothing is stored
    ensures !Complete(body) ==> out == (BadRequest(SignupFieldsRequired), d)
    // a registered email is refused and nothing is stored
    ensures Complete(body) && body.email.value in d.users ==> out == (BadRequest(EmailTaken), d)
    ensures out.0.Created? <==> Complete(body) && body.email.value !in d.users
    // success: exactly one new entry, under the new email, reported without its password
    ensures out.0.Created? ==>
      var u := NewUser(body, now, createdAt);
      && out.0.data == Strip(u)
      && out.0.data.email == body.email.value
      && out.1.users == d.users[u.email := u]
      && out.1.order == d.order + [u.email]
      && |out.1.users| == |d.users| + 1
    // no existing record is ever replaced
    ensures forall e :: e in d.users ==> e in out.1.users && out.1.users[e] == d.users[e]
    ensures WellFormed(d) ==> WellFormed(out.1)
  {
    if !Complete(body) then
      (BadRequest(SignupFieldsRequired), d)
    else if body.email.value in d.users then
      (BadRequest(EmailTaken), d)
    else
      var u := NewUser(body, now, createdAt);
      (Created(Strip(u)), Directory(d.users[u.email := u], d.order + [u.email]))
  }

  // ---------------------------------------------------------------
  // POST /api/auth/login
  // ---------------------------------------------------------------

  datatype LoginBody = LoginBody(email: Option<string>, password: Option<string>)

  /** The stored record matches the credentials exactly (plain string
      equality on the password). */
  predicate Matches(d: Directory, body: LoginBody): (m: bool)
    // only a stored email whose password is exactly the supplied one
    ensures m ==>
      && body.email.Some? && body.password.Some?
      && body.email.value in d.users
      && d.users[body.email.value].password == body.password.value
    // an empty or missing password never matches
    ensures body.password == None || body.password == Some("") ==> !m
  {
    && Present(body.email) && Present(body.password)
    && body.email.value in d.users
    && d.users[body.email.value].password == body.password.value
  }

  function Login(d: Directory, body: LoginBody): (r: Response)
    ensures !(Present(body.email) && Present(body.password)) ==> r == BadRequest(LoginFieldsRequired)
    ensures r.Found? <==> Matches(d, body)
    ensures r.Found? ==> r.data == Strip(d.users[body.email.value])
    // an unknown email and a wrong password get one and the same answer
    ensures Present(body.email) && Present(body.password) && !Matches(d, body) ==>
      r == Unauthorized(InvalidCredentials)
  {
    if !Present(body.email) || !Present(body.password) then
      BadRequest(LoginFieldsRequired)
    else if body.email.value !in d.users then
      Unauthorized(InvalidCredentials)
    else if d.users[body.email.value].password != body.password.value then
      Unauthorized(InvalidCredentials)
    else
      Found(Strip(d.users[body.email.value]))
  }

  // ---------------------------------------------------------------
  // GET /api/auth/check-email?email=
  // ---------------------------------------------------------------

  function CheckEmail(d: Directory, email: Option<string>): (r: Response)
    ensures !Present(email) ==> r == BadRequest(EmailParamRequired)
    ensures Present(email) ==> r.EmailStatus? && (r.registered <==> email.value in d.users)
  {
    if !Present(email) then BadRequest(EmailParamRequired)
    else EmailStatus(email.value in d.users)
  }

  // ---------------------------------------------------------------
  // GET /api/auth/user/:email
  // ---------------------------------------------------------------

  function GetUser(d: Directory, email: string): (r: Response)
    ensures r.Found? <==> email in d.users
    ensures !r.Found? ==> r == NotFound(UserNotFound)
    ensures r.Found? ==> r.data == Strip(d.users[email])
    ensures WellFormed(d) && r.Found? ==> r.data.email == email
  {
    if email !in d.users then NotFound(UserNotFound)
    else Found(Strip(d.users[email]))
  }

  // ---------------------------------------------------------------
  // GET /api/debug/users
  // ---------------------------------------------------------------

  /** The public views of the records under `keys`, in that order
      (Object.values(users).map(strip)). */
  function PublicViews(users: map<string, UserRecord>, keys: seq<string>): (views: seq<UserPublic>)
    requires forall i :: 0 <= i < |keys| ==> keys[i] in users
    ensures |views| == |keys|
    ensures forall i :: 0 <= i < |keys| ==> views[i] == Strip(users[keys[i]])
  {
    if keys == [] then []
    else [Strip(users[keys[0]])] + PublicViews(users, keys[1..])
  }

  /** The views of a well-formed directory, in insertion order, cover
      every stored record once. */
  lemma ViewsCoverDirectory(d: Directory)
    requires WellFormed(d)
    ensures var views := PublicViews(d.users, d.order);
      && |views| == |d.users|
      && (forall i :: 0 <= i < |views| ==>
            views[i].email in d.users && views[i] == Strip(d.users[views[i].email]))
      && (forall e :: e in d.users ==> exists i :: 0 <= i < |views| && views[i].email == e)
      && (forall i, j :: 0 <= i < j < |views| ==> views[i].email != views[j].email)
  {
    OrderCountsRecords(d);
    var views := PublicViews(d.users, d.order);
    forall i | 0 <= i < |views|
      ensures views[i].email == d.order[i]
    {
      assert d.users[d.order[i]].email == d.order[i];
    }
    forall e | e in d.users
      ensures exists i :: 0 <= i < |views| && views[i].email == e
    {
      var i :| 0 <= i < |d.order| && d.order[i] == e;
      assert views[i].email == e;
    }
  }

  function ListUsers(d: Directory): (r: Response)
    requires WellFormed(d)
    ensures r.UserList?
    ensures r.count == |r.users| == |d.users|
    // every entry is the public view of the record stored under its email
    ensures forall i :: 0 <= i < |r.users| ==>
      r.users[i].email in d.users && r.users[i] == Strip(d.users[r.users[i].email])
    // every stored record appears, and appears once
    ensures forall e :: e in d.users ==> exists i :: 0 <= i < |r.users| && r.users[i].email == e
    ensures forall i, j :: 0 <= i < j < |r.users| ==> r.users[i].email != r.users[j].email
  {
    ViewsCoverDirectory(d);
    var views := PublicViews(d.users, d.order);
    UserList(|views|, views)
  }
}
