/** The `auth` blueprint: registration, login, logout, the per-request
    resolution of the current user, and the `login_required` guard.

    Each view is a pure function from the application state and the request
    to the response it returns and the state it leaves. Flask's `redirect`,
    `url_for`, `render_template` and `flash` become outcome values. */
module Auth {
  import opened Wrappers
  import opened Passwords
  import opened Users
  import opened Sessions

  /** The two form fields both auth forms post. */
  datatype Form = Form(username: string, password: string)

  /** The request a view sees: a GET, or a POST carrying the form. */
  datatype Request = Get | Post(form: Form)

  datatype Page = RegisterPage | LoginPage

  /** What a view returns: a rendered page (with the message `flash` queued
      for it, if any) or a redirect. */
  datatype Outcome =
    | Render(page: Page, flashed: Option<string>)
    | RedirectToLogin
    | RedirectToIndex

  /** The state a request can change: the user table and the client's session. */
  datatype App = App(users: Table, session: Session)

  datatype Response = Response(outcome: Outcome, app: App)

  const UsernameRequired: string := "Username is required."
  const PasswordRequired: string := "Password is required."
  const IncorrectUsername: string := "Incorrect username."
  const IncorrectPassword: string := "Incorrect password."

  /** The message `f"User {username} is already registered."`. */
  function AlreadyRegistered(username: string): (msg: string)
    ensures |msg| == |username| + 28
    ensures msg[..5] == "User "
    ensures msg[5..5 + |username|] == username
    ensures msg[5 + |username|..] == " is already registered."
  {
    "User " + username + " is already registered."
  }

  /** The input checks of `register`, in their fixed order: the username is
      tested first, so it is the one reported when both fields are empty. */
  function ValidateRegistration(f: Form): (error: Option<string>)
    ensures error == None <==> f.username != "" && f.password != ""
    ensures error == Some(UsernameRequired) <==> f.username == ""
    ensures error == Some(PasswordRequired) <==> f.username != "" && f.password == ""
  {
    if f.username == "" then Some(UsernameRequired)
    else if f.password == "" then Some(PasswordRequired)
    else None
  }

  /** The `/auth/register` view. `salt` is the randomness the hash draws. */
  function Register(h: Hasher, salt: Salt, app: App, req: Request): (r: Response)
    // a GET only shows the form
    ensures req.Get? ==> r == Response(Render(RegisterPage, None), app)
    // the username is checked before the password
    ensures req.Post? && req.form.username == "" ==>
      r == Response(Render(RegisterPage, Some(UsernameRequired)), app)
    ensures req.Post? && req.form.username != "" && req.form.password == "" ==>
      r == Response(Render(RegisterPage, Some(PasswordRequired)), app)
    // a taken username is reported and nothing is inserted
    ensures req.Post? && req.form.username != "" && req.form.password != ""
            && Contains(app.users, Username(req.form.username)) ==>
      r == Response(Render(RegisterPage, Some(AlreadyRegistered(req.form.username))), app)
    // a fresh username adds exactly one row holding the hash, without logging in
    ensures req.Post? && req.form.username != "" && req.form.password != ""
            && !Contains(app.users, Username(req.form.username)) ==>
      && r.outcome == RedirectToLogin
      && r.app.session == app.session
      && |r.app.users| == |app.users| + 1
      && r.app.users[..|app.users|] == app.users
      && r.app.users[|app.users|].username == req.form.username
      && r.app.users[|app.users|].password == h.generate(req.form.password, salt)
      && !Contains(app.users, Id(r.app.users[|app.users|].id))
    // the UNIQUE constraint survives
    ensures Valid(app.users) ==> Valid(r.app.users)
  {
    match req
    case Get => Response(Render(RegisterPage, None), app)
    case Post(f) =>
      match ValidateRegistration(f)
      case Some(error) => Response(Render(RegisterPage, Some(error)), app)
      case None =>
        match Insert(app.users, f.username, h.generate(f.password, salt))
        case Failure(_) => Response(Render(RegisterPage, Some(AlreadyRegistered(f.username))), app)
        case Success(users) => Response(RedirectToLogin, app.(users := users))
  }

  /** The `/auth/login` view. */
  function Login(h: Hasher, app: App, req: Request): (r: Response)
    // the user table is never written
    ensures r.app.users == app.users
    ensures req.Get? ==> r == Response(Render(LoginPage, None), app)
    // an unknown username is reported as such, and the session is kept
    ensures req.Post? && !Contains(app.users, Username(req.form.username)) ==>
      r == Response(Render(LoginPage, Some(IncorrectUsername)), app)
    // a known username whose hash rejects the password is reported as such
    ensures req.Post? && Valid(app.users) ==>
      forall u | u in app.users && u.username == req.form.username && !h.check(u.password, req.form.password) ::
        r == Response(Render(LoginPage, Some(IncorrectPassword)), app)
    // on success the old session is discarded and holds only the user's id
    ensures req.Post? && Valid(app.users) ==>
      forall u | u in app.users && u.username == req.form.username && h.check(u.password, req.form.password) ::
        r == Response(RedirectToIndex, App(app.users, map[UserIdKey := u.id]))
    // a success always comes from a row whose hash accepts the password
    ensures r.outcome == RedirectToIndex ==>
      && req.Post?
      && exists u | u in app.users ::
           && u.username == req.form.username
           && h.check(u.password, req.form.password)
           && r.app.session == map[UserIdKey := u.id]
    // every failure leaves the whole state as it was
    ensures r.outcome != RedirectToIndex ==> r.app == app
  {
    match req
    case Get => Response(Render(LoginPage, None), app)
    case Post(f) =>
      match Select(app.users, Username(f.username))
      case None => Response(Render(LoginPage, Some(IncorrectUsername)), app)
      case Some(user) =>
        if !h.check(user.password, f.password) then
          Response(Render(LoginPage, Some(IncorrectPassword)), app)
        else
          Response(RedirectToIndex, App(app.users, SetUserId(Clear(app.session), user.id)))
  }

  /** `load_logged_in_user`, run before every request: the value of `g.user`.
      Being a function of the state that returns only the user, it writes
      neither the session nor the table. */
  function LoadLoggedInUser(app: App): (user: Option<User>)
    // anonymous when the session holds no id, or an id no row has
    ensures user.None? <==> UserIdKey !in app.session || !Contains(app.users, Id(app.session[UserIdKey]))
    // otherwise a row of the table carrying exactly that id
    ensures user.Some? ==> user.value in app.users && user.value.id == app.session[UserIdKey]
  {
    match UserId(app.session)
    case None => None
    case Some(id) => Select(app.users, Id(id))
  }

  /** The `/auth/logout` view. */
  function Logout(app: App): (r: Response)
    ensures r.outcome == RedirectToIndex
    ensures r.app.users == app.users
    ensures |r.app.session| == 0
    ensures LoadLoggedInUser(r.app).None?
  {
    Response(RedirectToIndex, App(app.users, Clear(app.session)))
  }

  /** What a view wrapped by `login_required` returns. */
  datatype Guarded<+R> = RedirectedToLogin | Invoked(response: R)

  /** `login_required(view)(**kwargs)` given the request's `g.user`. */
  function LoginRequired<K, R>(user: Option<User>, view: K -> R, kwargs: K): (r: Guarded<R>)
    ensures r.Invoked? <==> user.Some?
    ensures r.Invoked? ==> r.response == view(kwargs)
  {
    if user.None? then RedirectedToLogin else Invoked(view(kwargs))
  }

  /** Logging out twice is logging out once. */
  lemma LogoutIdempotent(app: App)
    ensures Logout(Logout(app).app) == Logout(app)
  {
  }
}
